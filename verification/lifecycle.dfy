/** The life of a connection after construction: the state invariant every
    operation keeps, at-most-once negotiation, where the sender comes from, and
    what the accessors read back after negotiation. */
module Lifecycle {
  import opened Options
  import opened Session
  import opened Agents
  import opened Configure
  import opened RtpConnection
  import opened Disposal

  /** The invariant of a constructed connection: the remote spec, the two
      negotiated specs and the sender are assigned together by negotiation (the
      negotiated specs may be NULL); before it the descriptor is the local spec,
      after it the negotiated local spec; the sender is built from the negotiated
      remote spec; the receiver carries the descriptor and the connection's two
      agents. */
  predicate Inv(c: Connection) {
    && (c.remoteSpec.None? ==>
          c.negLocalSpec.None? && c.negRemoteSpec.None? && c.sender.None? && c.descriptor == c.localSpec)
    && (c.remoteSpec.Some? ==>
          c.descriptor == c.negLocalSpec && c.sender == Some(CreateSender(c.negRemoteSpec, c.receiver)))
    && (c.receiver.Some? ==>
          && c.receiver.value.localSpec == c.descriptor
          && c.receiver.value.audioAgent == c.audioAgent
          && c.receiver.value.videoAgent == c.videoAgent)
  }

  /** The operations a constructed connection accepts. "local-spec" is
      construct-only and the other properties are read-only, so no property write
      happens after construction. */
  datatype Op =
    | ConnectOp(arg: Arg, localOfferer: bool)
    | ModeChangedOp(mode: ConnectionMode, kind: MediaKind)
    | DisposeOp

  function Step(c: Connection, op: Op, intersect: Intersection): Connection {
    match op
    case ConnectOp(arg, localOfferer) => Connect(c, arg, localOfferer, intersect).conn
    case ModeChangedOp(mode, kind) => ModeChanged(c, mode, kind).0
    case DisposeOp => Dispose(c).conn
  }

  /** `op` is a `connect_to_remote` call that returns TRUE on `c`. */
  predicate Negotiates(c: Connection, op: Op, intersect: Intersection) {
    op.ConnectOp? && Connect(c, op.arg, op.localOfferer, intersect).error.None?
  }

  function Run(c: Connection, ops: seq<Op>, intersect: Intersection): Connection
    decreases |ops|
  {
    if |ops| == 0 then c else Run(Step(c, ops[0], intersect), ops[1..], intersect)
  }

  /** How many of `ops`, run in order from `c`, negotiate successfully. */
  function Negotiations(c: Connection, ops: seq<Op>, intersect: Intersection): nat
    decreases |ops|
  {
    if |ops| == 0 then 0
    else (if Negotiates(c, ops[0], intersect) then 1 else 0) + Negotiations(Step(c, ops[0], intersect), ops[1..], intersect)
  }

  /** Construction establishes the invariant, whatever the ICE setup did. */
  lemma ConstructEstablishesInv(localSpec: Option<SessionSpec>, env: IceEnv, fds: ExportedFds)
    ensures Inv(Construct(localSpec, env, fds))
  {
  }

  /** Every operation keeps the invariant. */
  lemma StepPreservesInv(c: Connection, op: Op, intersect: Intersection)
    requires Inv(c)
    ensures Inv(Step(c, op, intersect))
  {
  }

  /** Any sequence of operations keeps the invariant. */
  lemma {:induction false} RunPreservesInv(c: Connection, ops: seq<Op>, intersect: Intersection)
    requires Inv(c)
    ensures Inv(Run(c, ops, intersect))
    decreases |ops|
  {
    if |ops| > 0 {
      StepPreservesInv(c, ops[0], intersect);
      RunPreservesInv(Step(c, ops[0], intersect), ops[1..], intersect);
    }
  }

  /** Negotiation happens at most once: until the connection is disposed, at most
      one `connect_to_remote` call succeeds, and none once a remote spec is set. */
  lemma {:induction false} AtMostOneNegotiation(c: Connection, ops: seq<Op>, intersect: Intersection)
    requires forall k :: 0 <= k < |ops| ==> !ops[k].DisposeOp?
    ensures Negotiations(c, ops, intersect) <= 1
    ensures c.remoteSpec.Some? ==> Negotiations(c, ops, intersect) == 0
    decreases |ops|
  {
    if |ops| > 0 {
      var next := Step(c, ops[0], intersect);
      assert next.remoteSpec.Some? || !Negotiates(c, ops[0], intersect);
      assert c.remoteSpec.Some? ==> next.remoteSpec.Some?;
      AtMostOneNegotiation(next, ops[1..], intersect);
    }
  }

  /** The only operation that creates a sender is a successful
      `connect_to_remote`. */
  lemma SenderOnlyFromConnect(c: Connection, op: Op, intersect: Intersection)
    requires c.sender.None?
    requires Step(c, op, intersect).sender.Some?
    ensures Negotiates(c, op, intersect)
  {
  }

  /** On a constructed connection the sink is available exactly when negotiation
      has happened. */
  lemma SinkAvailability(c: Connection)
    requires Inv(c)
    ensures GetSink(c).Some? <==> c.remoteSpec.Some?
    ensures GetSink(c).Some? ==> GetSink(c).value.remoteSpec == c.negRemoteSpec
    ensures GetSink(c).Some? ==> GetSink(c).value == CreateSender(c.negRemoteSpec, c.receiver)
  {
  }

  /** On a constructed connection the source, when there is one, is the receiver
      configured with the current descriptor and the connection's two agents. */
  lemma SourceMirrorsConnection(c: Connection)
    requires Inv(c)
    ensures GetSrc(c).Some? ==> GetSrc(c).value.localSpec == c.descriptor
    ensures GetSrc(c).Some? ==> GetSrc(c).value.audioAgent == c.audioAgent && GetSrc(c).value.videoAgent == c.videoAgent
    ensures GetSrc(c).Some? <==> c.receiver.Some?
  {
  }

  /** A new connection has no sink, and its source is there whenever it was given
      a local spec. */
  lemma NoSinkBeforeNegotiation(localSpec: Option<SessionSpec>, env: IceEnv, fds: ExportedFds)
    ensures GetSink(Construct(localSpec, env, fds)).None?
    ensures GetSrc(Construct(localSpec, env, fds)).Some? <==> localSpec.Some?
  {
  }

  /** After a successful negotiation the descriptor and the "remote-spec" property
      read back the intersection's outputs in the directional order, the sink is
      the sender built from the negotiated remote spec, and any further
      `connect_to_remote` fails and leaves all of it as it was. */
  lemma NegotiationReadBack(c: Connection, spec: SessionSpec, localOfferer: bool, intersect: Intersection,
                            later: Arg, laterOfferer: bool)
    requires c.remoteSpec.None?
    ensures
      var r := Connect(c, SpecArg(spec), localOfferer, intersect);
      var n := Negotiate(intersect, c.localSpec, spec, localOfferer);
      && r.error.None?
      && GetProperty(r.conn, DescriptorProp) == SpecValue(n.local)
      && GetProperty(r.conn, RemoteSpecProp) == SpecValue(n.remote)
      && GetSink(r.conn).Some? && GetSink(r.conn).value.remoteSpec == n.remote
      && var again := Connect(r.conn, later, laterOfferer, intersect);
         && again.error.Some?
         && again.conn == r.conn
  {
  }

  /** A call with a wrong-typed argument changes nothing, so a later call with a
      session spec still negotiates. */
  lemma WrongTypeThenRetry(c: Connection, spec: SessionSpec, localOfferer: bool, intersect: Intersection)
    requires c.remoteSpec.None?
    ensures
      var failed := Connect(c, NotASpec, localOfferer, intersect);
      && failed.error == Some(WrongValue)
      && Connect(failed.conn, SpecArg(spec), localOfferer, intersect).error.None?
  {
  }

  /** Two peers negotiating with the same intersection, one offering and one
      answering, pass it the same arguments and end up with each other's
      negotiated specs. */
  lemma PeersAgree(intersect: Intersection, offererSpec: SessionSpec, answererSpec: SessionSpec)
    ensures
      var atOfferer := Negotiate(intersect, Some(offererSpec), answererSpec, true);
      var atAnswerer := Negotiate(intersect, Some(answererSpec), offererSpec, false);
      atOfferer.local == atAnswerer.remote && atOfferer.remote == atAnswerer.local
  {
  }

  /** When the intersection yields specs for non-NULL inputs, a negotiation from a
      connection with a local spec sets the remote spec, both negotiated specs and
      the descriptor together. */
  lemma NegotiationSetsAllSpecs(c: Connection, spec: SessionSpec, localOfferer: bool, intersect: Intersection)
    requires forall a: Option<SessionSpec>, b: Option<SessionSpec> :: a.Some? && b.Some? ==> intersect(a, b).0.Some? && intersect(a, b).1.Some?
    requires c.localSpec.Some? && c.remoteSpec.None?
    ensures
      var r := Connect(c, SpecArg(spec), localOfferer, intersect).conn;
      r.remoteSpec.Some? && r.negLocalSpec.Some? && r.negRemoteSpec.Some? && r.descriptor.Some?
  {
    var n := Negotiate(intersect, c.localSpec, spec, localOfferer);
    if localOfferer {
      assert intersect(Some(spec), c.localSpec) == (n.remote, n.local);
    } else {
      assert intersect(c.localSpec, Some(spec)) == (n.local, n.remote);
    }
  }

  /** A failed ICE setup leaves both agent slots empty and construction still
      creates the receiver, without agents, when a local spec is given. */
  lemma IceFailureDegrades(localSpec: Option<SessionSpec>, env: IceEnv, fds: ExportedFds)
    requires CreateNiceAgents(env).status != IceReady
    ensures Construct(localSpec, env, fds).audioAgent.None?
    ensures Construct(localSpec, env, fds).videoAgent.None?
    ensures localSpec.Some? ==> Construct(localSpec, env, fds).receiver == Some(Receiver(localSpec, None, None, fds))
  {
  }

  /** Disposal clears the remote spec, so a `connect_to_remote` on a disposed
      connection is accepted again. */
  lemma DisposeReopensNegotiation(c: Connection, spec: SessionSpec, localOfferer: bool, intersect: Intersection)
    ensures Connect(Dispose(c).conn, SpecArg(spec), localOfferer, intersect).error.None?
  {
  }
}
