/** The RTP connection: its nullable slots, the property accessors, the one-shot
    negotiation `connect_to_remote`, `mode_changed`, and construction. Every
    operation is a pure function from the old connection to the new one. */
module RtpConnection {
  import opened Options
  import opened Session
  import opened Agents
  import opened Configure

  /** The socket descriptors the receiver exports for the sender to reuse. */
  datatype ExportedFds = ExportedFds(audioFd: int, videoFd: int)

  /** The RTP receiver, as far as the connection configures it. Its `localSpec`
      property is the only one the connection updates after creation. */
  datatype Receiver = Receiver(
    localSpec: Option<SessionSpec>,
    audioAgent: Option<Agent>,
    videoAgent: Option<Agent>,
    fds: ExportedFds)

  /** The RTP sender, as the connection builds it: from the negotiated remote
      specification and the receiver's descriptors (unknown, `None`, when there is
      no receiver to read them from). */
  datatype Sender = Sender(remoteSpec: Option<SessionSpec>, fds: Option<ExportedFds>)

  /** The private state of a connection: nine nullable slots. */
  datatype Connection = Connection(
    localSpec: Option<SessionSpec>,
    remoteSpec: Option<SessionSpec>,
    negLocalSpec: Option<SessionSpec>,
    negRemoteSpec: Option<SessionSpec>,
    descriptor: Option<SessionSpec>,
    audioAgent: Option<Agent>,
    videoAgent: Option<Agent>,
    receiver: Option<Receiver>,
    sender: Option<Sender>)

  /** A freshly initialised connection: every slot NULL. */
  const Unset: Connection := Connection(None, None, None, None, None, None, None, None, None)

  // ----- Properties -----

  datatype PropId = LocalSpecProp | RemoteSpecProp | DescriptorProp | UnknownProp(id: nat)

  /** What a property read yields; `NoValue` when the id is not a property. */
  datatype PropValue = SpecValue(spec: Option<SessionSpec>) | NoValue

  /** `set_property`: only "local-spec" is writable. Writing it replaces the local
      spec and initialises the descriptor from it when the descriptor is unset. */
  function SetProperty(c: Connection, prop: PropId, v: Option<SessionSpec>): (r: Connection)
    ensures prop != LocalSpecProp ==> r == c
    ensures prop == LocalSpecProp ==> r.localSpec == v
    ensures c.descriptor.Some? ==> r.descriptor == c.descriptor
    ensures prop == LocalSpecProp && v.Some? ==> r.descriptor.Some?
    ensures r.descriptor == c.descriptor || r.descriptor == v
    ensures r.(localSpec := c.localSpec, descriptor := c.descriptor) == c
  {
    match prop
    case LocalSpecProp =>
      var c1 := c.(localSpec := v);
      if c1.descriptor.None? && c1.localSpec.Some? then c1.(descriptor := c1.localSpec) else c1
    case _ => c
  }

  /** `get_property`: "remote-spec" reads the negotiated remote spec. */
  function GetProperty(c: Connection, prop: PropId): (v: PropValue)
    ensures v.NoValue? <==> prop.UnknownProp?
    ensures prop == LocalSpecProp ==> v == SpecValue(c.localSpec)
    ensures prop == DescriptorProp ==> v == SpecValue(c.descriptor)
    ensures prop == RemoteSpecProp ==> v == SpecValue(c.negRemoteSpec)
  {
    match prop
    case LocalSpecProp => SpecValue(c.localSpec)
    case DescriptorProp => SpecValue(c.descriptor)
    case RemoteSpecProp => SpecValue(c.negRemoteSpec)
    case UnknownProp(_) => NoValue
  }

  /** Writing "local-spec" and reading back: "local-spec" yields the value written,
      "descriptor" yields it too unless a descriptor was already set, and
      "remote-spec" is untouched. */
  lemma LocalSpecReadBack(c: Connection, v: Option<SessionSpec>)
    ensures GetProperty(SetProperty(c, LocalSpecProp, v), LocalSpecProp) == SpecValue(v)
    ensures GetProperty(SetProperty(c, LocalSpecProp, v), DescriptorProp) ==
      SpecValue(if c.descriptor.Some? then c.descriptor else v)
    ensures GetProperty(SetProperty(c, LocalSpecProp, v), RemoteSpecProp) == GetProperty(c, RemoteSpecProp)
  {
  }

  /** `get_sink`: the sender if there is one. */
  function GetSink(c: Connection): Option<Sender> {
    c.sender
  }

  /** `get_src`: the receiver slot as it is. */
  function GetSrc(c: Connection): Option<Receiver> {
    c.receiver
  }

  // ----- Negotiation -----

  /** The argument of `connect_to_remote`: a session specification, or anything
      else (another object type or NULL). */
  datatype Arg = SpecArg(spec: SessionSpec) | NotASpec

  datatype ConnectError = WrongValue | AlreadySet

  /** The outcome of `connect_to_remote`: the new state, the error if it failed,
      and the calls `configure_agents` made on the ICE agents. */
  datatype ConnectResult = ConnectResult(conn: Connection, error: Option<ConnectError>, agentCalls: seq<AgentCall>)

  datatype Negotiated = Negotiated(local: Option<SessionSpec>, remote: Option<SessionSpec>)

  /** The directional call to the intersection: an offering local side passes the
      remote spec first, an answering one its local spec first; in both cases the
      first output is the negotiated form of the first argument. */
  function Negotiate(intersect: Intersection, local: Option<SessionSpec>, remote: SessionSpec, localOfferer: bool)
    : (n: Negotiated)
    ensures localOfferer ==> intersect(Some(remote), local) == (n.remote, n.local)
    ensures !localOfferer ==> intersect(local, Some(remote)) == (n.local, n.remote)
  {
    if localOfferer then
      var (negRemote, negLocal) := intersect(Some(remote), local);
      Negotiated(negLocal, negRemote)
    else
      var (negLocal, negRemote) := intersect(local, Some(remote));
      Negotiated(negLocal, negRemote)
  }

  /** `create_rtp_sender`: built from the negotiated remote spec and the receiver's
      exported descriptors. */
  function CreateSender(negRemote: Option<SessionSpec>, receiver: Option<Receiver>): (r: Sender)
    ensures r.remoteSpec == negRemote
    ensures r.fds.Some? <==> receiver.Some?
    ensures receiver.Some? ==> r.fds.value == receiver.value.fds
  {
    Sender(negRemote, if receiver.Some? then Some(receiver.value.fds) else None)
  }

  /** `connect_to_remote`. */
  function Connect(c: Connection, arg: Arg, localOfferer: bool, intersect: Intersection): (r: ConnectResult)
    ensures r.error == Some(WrongValue) <==> arg.NotASpec?
    ensures r.error == Some(AlreadySet) <==> arg.SpecArg? && c.remoteSpec.Some?
    ensures r.error.Some? ==> r.conn == c && r.agentCalls == []
    ensures r.error.None? ==>
      && r.conn.remoteSpec == Some(arg.spec)
      && Negotiated(r.conn.negLocalSpec, r.conn.negRemoteSpec) == Negotiate(intersect, c.localSpec, arg.spec, localOfferer)
      && r.conn.descriptor == r.conn.negLocalSpec
      && r.conn.receiver.Some? == c.receiver.Some?
      && (r.conn.receiver.Some? ==> r.conn.receiver.value == c.receiver.value.(localSpec := r.conn.descriptor))
      && r.conn.sender.Some?
      && r.conn.sender.value.remoteSpec == r.conn.negRemoteSpec
      && r.conn.sender.value.fds == (if c.receiver.Some? then Some(c.receiver.value.fds) else None)
      && r.conn.localSpec == c.localSpec
      && r.conn.audioAgent == c.audioAgent && r.conn.videoAgent == c.videoAgent
      && r.agentCalls == ConfigureAgents(arg.spec, c.audioAgent, c.videoAgent)
  {
    match arg
    case NotASpec => ConnectResult(c, Some(WrongValue), [])
    case SpecArg(spec) =>
      if c.remoteSpec.Some? then ConnectResult(c, Some(AlreadySet), [])
      else
        var n := Negotiate(intersect, c.localSpec, spec, localOfferer);
        var calls := ConfigureAgents(spec, c.audioAgent, c.videoAgent);
        var receiver := if c.receiver.Some? then Some(c.receiver.value.(localSpec := n.local)) else None;
        var c1 := c.(remoteSpec := Some(spec), negLocalSpec := n.local, negRemoteSpec := n.remote,
                     descriptor := n.local, receiver := receiver);
        ConnectResult(c1.(sender := Some(CreateSender(c1.negRemoteSpec, c1.receiver))), None, calls)
  }

  /** The flow direction `mode_changed` is asked to switch to; left opaque. */
  datatype ConnectionMode = ConnectionMode(code: nat)

  /** `mode_changed`: accepted and ignored. */
  function ModeChanged(c: Connection, mode: ConnectionMode, kind: MediaKind): (r: (Connection, bool))
    ensures r.0 == c
    ensures r.1
  {
    (c, true)
  }

  // ----- Construction -----

  /** Construction: the construct-only "local-spec" property is written first, then
      `constructed` sets up the ICE agents and, when there is a local spec, creates
      the receiver from it and the two agent slots. */
  function Construct(localSpec: Option<SessionSpec>, env: IceEnv, fds: ExportedFds): (r: Connection)
    ensures r.localSpec == localSpec && r.descriptor == localSpec
    ensures r.remoteSpec.None? && r.negLocalSpec.None? && r.negRemoteSpec.None? && r.sender.None?
    ensures r.audioAgent == CreateNiceAgents(env).audio && r.videoAgent == CreateNiceAgents(env).video
    ensures r.audioAgent.Some? <==> r.videoAgent.Some?
    ensures r.audioAgent.Some? ==>
      r.audioAgent == Some(Agent(env.audioHandle, env.audioStreamId))
      && r.videoAgent == Some(Agent(env.videoHandle, env.videoStreamId))
      && env.audioStreamId != 0 && env.videoStreamId != 0
    ensures r.audioAgent.Some? <==>
      env.audioStreamId != 0 && env.videoStreamId != 0 && env.audioGatherStarts && env.videoGatherStarts
      && env.wait == BothGathered
    ensures r.receiver.Some? <==> localSpec.Some?
    ensures r.receiver.Some? ==> r.receiver.value == Receiver(localSpec, r.audioAgent, r.videoAgent, fds)
  {
    var c0 := SetProperty(Unset, LocalSpecProp, localSpec);
    var ice := CreateNiceAgents(env);
    var c1 := c0.(audioAgent := ice.audio, videoAgent := ice.video);
    if c1.localSpec.None? then c1
    else c1.(receiver := Some(Receiver(c1.localSpec, c1.audioAgent, c1.videoAgent, fds)))
  }
}
