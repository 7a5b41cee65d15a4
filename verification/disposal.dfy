/** Disposal: the nine `dispose_*` helpers and `kms_rtp_connection_dispose`.
    Each helper releases the object in one slot, if there is one, and clears the
    slot; the receiver and the sender are terminated before they are released.
    What disposal releases is recorded as a sequence of `Release` events. */
module Disposal {
  import opened Options
  import opened RtpConnection

  datatype Slot =
    | LocalSpecSlot | RemoteSpecSlot | NegLocalSpecSlot | NegRemoteSpecSlot | DescriptorSlot
    | ReceiverSlot | SenderSlot | AudioAgentSlot | VideoAgentSlot

  datatype Release = Terminate(slot: Slot) | Unref(slot: Slot)

  datatype Disposed = Disposed(conn: Connection, released: seq<Release>)

  /** The order `kms_rtp_connection_dispose` calls the helpers in: the spec slots,
      then the receiver, then the sender, then the two agents. */
  const DisposeOrder: seq<Slot> := [
    LocalSpecSlot, RemoteSpecSlot, NegLocalSpecSlot, NegRemoteSpecSlot, DescriptorSlot,
    ReceiverSlot, SenderSlot, AudioAgentSlot, VideoAgentSlot]

  predicate Occupied(c: Connection, s: Slot) {
    match s
    case LocalSpecSlot => c.localSpec.Some?
    case RemoteSpecSlot => c.remoteSpec.Some?
    case NegLocalSpecSlot => c.negLocalSpec.Some?
    case NegRemoteSpecSlot => c.negRemoteSpec.Some?
    case DescriptorSlot => c.descriptor.Some?
    case ReceiverSlot => c.receiver.Some?
    case SenderSlot => c.sender.Some?
    case AudioAgentSlot => c.audioAgent.Some?
    case VideoAgentSlot => c.videoAgent.Some?
  }

  /** Slot `s` holds the same value in `c` and `d`. */
  predicate SameSlot(c: Connection, d: Connection, s: Slot) {
    match s
    case LocalSpecSlot => c.localSpec == d.localSpec
    case RemoteSpecSlot => c.remoteSpec == d.remoteSpec
    case NegLocalSpecSlot => c.negLocalSpec == d.negLocalSpec
    case NegRemoteSpecSlot => c.negRemoteSpec == d.negRemoteSpec
    case DescriptorSlot => c.descriptor == d.descriptor
    case ReceiverSlot => c.receiver == d.receiver
    case SenderSlot => c.sender == d.sender
    case AudioAgentSlot => c.audioAgent == d.audioAgent
    case VideoAgentSlot => c.videoAgent == d.videoAgent
  }

  function Vacate(c: Connection, s: Slot): Connection {
    match s
    case LocalSpecSlot => c.(localSpec := None)
    case RemoteSpecSlot => c.(remoteSpec := None)
    case NegLocalSpecSlot => c.(negLocalSpec := None)
    case NegRemoteSpecSlot => c.(negRemoteSpec := None)
    case DescriptorSlot => c.(descriptor := None)
    case ReceiverSlot => c.(receiver := None)
    case SenderSlot => c.(sender := None)
    case AudioAgentSlot => c.(audioAgent := None)
    case VideoAgentSlot => c.(videoAgent := None)
  }

  /** The receiver and the sender are told to stop before they are released. */
  predicate Terminable(s: Slot) {
    s == ReceiverSlot || s == SenderSlot
  }

  function ReleaseEvents(s: Slot): seq<Release> {
    if Terminable(s) then [Terminate(s), Unref(s)] else [Unref(s)]
  }

  lemma SameSlotOccupied(c: Connection, d: Connection, s: Slot)
    requires SameSlot(c, d, s)
    ensures Occupied(c, s) == Occupied(d, s)
  {
  }

  lemma SameSlotTransitive(c: Connection, d: Connection, e: Connection, s: Slot)
    requires SameSlot(c, d, s) && SameSlot(d, e, s)
    ensures SameSlot(c, e, s)
  {
  }

  /** A connection with no occupied slot is the all-NULL connection. */
  lemma EmptyIsUnset(c: Connection)
    requires forall s :: s in DisposeOrder ==> !Occupied(c, s)
    ensures c == Unset
  {
    assert !Occupied(c, LocalSpecSlot) && !Occupied(c, RemoteSpecSlot);
    assert !Occupied(c, NegLocalSpecSlot) && !Occupied(c, NegRemoteSpecSlot);
    assert !Occupied(c, DescriptorSlot) && !Occupied(c, ReceiverSlot);
    assert !Occupied(c, SenderSlot);
    assert !Occupied(c, AudioAgentSlot) && !Occupied(c, VideoAgentSlot);
  }

  /** One `dispose_*` helper: the slot ends up empty, nothing else changes, and the
      object is released only if the slot held one. */
  function DisposeSlot(c: Connection, s: Slot): (r: Disposed)
    ensures !Occupied(r.conn, s)
    ensures forall t :: t != s ==> SameSlot(r.conn, c, t)
    ensures !Occupied(c, s) ==> r == Disposed(c, [])
    ensures Occupied(c, s) ==> r.released == ReleaseEvents(s)
  {
    if Occupied(c, s) then Disposed(Vacate(c, s), ReleaseEvents(s)) else Disposed(c, [])
  }

  /** The helpers for `slots`, called in order. */
  function DisposeAll(c: Connection, slots: seq<Slot>): (r: Disposed)
    ensures forall s :: s in slots ==> !Occupied(r.conn, s)
    ensures forall s :: s !in slots ==> SameSlot(r.conn, c, s)
    ensures (forall s :: s in slots ==> !Occupied(c, s)) ==> r == Disposed(c, [])
    decreases |slots|
  {
    if |slots| == 0 then Disposed(c, [])
    else
      var first := DisposeSlot(c, slots[0]);
      var rest := DisposeAll(first.conn, slots[1..]);
      assert forall s :: s in slots && s !in slots[1..] ==> s == slots[0];
      assert SameSlot(rest.conn, first.conn, slots[0]) ==> !Occupied(rest.conn, slots[0]) by {
        if SameSlot(rest.conn, first.conn, slots[0]) {
          SameSlotOccupied(rest.conn, first.conn, slots[0]);
        }
      }
      assert forall s :: s !in slots ==> SameSlot(rest.conn, c, s) by {
        forall s | s !in slots
          ensures SameSlot(rest.conn, c, s)
        {
          SameSlotTransitive(rest.conn, first.conn, c, s);
        }
      }
      Disposed(rest.conn, first.released + rest.released)
  }

  /** `kms_rtp_connection_dispose`: every slot ends up empty. What it releases,
      and in which order, is stated by `DisposeReleasesEachOnce` and
      `DisposeReleaseOrder`. */
  function Dispose(c: Connection): (r: Disposed)
    ensures r.conn == Unset
  {
    AllSlotsDisposed();
    var r := DisposeAll(c, DisposeOrder);
    EmptyIsUnset(r.conn);
    r
  }

  /** The dispose order names every slot, once. */
  lemma AllSlotsDisposed()
    ensures forall s :: s in DisposeOrder
    ensures Distinct(DisposeOrder)
  {
    forall s
      ensures s in DisposeOrder
    {
      match s
      case LocalSpecSlot => assert DisposeOrder[0] == s;
      case RemoteSpecSlot => assert DisposeOrder[1] == s;
      case NegLocalSpecSlot => assert DisposeOrder[2] == s;
      case NegRemoteSpecSlot => assert DisposeOrder[3] == s;
      case DescriptorSlot => assert DisposeOrder[4] == s;
      case ReceiverSlot => assert DisposeOrder[5] == s;
      case SenderSlot => assert DisposeOrder[6] == s;
      case AudioAgentSlot => assert DisposeOrder[7] == s;
      case VideoAgentSlot => assert DisposeOrder[8] == s;
    }
  }

  // ----- Counting releases -----

  predicate Distinct(slots: seq<Slot>) {
    forall i, j :: 0 <= i < j < |slots| ==> slots[i] != slots[j]
  }

  function CountUnref(events: seq<Release>, s: Slot): nat {
    if |events| == 0 then 0
    else (if events[0] == Unref(s) then 1 else 0) + CountUnref(events[1..], s)
  }

  lemma {:induction false} CountUnrefAppend(a: seq<Release>, b: seq<Release>, s: Slot)
    ensures CountUnref(a + b, s) == CountUnref(a, s) + CountUnref(b, s)
    decreases |a|
  {
    if |a| == 0 {
      assert a + b == b;
    } else {
      assert (a + b)[1..] == a[1..] + b;
      CountUnrefAppend(a[1..], b, s);
    }
  }

  lemma CountUnrefReleaseEvents(t: Slot, s: Slot)
    ensures CountUnref(ReleaseEvents(t), s) == if t == s then 1 else 0
  {
    var last := [Unref(t)];
    assert last[1..] == [];
    assert CountUnref(last, s) == if t == s then 1 else 0;
    if Terminable(t) {
      var both := [Terminate(t), Unref(t)];
      assert both == ReleaseEvents(t) && both[1..] == last;
      assert CountUnref(both, s) == CountUnref(last, s);
    } else {
      assert last == ReleaseEvents(t);
    }
  }

  /** Over distinct slots, the helpers release each slot's object once if the slot
      was occupied at the start, and never otherwise. */
  lemma {:induction false} DisposeAllReleasesOnce(c: Connection, slots: seq<Slot>)
    requires Distinct(slots)
    ensures forall s :: CountUnref(DisposeAll(c, slots).released, s) == if s in slots && Occupied(c, s) then 1 else 0
    decreases |slots|
  {
    if |slots| > 0 {
      var first := DisposeSlot(c, slots[0]);
      var rest := DisposeAll(first.conn, slots[1..]);
      assert Distinct(slots[1..]);
      DisposeAllReleasesOnce(first.conn, slots[1..]);
      forall s
        ensures CountUnref(first.released + rest.released, s) == if s in slots && Occupied(c, s) then 1 else 0
      {
        CountUnrefAppend(first.released, rest.released, s);
        if Occupied(c, slots[0]) {
          CountUnrefReleaseEvents(slots[0], s);
        }
        if s in slots[1..] {
          assert s != slots[0];
          SameSlotOccupied(first.conn, c, s);
        }
      }
    }
  }

  // ----- Order of releases -----

  /** The releases expected from the helpers for `slots`, judged on the state at
      the start: each occupied slot's events, in slot order. */
  function ExpectedReleases(c: Connection, slots: seq<Slot>): seq<Release> {
    if |slots| == 0 then []
    else (if Occupied(c, slots[0]) then ReleaseEvents(slots[0]) else []) + ExpectedReleases(c, slots[1..])
  }

  lemma {:induction false} ExpectedReleasesAgree(c: Connection, d: Connection, slots: seq<Slot>)
    requires forall s :: s in slots ==> Occupied(c, s) == Occupied(d, s)
    ensures ExpectedReleases(c, slots) == ExpectedReleases(d, slots)
    decreases |slots|
  {
    if |slots| > 0 {
      ExpectedReleasesAgree(c, d, slots[1..]);
    }
  }

  /** Over distinct slots, what the helpers release, and in which order, depends
      only on which slots were occupied when disposal began. */
  lemma {:induction false} DisposeAllInOrder(c: Connection, slots: seq<Slot>)
    requires Distinct(slots)
    ensures DisposeAll(c, slots).released == ExpectedReleases(c, slots)
    decreases |slots|
  {
    if |slots| > 0 {
      var first := DisposeSlot(c, slots[0]);
      assert Distinct(slots[1..]);
      DisposeAllInOrder(first.conn, slots[1..]);
      forall s | s in slots[1..]
        ensures Occupied(first.conn, s) == Occupied(c, s)
      {
        assert s != slots[0];
        SameSlotOccupied(first.conn, c, s);
      }
      ExpectedReleasesAgree(first.conn, c, slots[1..]);
    }
  }

  /** Every release of a receiver or sender comes right after its termination. */
  predicate TerminatedFirst(e: seq<Release>) {
    forall i :: 0 <= i < |e| && e[i].Unref? && Terminable(e[i].slot) ==> 0 < i && e[i - 1] == Terminate(e[i].slot)
  }

  /** In a release sequence built from `ReleaseEvents`, the receiver and the sender
      are always terminated immediately before they are released. */
  lemma {:induction false} TerminatedBeforeReleased(c: Connection, slots: seq<Slot>)
    ensures TerminatedFirst(ExpectedReleases(c, slots))
    decreases |slots|
  {
    if |slots| > 0 {
      TerminatedBeforeReleased(c, slots[1..]);
      var head := if Occupied(c, slots[0]) then ReleaseEvents(slots[0]) else [];
      var tail := ExpectedReleases(c, slots[1..]);
      var e := head + tail;
      assert e == ExpectedReleases(c, slots);
      forall i | 0 <= i < |e| && e[i].Unref? && Terminable(e[i].slot)
        ensures 0 < i && e[i - 1] == Terminate(e[i].slot)
      {
        if i < |head| {
          assert head == ReleaseEvents(slots[0]);
        } else {
          var j := i - |head|;
          assert e[i] == tail[j];
          assert tail[j].Unref? && Terminable(tail[j].slot);
          assert e[i - 1] == tail[j - 1];
        }
      }
    }
  }

  /** Disposal releases the occupied slots in the source's order: spec slots, then
      the receiver (terminated first), then the sender (terminated first), then the
      audio and the video agent. */
  lemma DisposeReleaseOrder(c: Connection)
    ensures Dispose(c).released == ExpectedReleases(c, DisposeOrder)
    ensures TerminatedFirst(Dispose(c).released)
  {
    AllSlotsDisposed();
    DisposeAllInOrder(c, DisposeOrder);
    TerminatedBeforeReleased(c, DisposeOrder);
  }

  /** A second disposal finds every slot empty: it changes nothing and releases
      nothing. */
  lemma DisposeIdempotent(c: Connection)
    ensures Dispose(Dispose(c).conn) == Disposed(Unset, [])
  {
  }

  /** Disposal releases every object the connection held exactly once, and
      nothing for an empty slot. */
  lemma DisposeReleasesEachOnce(c: Connection)
    ensures forall s :: CountUnref(Dispose(c).released, s) == if Occupied(c, s) then 1 else 0
  {
    AllSlotsDisposed();
    DisposeAllReleasesOnce(c, DisposeOrder);
  }

  /** Two disposals in a row release each object at most once between them. */
  lemma DoubleDisposeReleasesAtMostOnce(c: Connection, s: Slot)
    ensures var first := Dispose(c);
      CountUnref(first.released + Dispose(first.conn).released, s) <= 1
  {
    var first := Dispose(c);
    DisposeReleasesEachOnce(c);
    DisposeIdempotent(c);
    assert first.released + Dispose(first.conn).released == first.released;
  }
}
