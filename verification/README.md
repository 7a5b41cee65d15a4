# RTP connection state machine, modelled in Dafny

This project models the `KmsRtpConnection` object of the Kurento media server
(`src/rtp/kms-rtp-connection.c`): a connection that owns a local session
specification, negotiates once against a remote one, drives two ICE agents (one
for audio, one for video), and hands out an RTP receiver (source) and an RTP
sender (sink).

The connection's private state is nine nullable slots. Here they are an immutable
record of `Option` values (`RtpConnection.Connection`), and every operation is a
pure function from the old state to the new one:

- `options.dfy`: `Option`, standing for a nullable reference.
- `session.dfy`: session specifications as far as the connection reads them.
  A specification is a list of media lines. Each line has a set of media kinds
  and an optional ICE block of candidate entries. The negotiation routine
  `kms_session_spec_intersect` is an uninterpreted function parameter
  (`Intersection`).
- `agents.dfy`: `create_nice_agents`. What the ICE library answers is given as
  data (`IceEnv`): the stream ids `add_stream` allocates, whether each gather
  start succeeds, and whether the wait for both "gathering done" signals
  finishes or times out.
- `configure.dfy`: `configure_agents`. It turns the remote media lines into the
  sequence of calls made on the agents (`AgentCall`). There is a pure
  definition and a loop method that follows the C loops; the method is proved
  to produce the same calls. The file also has lemmas about how many candidate
  lists are pushed, which credentials stay in force, and the fields of each
  pushed candidate.
- `connection.dfy`: the slots, the property accessors, `get_src` and
  `get_sink`, `connect_to_remote` (including the directional call to the
  intersection), `create_rtp_sender`, `mode_changed`, and construction
  (`kms_rtp_connection_init`, then the construct-time write of "local-spec",
  then `constructed`).
- `disposal.dfy`: the nine `dispose_*` helpers and `kms_rtp_connection_dispose`.
  Releases are recorded as `Terminate`/`Unref` events. The lemmas cover
  release counts, release order and idempotence.
- `lifecycle.dfy`: the state invariant of a constructed connection. Every
  post-construction operation (`connect_to_remote`, `mode_changed`, dispose)
  preserves it. Further lemmas: negotiation succeeds at most once, where the
  sink comes from, and what the accessors read back after negotiation.

Behaviours of the code worth knowing, all of which the model keeps:

- **Argument order of the intersection.** An offering side calls the
  intersection with the remote spec first, and the outputs go to
  (negotiated remote, negotiated local). An answering side passes its local
  spec first, and the outputs go to (negotiated local, negotiated remote)
  (`src/rtp/kms-rtp-connection.c:319-327`).
- **Calls per ICE entry and per media line.** Remote credentials are set once
  per candidate entry, so the last entry routed to an agent decides which
  credentials stay in force. A line whose ICE block has no entries sets none,
  so an earlier line's entry stays in force. One candidate list (possibly
  empty) is pushed per eligible media line, not once per agent. The list holds the entries in reverse order,
  because each one is prepended (`src/rtp/kms-rtp-connection.c:237-286`).
- **Connect after dispose.** Disposal clears the remote spec, so a later
  `connect_to_remote` on a disposed connection is accepted again.
- **The gathering wait.** Its deadline is recomputed at every wakeup, so 10 s is
  a bound per wait and not a total. The model keeps only the outcome.

## Model

| member | source | states |
|---|---|---|
| Agents.CreateNiceAgents | src/rtp/kms-rtp-connection.c:440-519 | Both agents are set, or neither is. They are set exactly when both stream ids are non-zero, both gather starts succeed and both signals arrive before the timeout. Each failure (stream add, gather start, timeout) is characterised by an if-and-only-if on what the library answered. On success each agent carries its own stream id, which is non-zero. |
| Configure.SelectAgent | src/rtp/kms-rtp-connection.c:215-223 | A line tagged video goes to the video slot even when it is also tagged audio. A line tagged audio only goes to the audio slot. Any other line goes nowhere. The result is always one of the two slots or none. |
| Configure.ToHostCandidate | src/rtp/kms-rtp-connection.c:239-275 | The candidate built from an entry carries its address, port, priority, foundation and component id. It gets a base address only when both base fields are set. Its stream id is the entry's own when set, and the agent's otherwise. |
| Configure.PrependCandidates | src/rtp/kms-rtp-connection.c:237-282 | The pushed list has one candidate per entry, in reverse entry order: position k holds the entry at position n-1-k. |
| Configure.CredentialCalls | src/rtp/kms-rtp-connection.c:277-280 | There is one credentials call per entry, in entry order, on the agent's own stream id, with that entry's username and password. |
| Configure.ConfigureMedia | src/rtp/kms-rtp-connection.c:213-292 | A line makes calls if and only if it is routed to a live agent and has an ICE block. A video line whose video slot is empty makes none, even if it is also tagged audio. A line that is neither audio nor video makes none, and so does a line without ICE. All calls go to the selected agent on its stream id. An eligible line makes its credentials calls, then exactly one push of the prepended list for component 1. |
| Configure.ConfigureLines | src/rtp/kms-rtp-connection.c:204-294 | Over all media lines, every call goes to one of the two agent slots, on that agent's own stream id, and every push is for component 1. |
| Configure.ConfigureAgents | src/rtp/kms-rtp-connection.c:204-294 | `configure_agents` on a remote spec: every call goes to one of the two agent slots. The number of candidate-list pushes equals the number of eligible media lines. Each agent ends up with the credentials of the last candidate entry over all eligible lines routed to it, or none if those lines have no entries. An eligible line with an empty ICE block still pushes an empty list but sets no credentials. |
| Configure.ConfigureEntriesLoop | src/rtp/kms-rtp-connection.c:231-289 | The inner loop, written with a credentials accumulator and a prepended list, makes exactly the calls of the pure definition for one line. |
| Configure.ConfigureLineStep | src/rtp/kms-rtp-connection.c:213-292 | One iteration of the outer loop, written as in the source: pick the agent by kind, skip the line when the slot is empty or there is no ICE block, otherwise run the inner loop. It makes exactly the calls of the pure definition for that line. |
| Configure.ConfigureAgentsLoop | src/rtp/kms-rtp-connection.c:204-294 | The outer loop over the media lines, appending each line's calls, makes exactly the calls the pure `configure_agents` definition yields. |
| Configure.OnePushPerLine | src/rtp/kms-rtp-connection.c:285-286 | A single media line pushes one candidate list if it is eligible, and none otherwise. |
| Configure.OnePushPerEligibleLine | src/rtp/kms-rtp-connection.c:208-292 | The number of candidate-list pushes equals the number of eligible media lines. |
| Configure.LineCredentials | src/rtp/kms-rtp-connection.c:277-286 | After one line, the credentials in force on an agent are those of the line's last entry if the line is eligible, routed to that agent and has at least one entry. Otherwise there are none. |
| Configure.LastCredentialsWin | src/rtp/kms-rtp-connection.c:208-292 | Across the whole remote spec, the credentials an agent ends up with are those of the last candidate entry over all eligible lines routed to it. If those lines have no entries, it has none. An eligible line with an empty ICE block sets no credentials, so an earlier line's entry stays in force. |
| Configure.PushedCandidatesFromEntries | src/rtp/kms-rtp-connection.c:244-282 | Pushed candidate k carries entry n-1-k's address, port, priority, foundation and component id. Its base address is set only when both base fields are set. Its stream id is the entry's own when that is set, and the agent's otherwise. |
| Configure.SkipPlainLine | src/rtp/kms-rtp-connection.c:231-292 | A line without an ICE block placed ahead of another line makes no calls. |
| Configure.EmptyIceLineKeepsCredentials | src/rtp/kms-rtp-connection.c:231-286 | A video line with one entry, followed by a video line whose ICE block is empty: the second line pushes an empty candidate list for component 1 and sets no credentials, so two lists are pushed and the first line's entry stays in force. |
| Configure.VideoLineScenario | src/rtp/kms-rtp-connection.c:213-292 | Take an audio line without ICE followed by a video line with three entries. This gives three credentials calls and then one push of the three candidates in reverse order, all on the video agent, and the third entry's credentials stay in force. |
| RtpConnection.SetProperty | src/rtp/kms-rtp-connection.c:352-374 | Only "local-spec" is writable; any other property id changes nothing. Writing it replaces the local spec and touches no slot other than the local spec and the descriptor. A descriptor that is already set is kept. A non-NULL value fills an unset descriptor. |
| RtpConnection.GetProperty | src/rtp/kms-rtp-connection.c:376-402 | "local-spec" reads the local spec and "descriptor" reads the descriptor. "remote-spec" reads the negotiated remote spec, not the remote spec as given. Any other id yields no value. |
| RtpConnection.LocalSpecReadBack | src/rtp/kms-rtp-connection.c:358-395 | After writing "local-spec", that property reads back the value written. "descriptor" reads that value too, unless a descriptor was already set. "remote-spec" is unchanged. |
| RtpConnection.Negotiate | src/rtp/kms-rtp-connection.c:319-327 | An offerer passes (remote, local) and takes the outputs as (negotiated remote, negotiated local). An answerer passes (local, remote) and takes them as (negotiated local, negotiated remote). |
| RtpConnection.CreateSender | src/rtp/kms-rtp-connection.c:189-202 | The sender carries the negotiated remote spec and, when there is a receiver, the receiver's exported audio and video descriptors. |
| RtpConnection.Connect | src/rtp/kms-rtp-connection.c:296-343 | It fails with WRONG_VALUE if and only if the argument is not a session spec, and with ALREADY if and only if a remote spec is already held. A failure changes nothing and makes no agent calls. On success it sets the remote spec and the directional negotiated specs. The descriptor becomes the negotiated local spec and is pushed into the receiver. A sender is built from the negotiated remote spec and the receiver's descriptors. The agents are configured from the remote spec. The local spec and the agent slots are kept. |
| RtpConnection.ModeChanged | src/rtp/kms-rtp-connection.c:345-350 | It always reports success and leaves the connection unchanged. |
| RtpConnection.Construct | src/rtp/kms-rtp-connection.c:521-543 | A new connection holds the given local spec, which is also its descriptor. It has no remote spec, no negotiated specs and no sender. Its agent slots hold exactly what `create_nice_agents` left in them: both or neither, and when both, the agents with the handles and the non-zero stream ids the ICE library allocated. It has a receiver exactly when a local spec was given, built from the local spec, the two agent slots and the exported descriptors. |
| Disposal.DisposeSlot | src/rtp/kms-rtp-connection.c:70-144 | Each helper leaves its slot empty and every other slot unchanged. It releases nothing for an empty slot. For a held object it emits that slot's events: terminate then unref for the receiver and the sender, unref alone otherwise. |
| Disposal.DisposeAll | src/rtp/kms-rtp-connection.c:551-560 | Calling the helpers for a list of slots empties exactly those slots and leaves the rest. It releases nothing when they were already empty. |
| Disposal.Dispose | src/rtp/kms-rtp-connection.c:545-565 | After dispose every slot is NULL. |
| Disposal.DisposeAllReleasesOnce | src/rtp/kms-rtp-connection.c:551-560 | Over distinct slots, each slot's object is released exactly once if the slot was held at the start, and never otherwise. |
| Disposal.DisposeAllInOrder | src/rtp/kms-rtp-connection.c:551-560 | Over distinct slots, the released events, in order, depend only on which slots were held when disposal began. |
| Disposal.TerminatedBeforeReleased | src/rtp/kms-rtp-connection.c:86-104 | Every release of the receiver or the sender comes immediately after its termination. |
| Disposal.DisposeReleaseOrder | src/rtp/kms-rtp-connection.c:546-561 | Dispose releases the held slots in the source's order: the spec slots, the receiver, the sender, then the audio and video agents. Each of the receiver and sender is terminated right before it is released. |
| Disposal.DisposeReleasesEachOnce | src/rtp/kms-rtp-connection.c:546-561 | Dispose releases every held object exactly once and nothing for an empty slot. |
| Disposal.DisposeIdempotent | src/rtp/kms-rtp-connection.c:70-144 | A second dispose finds every slot NULL, changes nothing and releases nothing. |
| Disposal.DoubleDisposeReleasesAtMostOnce | src/rtp/kms-rtp-connection.c:546-561 | Over two disposals in a row, no object is released more than once. |
| Lifecycle.ConstructEstablishesInv | src/rtp/kms-rtp-connection.c:521-543 | Whatever ICE setup did, a new connection satisfies the invariant. Without a remote spec there are no negotiated specs and no sender, and the descriptor is the local spec. With a remote spec the descriptor is the negotiated local spec and the sender is built from the negotiated remote spec; those negotiated specs may still be NULL, and `Lifecycle.NegotiationSetsAllSpecs` gives the condition under which they are not. The receiver carries the descriptor and the agent slots. |
| Lifecycle.StepPreservesInv | src/rtp/kms-rtp-connection.c:296-565 | `connect_to_remote`, `mode_changed` and dispose each preserve the invariant. |
| Lifecycle.RunPreservesInv | src/rtp/kms-rtp-connection.c:296-561 | Any sequence of operations preserves the invariant. |
| Lifecycle.AtMostOneNegotiation | src/rtp/kms-rtp-connection.c:308-317 | Until the connection is disposed, at most one `connect_to_remote` call succeeds, and none succeeds once a remote spec is held. |
| Lifecycle.SenderOnlyFromConnect | src/rtp/kms-rtp-connection.c:337-338 | A sender appears only through a successful `connect_to_remote`. |
| Lifecycle.SinkAvailability | src/rtp/kms-rtp-connection.c:168-181 | `get_sink` (`RtpConnection.GetSink`): on a constructed connection the sink is available if and only if negotiation has happened, and it is the sender built from the negotiated remote spec and the receiver's descriptors. |
| Lifecycle.NoSinkBeforeNegotiation | src/rtp/kms-rtp-connection.c:162-181 | A new connection has no sink. Its source is present if and only if it was given a local spec. |
| Lifecycle.SourceMirrorsConnection | src/rtp/kms-rtp-connection.c:162-166 | `get_src` (`RtpConnection.GetSrc`): on a constructed connection the source is present exactly when the receiver is, and it is configured with the current descriptor and the connection's two agents. |
| Lifecycle.NegotiationReadBack | src/rtp/kms-rtp-connection.c:319-338 | After a successful negotiation, "descriptor" and "remote-spec" read back the intersection's outputs in directional order, and the sink carries the negotiated remote spec. Any further `connect_to_remote` fails and changes nothing. |
| Lifecycle.WrongTypeThenRetry | src/rtp/kms-rtp-connection.c:301-306 | A call with a wrongly typed argument fails with WRONG_VALUE and leaves the connection able to negotiate. |
| Lifecycle.PeersAgree | src/rtp/kms-rtp-connection.c:319-327 | An offerer and an answerer using the same intersection pass it the same arguments and end up with each other's negotiated specs. |
| Lifecycle.NegotiationSetsAllSpecs | src/rtp/kms-rtp-connection.c:317-332 | With a local spec, and an intersection that yields specs for non-NULL inputs, a negotiation sets the remote spec, both negotiated specs and the descriptor. |
| Lifecycle.IceFailureDegrades | src/rtp/kms-rtp-connection.c:514-542 | A failed ICE setup leaves both agent slots NULL. Construction still creates the receiver, without agents, when a local spec is given. |
| Lifecycle.DisposeReopensNegotiation | src/rtp/kms-rtp-connection.c:546-561 | Dispose clears the remote spec, so a `connect_to_remote` on a disposed connection succeeds. |

## Left out

- Locking: the connection mutex and the ICE mutex and condition variable. Every operation is modelled as atomic; concurrent callers are not modelled.
- The real gathering wait: its clock, spurious wakeups and the deadline recomputed at each wakeup. `IceEnv.wait` gives only the outcome.
- The "component-state-changed" handlers and both receive callbacks. They are empty in the source, and the receive callbacks are attached to the opposite agents.
- The STUN server address and port set on both agents. They affect only the ICE library.
- GObject reference counting beyond the `Unref` events of disposal. The old descriptor that `connect_to_remote` releases before replacing it is not recorded as an event.
- The branch where `nice_candidate_new` returns NULL and the entry is skipped. The model treats candidate allocation as always succeeding.
- Address parsing by `nice_address_set_from_string` and the truncation of the foundation by `g_strlcpy`. Addresses and foundations are kept as the entry's text.
- Integer widths: stream ids, ports, priorities and component ids are unbounded integers; the source stores the component id into a `guint` field (lines 268 and 275) without a range check. The `guint` stream id stored on the agent is a `nat`.
- The check for a running pipeline in `constructed`, which aborts the program when the check fails.
- The class and interface boilerplate: `get_factory`, `dispose_factory`, `finalize` and property registration.
- The Java parts of the repository are not modelled.
- How the receiver exports its descriptors. `ExportedFds` is an input to construction.
- RtpConnection.Connect: when there is no receiver, the source sends property writes and reads to a NULL object and reads uninitialised descriptor values. The model keeps the receiver slot NULL and records the sender's descriptors as unknown (`None`).
- The reference `get_src` takes without locking, and its warning on a NULL receiver. The model returns the receiver slot as it is.
- Configure.VideoLineScenario: it does not assume the two agents differ, so it does not state that the audio agent's credentials are untouched. `Configure.LastCredentialsWin` covers that case in general.
