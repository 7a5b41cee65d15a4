/** `configure_agents`: the translation of the remote specification's media lines
    into calls on the ICE agents. The agents are not modelled; the translation
    yields the sequence of calls it makes on them, in order. */
module Configure {
  import opened Options
  import opened Session
  import opened Agents

  /** An address and port as libnice stores them; the address text stays opaque. */
  datatype NiceAddress = NiceAddress(host: string, port: int)

  /** A libnice candidate of type host, filled in from one transport entry. */
  datatype HostCandidate = HostCandidate(
    addr: NiceAddress,
    base: Option<NiceAddress>,
    priority: int,
    foundation: string,
    componentId: int,
    streamId: int)

  /** The two agent operations `configure_agents` uses. */
  datatype AgentCall =
    | SetRemoteCredentials(agent: Agent, streamId: nat, username: string, password: string)
    | SetRemoteCandidates(agent: Agent, streamId: nat, componentId: nat, candidates: seq<HostCandidate>)

  /** The candidate list of a media line is always pushed for component 1. */
  const PushedComponent: nat := 1

  /** The agent a media line is routed to: a video line goes to the video slot
      (even when it is also tagged audio), an audio line to the audio slot, any
      other line nowhere. The slot itself may be empty. */
  function SelectAgent(m: MediaSpec, audio: Option<Agent>, video: Option<Agent>): (r: Option<Agent>)
    ensures Video in m.kinds ==> r == video
    ensures Video !in m.kinds && Audio in m.kinds ==> r == audio
    ensures Video !in m.kinds && Audio !in m.kinds ==> r.None?
    ensures r.Some? ==> r == audio || r == video
  {
    if Video in m.kinds then video
    else if Audio in m.kinds then audio
    else None
  }

  /** A media line produces agent calls when it is routed to a live agent and its
      transport carries an ICE block. */
  predicate Eligible(m: MediaSpec, audio: Option<Agent>, video: Option<Agent>) {
    SelectAgent(m, audio, video).Some? && m.transport.ice.Some?
  }

  /** The host candidate filled in from one entry, on an agent whose stream id is
      `agentStreamId`. */
  function ToHostCandidate(t: TransportCandidate, agentStreamId: nat): (r: HostCandidate)
    ensures CandidateFromEntry(r, t, agentStreamId)
  {
    var base :=
      if t.baseAddress.Some? && t.basePort.Some? then Some(NiceAddress(t.baseAddress.value, t.basePort.value))
      else None;
    var streamId := match t.streamId
      case Some(explicit) => explicit
      case None => agentStreamId;
    HostCandidate(NiceAddress(t.address, t.port), base, t.priority, t.foundation, t.componentId, streamId)
  }

  /** The list built by prepending one candidate per entry, entries taken in order:
      it ends up holding the entries in reverse. */
  function PrependCandidates(entries: seq<TransportCandidate>, agentStreamId: nat): (r: seq<HostCandidate>)
    ensures |r| == |entries|
    ensures forall k :: 0 <= k < |r| ==> r[k] == ToHostCandidate(entries[|entries| - 1 - k], agentStreamId)
  {
    if |entries| == 0 then []
    else [ToHostCandidate(entries[|entries| - 1], agentStreamId)] + PrependCandidates(entries[..|entries| - 1], agentStreamId)
  }

  /** One credentials call per entry, in entry order, on the agent's own stream. */
  function CredentialCalls(agent: Agent, entries: seq<TransportCandidate>): (r: seq<AgentCall>)
    ensures |r| == |entries|
    ensures forall k :: 0 <= k < |r| ==>
      r[k] == SetRemoteCredentials(agent, agent.streamId, entries[k].username, entries[k].password)
  {
    if |entries| == 0 then []
    else
      var last := entries[|entries| - 1];
      CredentialCalls(agent, entries[..|entries| - 1]) + [SetRemoteCredentials(agent, agent.streamId, last.username, last.password)]
  }

  /** The calls made for one media line of the remote specification. */
  function ConfigureMedia(m: MediaSpec, audio: Option<Agent>, video: Option<Agent>): (r: seq<AgentCall>)
    ensures Video in m.kinds && video.None? ==> r == []
    ensures Video !in m.kinds && Audio !in m.kinds ==> r == []
    ensures m.transport.ice.None? ==> r == []
    ensures r != [] <==> Eligible(m, audio, video)
    ensures forall k :: 0 <= k < |r| ==> Some(r[k].agent) == (if Video in m.kinds then video else audio)
    ensures forall k :: 0 <= k < |r| ==> r[k].streamId == r[k].agent.streamId
    ensures forall k :: 0 <= k < |r| && r[k].SetRemoteCandidates? ==> r[k].componentId == PushedComponent
    ensures Eligible(m, audio, video) ==>
      var agent := SelectAgent(m, audio, video).value;
      var entries := m.transport.ice.value.candidates;
      && |r| == |entries| + 1
      && r[..|entries|] == CredentialCalls(agent, entries)
      && r[|entries|] == SetRemoteCandidates(agent, agent.streamId, PushedComponent, PrependCandidates(entries, agent.streamId))
  {
    match SelectAgent(m, audio, video)
    case None => []
    case Some(agent) =>
      match m.transport.ice
      case None => []
      case Some(ice) =>
        CredentialCalls(agent, ice.candidates)
        + [SetRemoteCandidates(agent, agent.streamId, PushedComponent, PrependCandidates(ice.candidates, agent.streamId))]
  }

  /** The calls made for a sequence of media lines, line by line. */
  function ConfigureLines(medias: seq<MediaSpec>, audio: Option<Agent>, video: Option<Agent>): (r: seq<AgentCall>)
    ensures forall k :: 0 <= k < |r| ==> Some(r[k].agent) == audio || Some(r[k].agent) == video
    ensures forall k :: 0 <= k < |r| ==> r[k].streamId == r[k].agent.streamId
    ensures forall k :: 0 <= k < |r| && r[k].SetRemoteCandidates? ==> r[k].componentId == PushedComponent
  {
    if |medias| == 0 then []
    else ConfigureLines(medias[..|medias| - 1], audio, video) + ConfigureMedia(medias[|medias| - 1], audio, video)
  }

  /** `configure_agents` on the remote specification with the two agent slots. */
  function ConfigureAgents(remote: SessionSpec, audio: Option<Agent>, video: Option<Agent>): (r: seq<AgentCall>)
    ensures forall k :: 0 <= k < |r| ==> Some(r[k].agent) == audio || Some(r[k].agent) == video
    ensures PushCount(r) == CountEligible(remote.medias, audio, video)
    ensures forall agent :: CredentialsInForce(r, agent) == CredentialsOf(LastRoutedEntry(remote.medias, agent, audio, video))
  {
    OnePushPerEligibleLine(remote.medias, audio, video);
    forall agent
      ensures CredentialsInForce(ConfigureLines(remote.medias, audio, video), agent)
        == CredentialsOf(LastRoutedEntry(remote.medias, agent, audio, video))
    {
      LastCredentialsWin(remote.medias, agent, audio, video);
    }
    ConfigureLines(remote.medias, audio, video)
  }

  /** The inner loop of `configure_agents` for a line routed to `agent`: one
      credentials call per entry while the candidate is prepended to the list,
      then one push of the whole list. */
  method ConfigureEntriesLoop(agent: Agent, entries: seq<TransportCandidate>) returns (calls: seq<AgentCall>)
    ensures calls == CredentialCalls(agent, entries)
      + [SetRemoteCandidates(agent, agent.streamId, PushedComponent, PrependCandidates(entries, agent.streamId))]
  {
    var credentials: seq<AgentCall> := [];
    var candidates: seq<HostCandidate> := [];
    var j := 0;
    while j < |entries|
      invariant 0 <= j <= |entries|
      invariant candidates == PrependCandidates(entries[..j], agent.streamId)
      invariant credentials == CredentialCalls(agent, entries[..j])
    {
      assert entries[..j + 1][..j] == entries[..j];
      credentials := credentials + [SetRemoteCredentials(agent, agent.streamId, entries[j].username, entries[j].password)];
      candidates := [ToHostCandidate(entries[j], agent.streamId)] + candidates;
      j := j + 1;
    }
    assert entries[..j] == entries;
    calls := credentials + [SetRemoteCandidates(agent, agent.streamId, PushedComponent, candidates)];
  }

  /** One iteration of the outer loop of `configure_agents` as written: pick the
      agent by kind, skip the line when there is none or it has no ICE block. */
  method ConfigureLineStep(media: MediaSpec, audio: Option<Agent>, video: Option<Agent>)
    returns (lineCalls: seq<AgentCall>)
    ensures lineCalls == ConfigureMedia(media, audio, video)
  {
    var agent: Option<Agent> := None;
    if Video in media.kinds {
      agent := video;
    } else if Audio in media.kinds {
      agent := audio;
    }
    lineCalls := [];
    if agent.Some? && media.transport.ice.Some? {
      lineCalls := ConfigureEntriesLoop(agent.value, media.transport.ice.value.candidates);
    }
  }

  /** The outer loop of `configure_agents`: the lines in order, each one's calls
      appended to those of the lines before it. */
  method ConfigureAgentsLoop(remote: SessionSpec, audio: Option<Agent>, video: Option<Agent>)
    returns (calls: seq<AgentCall>)
    ensures calls == ConfigureAgents(remote, audio, video)
  {
    calls := [];
    var i := 0;
    while i < |remote.medias|
      invariant 0 <= i <= |remote.medias|
      invariant calls == ConfigureLines(remote.medias[..i], audio, video)
    {
      var lineCalls := ConfigureLineStep(remote.medias[i], audio, video);
      assert remote.medias[..i + 1][..i] == remote.medias[..i];
      calls := calls + lineCalls;
      i := i + 1;
    }
    assert remote.medias[..i] == remote.medias;
  }

  // ----- How many candidate lists are pushed -----

  function PushCount(calls: seq<AgentCall>): nat {
    if |calls| == 0 then 0
    else PushCount(calls[..|calls| - 1]) + (if calls[|calls| - 1].SetRemoteCandidates? then 1 else 0)
  }

  function CountEligible(medias: seq<MediaSpec>, audio: Option<Agent>, video: Option<Agent>): nat {
    if |medias| == 0 then 0
    else CountEligible(medias[..|medias| - 1], audio, video) + (if Eligible(medias[|medias| - 1], audio, video) then 1 else 0)
  }

  lemma {:induction false} PushCountAppend(a: seq<AgentCall>, b: seq<AgentCall>)
    ensures PushCount(a + b) == PushCount(a) + PushCount(b)
    decreases |b|
  {
    if |b| == 0 {
      assert a + b == a;
    } else {
      assert (a + b)[..|a + b| - 1] == a + b[..|b| - 1];
      PushCountAppend(a, b[..|b| - 1]);
    }
  }

  lemma {:induction false} NoPushAmongCredentials(agent: Agent, entries: seq<TransportCandidate>)
    ensures PushCount(CredentialCalls(agent, entries)) == 0
    decreases |entries|
  {
    if |entries| > 0 {
      var prefix := entries[..|entries| - 1];
      var last := entries[|entries| - 1];
      NoPushAmongCredentials(agent, prefix);
      PushCountAppend(CredentialCalls(agent, prefix), [SetRemoteCredentials(agent, agent.streamId, last.username, last.password)]);
    }
  }

  /** A media line yields one push when it is eligible and none otherwise. */
  lemma OnePushPerLine(m: MediaSpec, audio: Option<Agent>, video: Option<Agent>)
    ensures PushCount(ConfigureMedia(m, audio, video)) == if Eligible(m, audio, video) then 1 else 0
  {
    if Eligible(m, audio, video) {
      var agent := SelectAgent(m, audio, video).value;
      var entries := m.transport.ice.value.candidates;
      var push := SetRemoteCandidates(agent, agent.streamId, PushedComponent, PrependCandidates(entries, agent.streamId));
      NoPushAmongCredentials(agent, entries);
      PushCountAppend(CredentialCalls(agent, entries), [push]);
      assert PushCount([push]) == 1 by {
        assert [push][..0] == [];
      }
    }
  }

  /** `set_remote_candidates` is called exactly once per eligible media line. */
  lemma {:induction false} OnePushPerEligibleLine(medias: seq<MediaSpec>, audio: Option<Agent>, video: Option<Agent>)
    ensures PushCount(ConfigureLines(medias, audio, video)) == CountEligible(medias, audio, video)
    decreases |medias|
  {
    if |medias| > 0 {
      var prefix := medias[..|medias| - 1];
      var last := medias[|medias| - 1];
      OnePushPerEligibleLine(prefix, audio, video);
      OnePushPerLine(last, audio, video);
      PushCountAppend(ConfigureLines(prefix, audio, video), ConfigureMedia(last, audio, video));
    }
  }

  // ----- Which credentials are in force -----

  /** The credentials an agent holds after a sequence of calls: those of the last
      credentials call made on it, if any. */
  function CredentialsInForce(calls: seq<AgentCall>, agent: Agent): Option<(string, string)> {
    if |calls| == 0 then None
    else
      var last := calls[|calls| - 1];
      if last.SetRemoteCredentials? && last.agent == agent then Some((last.username, last.password))
      else CredentialsInForce(calls[..|calls| - 1], agent)
  }

  /** The last candidate entry, over a sequence of media lines, of an eligible line
      routed to `agent`. Eligible lines with an empty ICE block have no entry and
      are passed over. */
  function LastRoutedEntry(medias: seq<MediaSpec>, agent: Agent, audio: Option<Agent>, video: Option<Agent>)
    : Option<TransportCandidate>
  {
    if |medias| == 0 then None
    else
      var m := medias[|medias| - 1];
      if SelectAgent(m, audio, video) == Some(agent) && m.transport.ice.Some? && |m.transport.ice.value.candidates| > 0 then
        var entries := m.transport.ice.value.candidates;
        Some(entries[|entries| - 1])
      else LastRoutedEntry(medias[..|medias| - 1], agent, audio, video)
  }

  function CredentialsOf(t: Option<TransportCandidate>): Option<(string, string)> {
    match t
    case None => None
    case Some(entry) => Some((entry.username, entry.password))
  }

  lemma {:induction false} CredentialsInForceAppend(a: seq<AgentCall>, b: seq<AgentCall>, agent: Agent)
    ensures CredentialsInForce(a + b, agent) ==
      if CredentialsInForce(b, agent).Some? then CredentialsInForce(b, agent) else CredentialsInForce(a, agent)
    decreases |b|
  {
    if |b| == 0 {
      assert a + b == a;
    } else {
      assert (a + b)[..|a + b| - 1] == a + b[..|b| - 1];
      CredentialsInForceAppend(a, b[..|b| - 1], agent);
    }
  }

  lemma {:induction false} NoCallsNoCredentials(calls: seq<AgentCall>, agent: Agent)
    requires forall k :: 0 <= k < |calls| ==> calls[k].agent != agent
    ensures CredentialsInForce(calls, agent) == None
    decreases |calls|
  {
    if |calls| > 0 {
      NoCallsNoCredentials(calls[..|calls| - 1], agent);
    }
  }

  /** For one media line, the credentials left in force on `agent` are those of the
      line's last entry when the line is routed to it, and none otherwise. */
  lemma LineCredentials(m: MediaSpec, agent: Agent, audio: Option<Agent>, video: Option<Agent>)
    ensures CredentialsInForce(ConfigureMedia(m, audio, video), agent) == CredentialsOf(LastRoutedEntry([m], agent, audio, video))
  {
    var r := ConfigureMedia(m, audio, video);
    assert [m][..0] == [];
    if !Eligible(m, audio, video) {
      assert r == [];
    } else if SelectAgent(m, audio, video) != Some(agent) {
      NoCallsNoCredentials(r, agent);
    } else {
      var entries := m.transport.ice.value.candidates;
      var push := SetRemoteCandidates(agent, agent.streamId, PushedComponent, PrependCandidates(entries, agent.streamId));
      assert r == CredentialCalls(agent, entries) + [push];
      CredentialsInForceAppend(CredentialCalls(agent, entries), [push], agent);
      assert CredentialsInForce([push], agent) == None by {
        assert [push][..0] == [];
      }
      var cc := CredentialCalls(agent, entries);
      if |entries| == 0 {
        assert cc == [];
      } else {
        assert cc[|cc| - 1] == SetRemoteCredentials(agent, agent.streamId, entries[|entries| - 1].username, entries[|entries| - 1].password);
      }
    }
  }

  /** Credentials are set once per candidate entry, so across the whole remote
      specification the last entry of the last eligible line routed to an agent
      decides the credentials that agent keeps. */
  lemma {:induction false} LastCredentialsWin(medias: seq<MediaSpec>, agent: Agent, audio: Option<Agent>, video: Option<Agent>)
    ensures CredentialsInForce(ConfigureLines(medias, audio, video), agent) == CredentialsOf(LastRoutedEntry(medias, agent, audio, video))
    decreases |medias|
  {
    if |medias| > 0 {
      var prefix := medias[..|medias| - 1];
      var m := medias[|medias| - 1];
      LastCredentialsWin(prefix, agent, audio, video);
      LineCredentials(m, agent, audio, video);
      CredentialsInForceAppend(ConfigureLines(prefix, audio, video), ConfigureMedia(m, audio, video), agent);
      assert [m][..0] == [];
    }
  }

  /** Candidate `c` carries entry `t`'s fields, with the stream-id fallback and the
      base address only when both base fields are set. */
  predicate CandidateFromEntry(c: HostCandidate, t: TransportCandidate, agentStreamId: nat) {
    && c.addr == NiceAddress(t.address, t.port)
    && c.priority == t.priority && c.foundation == t.foundation && c.componentId == t.componentId
    && c.streamId == (if t.streamId.Some? then t.streamId.value else agentStreamId)
    && (c.base.Some? <==> t.baseAddress.Some? && t.basePort.Some?)
    && (c.base.Some? ==> c.base.value == NiceAddress(t.baseAddress.value, t.basePort.value))
  }

  /** Every pushed candidate comes from one transport entry of the line: position
      `k` of the pushed list holds the `k`-th entry from the end, with the explicit
      stream id if the entry has one and the agent's otherwise, and a base address
      only when both base address and base port are given. */
  lemma PushedCandidatesFromEntries(m: MediaSpec, audio: Option<Agent>, video: Option<Agent>, k: nat)
    requires Eligible(m, audio, video)
    requires k < |m.transport.ice.value.candidates|
    ensures
      var agent := SelectAgent(m, audio, video).value;
      var entries := m.transport.ice.value.candidates;
      var r := ConfigureMedia(m, audio, video);
      && r[|r| - 1].SetRemoteCandidates?
      && |r[|r| - 1].candidates| == |entries|
      && CandidateFromEntry(r[|r| - 1].candidates[k], entries[|entries| - 1 - k], agent.streamId)
  {
  }

  /** A line without ICE block ahead of another line contributes nothing. */
  lemma SkipPlainLine(plain: MediaSpec, m: MediaSpec, audio: Option<Agent>, video: Option<Agent>)
    requires plain.transport.ice.None?
    ensures ConfigureLines([plain, m], audio, video) == ConfigureMedia(m, audio, video)
  {
    assert [plain, m][..1] == [plain] && [plain][..0] == [];
    assert ConfigureLines([plain], audio, video) == ConfigureMedia(plain, audio, video) == [];
  }

  /** A remote spec with an audio line without ICE block and a video line with
      three candidate entries, both agents live: three credentials calls and one
      push of the three candidates in reverse order, all on the video agent, the
      last entry's credentials in force on it. */
  lemma VideoLineScenario(audio: Agent, video: Agent, e1: TransportCandidate, e2: TransportCandidate, e3: TransportCandidate)
    requires e3.username == "u2" && e3.password == "p2"
    ensures
      var audioLine := MediaSpec({Audio}, Transport(None));
      var videoLine := MediaSpec({Video}, Transport(Some(IceInfo([e1, e2, e3]))));
      var calls := ConfigureLines([audioLine, videoLine], Some(audio), Some(video));
      && |calls| == 4
      && (forall k :: 0 <= k < |calls| ==> calls[k].agent == video)
      && calls[0].SetRemoteCredentials? && calls[1].SetRemoteCredentials? && calls[2].SetRemoteCredentials?
      && calls[3] == SetRemoteCandidates(video, video.streamId, 1,
           [ToHostCandidate(e3, video.streamId), ToHostCandidate(e2, video.streamId), ToHostCandidate(e1, video.streamId)])
      && CredentialsInForce(calls, video) == Some(("u2", "p2"))
  {
    var audioLine := MediaSpec({Audio}, Transport(None));
    var videoLine := MediaSpec({Video}, Transport(Some(IceInfo([e1, e2, e3]))));
    SkipPlainLine(audioLine, videoLine, Some(audio), Some(video));
    var calls := ConfigureMedia(videoLine, Some(audio), Some(video));
    assert Eligible(videoLine, Some(audio), Some(video));
    var pushed := PrependCandidates([e1, e2, e3], video.streamId);
    assert pushed == [ToHostCandidate(e3, video.streamId), ToHostCandidate(e2, video.streamId), ToHostCandidate(e1, video.streamId)];
    assert calls[3] == SetRemoteCandidates(video, video.streamId, 1, pushed);
    LastCredentialsWin([audioLine, videoLine], video, Some(audio), Some(video));
  }

  /** Two video lines, the first with one entry and the second with an ICE block
      but no entries: the second line still pushes an empty candidate list, makes
      no credentials call, and so leaves the first line's credentials in force. */
  lemma EmptyIceLineKeepsCredentials(audio: Option<Agent>, video: Agent, e: TransportCandidate)
    ensures
      var first := MediaSpec({Video}, Transport(Some(IceInfo([e]))));
      var second := MediaSpec({Video}, Transport(Some(IceInfo([]))));
      var calls := ConfigureLines([first, second], audio, Some(video));
      && calls[|calls| - 1] == SetRemoteCandidates(video, video.streamId, 1, [])
      && PushCount(calls) == 2
      && CredentialsInForce(calls, video) == Some((e.username, e.password))
  {
    var first := MediaSpec({Video}, Transport(Some(IceInfo([e]))));
    var second := MediaSpec({Video}, Transport(Some(IceInfo([]))));
    var lines := [first, second];
    assert lines[..1] == [first] && [first][..0] == [];
    assert ConfigureMedia(second, audio, Some(video)) == [SetRemoteCandidates(video, video.streamId, 1, [])];
    assert LastRoutedEntry(lines, video, audio, Some(video)) == Some(e);
    assert Eligible(first, audio, Some(video)) && Eligible(second, audio, Some(video));
    assert CountEligible([first], audio, Some(video)) == 1;
    LastCredentialsWin(lines, video, audio, Some(video));
    OnePushPerEligibleLine(lines, audio, Some(video));
  }
}
