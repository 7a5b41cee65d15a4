/** The two ICE agents of a connection and the outcome of setting them up
    (`create_nice_agents`). The ICE library is not modelled: what it answers during
    setup is an `IceEnv` value. */
module Agents {
  import opened Options

  /** A libnice agent: `handle` is its identity, `streamId` the stream id that was
      stored on the agent when its single stream was added. */
  datatype Agent = Agent(handle: nat, streamId: nat)

  /** How the bounded wait for both "gathering done" signals ends. */
  datatype WaitOutcome = BothGathered | TimedOut

  /** What the ICE library answers during setup: the agents it creates, the stream
      ids `add_stream` allocates (0 is failure), whether each gather start succeeds,
      and how the wait for both gathering signals ends. */
  datatype IceEnv = IceEnv(
    audioHandle: nat,
    videoHandle: nat,
    audioStreamId: nat,
    videoStreamId: nat,
    audioGatherStarts: bool,
    videoGatherStarts: bool,
    wait: WaitOutcome)

  datatype IceStatus = IceReady | StreamAddFailed | GatherStartFailed | GatheringTimedOut

  /** The agent slots after setup, and why setup stopped where it did. */
  datatype IceSetup = IceSetup(audio: Option<Agent>, video: Option<Agent>, status: IceStatus)

  /** Both agents released and their slots cleared. */
  function TornDown(status: IceStatus): IceSetup {
    IceSetup(None, None, status)
  }

  /** Set up the audio and the video agent in the order the source does: add the
      audio stream, add the video stream, start audio gathering, start video
      gathering, wait. Any failure tears both agents down; construction goes on. */
  function CreateNiceAgents(env: IceEnv): (r: IceSetup)
    ensures r.audio.Some? <==> r.video.Some?
    ensures r.audio.Some? <==> r.status == IceReady
    ensures r.status == StreamAddFailed <==> env.audioStreamId == 0 || env.videoStreamId == 0
    ensures r.status == GatherStartFailed <==>
      env.audioStreamId != 0 && env.videoStreamId != 0 && !(env.audioGatherStarts && env.videoGatherStarts)
    ensures r.status == GatheringTimedOut <==>
      env.audioStreamId != 0 && env.videoStreamId != 0 && env.audioGatherStarts && env.videoGatherStarts
      && env.wait == TimedOut
    ensures r.status == IceReady ==>
      r.audio == Some(Agent(env.audioHandle, env.audioStreamId))
      && r.video == Some(Agent(env.videoHandle, env.videoStreamId))
    ensures r.audio.Some? ==> r.audio.value.streamId != 0 && r.video.value.streamId != 0
  {
    if env.audioStreamId == 0 then TornDown(StreamAddFailed)
    else if env.videoStreamId == 0 then TornDown(StreamAddFailed)
    else if !env.audioGatherStarts then TornDown(GatherStartFailed)
    else if !env.videoGatherStarts then TornDown(GatherStartFailed)
    else if env.wait == TimedOut then TornDown(GatheringTimedOut)
    else
      IceSetup(Some(Agent(env.audioHandle, env.audioStreamId)),
               Some(Agent(env.videoHandle, env.videoStreamId)),
               IceReady)
  }
}
