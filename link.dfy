/** How the two halves of the stream protocol meet: the bytes the client
    writes to the stream-control characteristic are the ones the server's
    handler acts on. */
module EwbLink {
  import EwbClient
  import EwbServer

  /** The client's start command (0x01) starts streaming and its stop
      command (0x00) stops it, each exactly when the server registered the
      matching callback. */
  lemma CommandsUnderstood(hasStart: bool, hasStop: bool)
    ensures EwbServer.StreamControl(EwbClient.StartCommand, hasStart, hasStop)
      == if hasStart then EwbServer.StartStreaming else EwbServer.NoAction
    ensures EwbServer.StreamControl(EwbClient.StopCommand, hasStart, hasStop)
      == if hasStop then EwbServer.StopStreaming else EwbServer.NoAction
  {
  }
}
