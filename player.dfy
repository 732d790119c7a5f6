/**
 * Command dispatch: how an accepted gesture reaches the embedded YouTube
 * player, either through the IFrame API's player object or, failing that,
 * as a postMessage to the iframe's window.
 */
module Player {
  import opened Wrappers
  import opened Gestures

  /** The two player commands the page issues. */
  datatype Command = PlayVideo | PauseVideo

  /**
   * What the page can reach at dispatch time: whether the player object
   * exists and exposes getPlayerState (the IFrame API is ready), whether the
   * iframe element is mounted, and whether that iframe has a content window.
   */
  datatype PlayerEnv = PlayerEnv(apiReady: bool, iframeMounted: bool, iframeHasWindow: bool)

  /**
   * One control call: a direct method call on the player object, or a
   * message posted to the iframe's window with its target origin.
   */
  datatype Call = ApiCall(command: Command) | PostMessage(message: string, targetOrigin: string)

  /** play gives playVideo, pause gives pauseVideo. */
  function CommandFor(g: Gesture): (c: Command)
    ensures c == PlayVideo <==> g == Play
  {
    match g
    case Play => PlayVideo
    case Pause => PauseVideo
  }

  /** The player method name a command invokes. */
  function FuncName(c: Command): (name: string)
    ensures name == (if c == PlayVideo then "playVideo" else "pauseVideo")
  {
    match c
    case PlayVideo => "playVideo"
    case PauseVideo => "pauseVideo"
  }

  /** JSON.stringify({ event: 'command', func: FuncName(c), args: [] }) */
  function CommandMessage(c: Command): (m: string)
    ensures |m| > 0
  {
    "{\"event\":\"command\",\"func\":\"" + FuncName(c) + "\",\"args\":[]}"
  }

  /** The command a call carries, as the player would read it. */
  function CommandOfCall(call: Call): (c: Option<Command>)
    ensures call.ApiCall? ==> c == Some(call.command)
  {
    match call
    case ApiCall(cmd) => Some(cmd)
    case PostMessage(m, _) =>
      if m == CommandMessage(PlayVideo) then Some(PlayVideo)
      else if m == CommandMessage(PauseVideo) then Some(PauseVideo)
      else None
  }

  /**
   * The dispatch block of the detection tick: the direct API when the player
   * is ready, otherwise a postMessage to the iframe when there is one,
   * otherwise nothing.
   */
  function Dispatch(g: Gesture, env: PlayerEnv): (r: Option<Call>)
    ensures r.Some? <==> env.apiReady || (env.iframeMounted && env.iframeHasWindow)
    ensures r.Some? ==> (r.value.ApiCall? <==> env.apiReady)
    ensures r.Some? && r.value.PostMessage? ==> r.value.targetOrigin == "*"
  {
    if env.apiReady then Some(ApiCall(CommandFor(g)))
    else if env.iframeMounted then
      (if env.iframeHasWindow then Some(PostMessage(CommandMessage(CommandFor(g)), "*")) else None)
    else None
  }

  /** The two posted messages differ, so a message names exactly one command. */
  lemma CommandMessageInjective(c: Command, d: Command)
    ensures CommandMessage(c) == CommandMessage(d) <==> c == d
  {
    if c != d {
      var m, n := CommandMessage(c), CommandMessage(d);
      assert m[30] != n[30];
    }
  }

  /**
   * Whatever channel is used, the call issued for a gesture carries the
   * command for that gesture and nothing else.
   */
  lemma DispatchCarriesCommand(g: Gesture, env: PlayerEnv)
    requires Dispatch(g, env).Some?
    ensures CommandOfCall(Dispatch(g, env).value) == Some(CommandFor(g))
  {
    CommandMessageInjective(PlayVideo, PauseVideo);
  }
}
