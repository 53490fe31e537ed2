/**
 * agent.py: the streaming agent. It registers (or reuses a token), probes the
 * engine, sends a first heartbeat, tries the WebSocket push mode when it can,
 * and ends in the polling loop, where each job's reply is streamed back in
 * batches of two fragments.
 */
module Agent {
  import opened Wrappers
  import opened Strings
  import opened Protocol
  import Prompt
  import Stream
  import Control

  /**
   * `check_ollama_ready`: ready exactly when at least one model is listed; the
   * count is the list's length and the names are the entries' names verbatim,
   * in order, `""` for an entry without one.
   */
  function CheckOllamaReady(reply: TagsReply): (r: Readiness)
    ensures r.ready <==> |ListedModels(reply)| > 0
    ensures r.count == |ListedModels(reply)| == |r.names|
    ensures forall i :: 0 <= i < r.count ==> r.names[i] == ListedModels(reply)[i].name.GetOr("")
  {
    var models := ListedModels(reply);
    Readiness(|models| > 0, |models|, seq(|models|, i requires 0 <= i < |models| => models[i].name.GetOr("")))
  }

  /** What the console's self-register endpoint answers. */
  datatype RegisterReply =
    | HttpError                                               // an error status
    | ConnectionError                                         // the console could not be reached
    | Accepted(token: Option<string>, nodeToken: Option<string>)

  /** What `register_node` ends in. */
  datatype Registration =
    | Registered(token: string)
    | NoToken                 // no token came back; the run later crashes
    | Exit(code: int)         // `sys.exit`

  /**
   * `register_node`: an error status or an unreachable console ends the process
   * with code 1; otherwise the token is `token`, or `nodeToken` when `token` is
   * missing or empty, and there is none when both are.
   */
  function RegisterNode(reply: RegisterReply): (r: Registration)
    ensures r.Exit? <==> !reply.Accepted?
    ensures r.Exit? ==> r.code == 1
    ensures r.Registered? ==> r.token != ""
    ensures reply.Accepted? && Truthy(reply.token) ==> r == Registered(reply.token.value)
    ensures reply.Accepted? && !Truthy(reply.token) ==>
      r == (if Truthy(reply.nodeToken) then Registered(reply.nodeToken.value) else NoToken)
  {
    match reply
    case Accepted(token, nodeToken) =>
      var chosen := if Truthy(token) then token else nodeToken;
      if Truthy(chosen) then Registered(chosen.value) else NoToken
    case _ => Exit(1)
  }

  /** The WebSocket URL `run_websocket_mode` connects to. */
  function WebSocketUrl(apiBase: string, nodeId: string, token: string): string {
    ReplaceAll(ReplaceAll(apiBase, "http://", "ws://"), "https://", "wss://")
    + "/ws?nodeId=" + nodeId + "&token=" + token
  }

  /** An `http://` base becomes `ws://`, the rest kept, and the query is appended. */
  lemma WebSocketUrlOfHttp(rest: string, nodeId: string, token: string)
    requires Absent(rest, "http://") && Absent(rest, "https://")
    ensures WebSocketUrl("http://" + rest, nodeId, token) == "ws://" + rest + "/ws?nodeId=" + nodeId + "&token=" + token
  {
    var base := "http://" + rest;
    assert base[..7] == "http://" && base[7..] == rest;
    ReplaceAbsent(rest, "http://", "ws://");
    AbsentAfterPrefix("ws://", rest, "https://");
    ReplaceAbsent("ws://" + rest, "https://", "wss://");
  }

  /** An `https://` base becomes `wss://`, the rest kept, and the query is appended. */
  lemma WebSocketUrlOfHttps(rest: string, nodeId: string, token: string)
    requires Absent(rest, "http://") && Absent(rest, "https://")
    ensures WebSocketUrl("https://" + rest, nodeId, token) == "wss://" + rest + "/ws?nodeId=" + nodeId + "&token=" + token
  {
    var base := "https://" + rest;
    AbsentAfterPrefix("ttps://", rest, "http://");
    assert base == ['h'] + ("ttps://" + rest);
    assert base[4] == 's';
    AbsentAfterChar('h', "ttps://" + rest, "http://");
    ReplaceAbsent(base, "http://", "ws://");
    assert base[..8] == "https://" && base[8..] == rest;
    ReplaceAbsent(rest, "https://", "wss://");
  }

  /**
   * `poll_for_inference_requests`: a reply carrying a job with a non-empty id is
   * served. The prompt goes to the engine with streaming on, the reply is
   * batched to the stream endpoint, and the completion record carries the full
   * response, or the error of the first line that raised.
   */
  method PollForInference(reply: PollReply, engine: seq<Stream.Line>) returns (served: Option<Served>)
    ensures served.Some? <==> reply.Answered? && Truthy(reply.request.id)
    ensures served.Some? ==>
      served.value == Served(
        Some(Generation(ModelOf(reply.request), Prompt.PromptOf(MessagesOf(reply.request)), true)),
        Stream.Batched(Stream.Decoded(engine)).sent,
        Complete(reply.request.id, Stream.Response(engine), Stream.Failure(engine)))
    ensures served.Some? ==>
      (served.value.completion.status == "completed" <==>
         Stream.Failure(engine).None? && Stream.FullText(Stream.Decoded(engine)) != "")
  {
    if reply.NoJob? || !Truthy(reply.request.id) {
      return None;
    }
    var request := reply.request;
    var prompt := Prompt.BuildPrompt(MessagesOf(request));
    var chunks, response, error := Stream.StreamBatched(engine);
    served := Some(Served(Some(Generation(ModelOf(request), prompt, true)), chunks, Complete(request.id, response, error)));
  }

  /** `str(e)` for the TypeError raised by `request_id[:8]` when the message has no id. */
  const NoIdError := "'NoneType' object is not subscriptable"

  /**
   * `handle_websocket_inference`: a message without an id fails before the
   * engine is called; otherwise every non-empty fragment is submitted at once,
   * and the completion record carries the full response, or the error of the
   * first line that raised.
   */
  method HandleWebSocketInference(request: Request, engine: seq<Stream.Line>) returns (served: Served)
    ensures request.id.None? ==> served == Served(None, [], Complete(None, None, Some(NoIdError)))
    ensures request.id.Some? ==>
      served == Served(
        Some(Generation(ModelOf(request), Prompt.PromptOf(MessagesOf(request)), true)),
        Stream.Pushed(Stream.Decoded(engine)),
        Complete(request.id, Stream.Response(engine), Stream.Failure(engine)))
    ensures served.completion.status == "completed" <==>
      request.id.Some? && Stream.Failure(engine).None? && Stream.FullText(Stream.Decoded(engine)) != ""
  {
    if request.id.None? {
      return Served(None, [], Complete(None, None, Some(NoIdError)));
    }
    var prompt := Prompt.BuildPrompt(MessagesOf(request));
    var chunks, response, error := Stream.StreamEach(engine);
    served := Served(Some(Generation(ModelOf(request), prompt, true)), chunks, Complete(request.id, response, error));
  }

  /** How a run of `main` goes. */
  datatype AgentRun =
    | Exited(code: int)
    | Crashed       // no token: signing the first heartbeat raises
    | Running(token: string, initial: Readiness, websocket: Option<string>, rounds: seq<Control.Round>)

  /**
   * `main`: the token comes from the environment or from registration; the
   * first heartbeat carries the initial probe; the WebSocket mode is tried,
   * once, exactly when the client library is present and the engine is ready;
   * whatever it returns, the agent goes on polling and never tries it again.
   */
  method RunAgent(apiBase: string, nodeId: string, envToken: Option<string>, registration: RegisterReply,
                  initialTags: TagsReply, hasWebsocket: bool, start: real, ticks: seq<Control.Tick>)
    returns (run: AgentRun)
    ensures run.Exited? <==> !Truthy(envToken) && RegisterNode(registration).Exit?
    ensures run.Exited? ==> run.code == 1
    ensures run.Crashed? <==> !Truthy(envToken) && RegisterNode(registration).NoToken?
    ensures run.Running? ==>
      run.token == (if Truthy(envToken) then envToken.value else RegisterNode(registration).token)
    ensures run.Running? ==> run.initial == CheckOllamaReady(initialTags)
    ensures run.Running? ==> (run.websocket.Some? <==> hasWebsocket && run.initial.ready)
    ensures run.Running? && run.websocket.Some? ==> run.websocket.value == WebSocketUrl(apiBase, nodeId, run.token)
    ensures run.Running? ==> Control.Scheduled(CheckOllamaReady, start, ticks, run.rounds)
  {
    var token: string;
    if Truthy(envToken) {
      token := envToken.value;
    } else {
      var registered := RegisterNode(registration);
      match registered
      case Exit(code) => return Exited(code);
      case NoToken => return Crashed;
      case Registered(t) => token := t;
    }
    var initial := CheckOllamaReady(initialTags);
    var websocket := None;
    if hasWebsocket && initial.ready {
      websocket := Some(WebSocketUrl(apiBase, nodeId, token));
    }
    var rounds, _ := Control.PollingLoop(CheckOllamaReady, start, ticks);
    run := Running(token, initial, websocket, rounds);
  }
}
