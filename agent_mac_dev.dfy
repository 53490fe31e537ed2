/**
 * agent_mac_dev.py: the MacBook development agent. It shares the prompt rule,
 * the status rule and the heartbeat/poll tick with agent.py, reports model
 * names without their tag, asks the engine for one whole reply instead of a
 * stream, and has no WebSocket mode.
 */
module AgentMacDev {
  import opened Wrappers
  import opened Strings
  import opened Protocol
  import Prompt
  import Control
  import Agent

  /** A model name as reported: the entry's name up to its first `:`. */
  function ModelName(entry: ModelEntry): string {
    BeforeFirst(entry.name.GetOr(""), ':')
  }

  /**
   * `check_ollama_ready`: ready and count as in agent.py; each name is the
   * listed name cut before its first `:` (the whole name when there is none),
   * in list order, so it is agent.py's name with the tag dropped.
   */
  function CheckOllamaReady(reply: TagsReply): (r: Readiness)
    ensures r.ready <==> |ListedModels(reply)| > 0
    ensures r.count == |ListedModels(reply)| == |r.names|
    ensures forall i :: 0 <= i < r.count ==>
      var full := ListedModels(reply)[i].name.GetOr("");
      r.names[i] <= full && ':' !in r.names[i] && (r.names[i] == full || full[|r.names[i]|] == ':')
    ensures r.ready == Agent.CheckOllamaReady(reply).ready && r.count == Agent.CheckOllamaReady(reply).count
    ensures forall i :: 0 <= i < r.count ==> r.names[i] == BeforeFirst(Agent.CheckOllamaReady(reply).names[i], ':')
  {
    var models := ListedModels(reply);
    Readiness(|models| > 0, |models|, seq(|models|, i requires 0 <= i < |models| => ModelName(models[i])))
  }

  /** What the engine's non-streaming generate call ends in. */
  datatype GenerateReply =
    | EngineError(reason: string)          // the call raised; `str(e)`
    | Generated(response: Option<string>)  // the decoded body's `response`

  /**
   * `poll_for_inference_requests`: a reply carrying a job with a non-empty id is
   * served. The prompt goes to the engine with streaming off, nothing is sent
   * in chunks, and the completion carries the reply's `response` (`""` when the
   * field is missing) or, when the call raised, no response and the error.
   */
  method PollForInference(reply: PollReply, engine: GenerateReply) returns (served: Option<Served>)
    ensures served.Some? <==> reply.Answered? && Truthy(reply.request.id)
    ensures served.Some? ==>
      served.value == Served(
        Some(Generation(ModelOf(reply.request), Prompt.PromptOf(MessagesOf(reply.request)), false)),
        [],
        match engine
        case Generated(response) => Complete(reply.request.id, Some(response.GetOr("")), None)
        case EngineError(reason) => Complete(reply.request.id, None, Some(reason)))
    ensures served.Some? ==>
      (served.value.completion.status == "completed" <==> engine.Generated? && Truthy(engine.response))
  {
    if reply.NoJob? || !Truthy(reply.request.id) {
      return None;
    }
    var request := reply.request;
    var prompt := Prompt.BuildPrompt(MessagesOf(request));
    var completion;
    match engine {
      case Generated(response) => completion := Complete(request.id, Some(response.GetOr("")), None);
      case EngineError(reason) => completion := Complete(request.id, None, Some(reason));
    }
    served := Some(Served(Some(Generation(ModelOf(request), prompt, false)), [], completion));
  }

  /**
   * `register_node`: an error status or an unreachable console ends the process
   * with code 1; otherwise the token is `nodeToken` as it is, and a missing one
   * is `NoToken`: it crashes the process when `token[:16]` is logged, since
   * only the request errors are caught. `token` is not consulted.
   */
  function RegisterNode(reply: Agent.RegisterReply): (r: Agent.Registration)
    ensures r.Exit? <==> !reply.Accepted?
    ensures r.Exit? ==> r.code == 1
    ensures r.NoToken? <==> reply.Accepted? && reply.nodeToken.None?
    ensures r.Registered? ==> reply.Accepted? && reply.nodeToken == Some(r.token)
  {
    match reply
    case Accepted(_, nodeToken) =>
      if nodeToken.Some? then Agent.Registered(nodeToken.value) else Agent.NoToken
    case _ => Agent.Exit(1)
  }

  /**
   * `main`: the token comes from the environment when it is truthy, else from
   * registration (even an empty one); the first heartbeat carries the initial
   * probe, then the loop heartbeats every 10 seconds and polls while ready, with
   * this file's probe. There is no WebSocket mode.
   */
  method RunAgent(envToken: Option<string>, registration: Agent.RegisterReply,
                  initialTags: TagsReply, start: real, ticks: seq<Control.Tick>)
    returns (run: Agent.AgentRun)
    ensures run.Exited? <==> !Truthy(envToken) && RegisterNode(registration).Exit?
    ensures run.Exited? ==> run.code == 1
    ensures run.Crashed? <==> !Truthy(envToken) && RegisterNode(registration).NoToken?
    ensures run.Running? ==>
      run.token == (if Truthy(envToken) then envToken.value else RegisterNode(registration).token)
    ensures run.Running? ==> run.initial == CheckOllamaReady(initialTags) && run.websocket.None?
    ensures run.Running? ==> Control.Scheduled(CheckOllamaReady, start, ticks, run.rounds)
  {
    var token: string;
    if Truthy(envToken) {
      token := envToken.value;
    } else {
      var registered := RegisterNode(registration);
      match registered
      case Exit(code) => return Agent.Exited(code);
      case NoToken => return Agent.Crashed;
      case Registered(t) => token := t;
    }
    var initial := CheckOllamaReady(initialTags);
    var rounds, _ := Control.PollingLoop(CheckOllamaReady, start, ticks);
    run := Agent.Running(token, initial, None, rounds);
  }
}
