/**
 * Records the agents exchange with the local engine and the remote console,
 * already decoded from JSON, and the rules both agents share for them.
 */
module Protocol {
  import opened Wrappers
  import Prompt

  /** A job as the console hands it out: `{id, model, messages}`; any key may be missing. */
  datatype Request = Request(id: Option<string>, model: Option<string>, messages: Option<seq<Prompt.Message>>)

  /** The model used when a job names none. */
  const DefaultModel := "llama3.2"

  function ModelOf(r: Request): string { r.model.GetOr(DefaultModel) }

  function MessagesOf(r: Request): seq<Prompt.Message> { r.messages.GetOr([]) }

  /** The body POSTed to the engine's generate endpoint: `{model, prompt, stream}`. */
  datatype Generation = Generation(model: string, prompt: string, stream: bool)

  /** The body POSTed to the console's complete endpoint: `{id, status, response, error}`. */
  datatype Completion = Completion(id: Option<string>, status: string, response: Option<string>, error: Option<string>)

  /** `"completed" if response else "failed"`. */
  function Status(response: Option<string>): (s: string)
    ensures s == "completed" <==> Truthy(response)
    ensures s == "completed" || s == "failed"
  {
    if Truthy(response) then "completed" else "failed"
  }

  /** `submit_inference_response(token, id, response, error)`. */
  function Complete(id: Option<string>, response: Option<string>, error: Option<string>): Completion {
    Completion(id, Status(response), response, error)
  }

  /** One entry of the engine's tag list; its `name` key may be missing. */
  datatype ModelEntry = ModelEntry(name: Option<string>)

  /** What the readiness probe gets back from the engine's tags endpoint. */
  datatype TagsReply =
    | Unreachable                                 // the request or its decoding raised
    | Tags(models: Option<seq<ModelEntry>>)       // the decoded body; `models` may be missing

  /** `data.get("models", [])`, and nothing when the engine could not be reached. */
  function ListedModels(reply: TagsReply): seq<ModelEntry> {
    match reply
    case Unreachable => []
    case Tags(models) => models.GetOr([])
  }

  /** What `check_ollama_ready` returns: `(ready, model_count, model_names)`. */
  datatype Readiness = Readiness(ready: bool, count: nat, names: seq<string>)

  /** What a poll of the console's job queue yields: nothing (404, another error, an empty body) or a job. */
  datatype PollReply = NoJob | Answered(request: Request)

  /**
   * What handling one job produced: the request sent to the engine (none when the
   * handler failed before reaching it), the chunks submitted to the stream
   * endpoint in order, and the completion record.
   */
  datatype Served = Served(generation: Option<Generation>, chunks: seq<Chunk>, completion: Completion)

  /** One submission to the console's stream endpoint: `{id, chunk, done}`. */
  datatype Chunk = Chunk(text: string, done: bool)
}
