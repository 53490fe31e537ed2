# OllamaOrchestrator node agents, modelled in Dafny

The repository holds two Python node agents. Each connects a local Ollama engine
to a remote job console:

- `agent.py` is the streaming agent. It registers, or reuses a token from the
  environment. It probes the engine and sends a first heartbeat. It tries the
  WebSocket push mode once, and then runs a polling loop for good.
- `agent_mac_dev.py` is a development variant. It has no WebSocket mode, asks the
  engine for one whole reply instead of a stream, and reports model names without
  their tag.

This project models the deterministic rules inside that network plumbing. Every
HTTP or WebSocket exchange becomes an input: a decoded tags reply, a poll reply,
the engine's reply as a sequence of lines, and the clock readings of each loop
iteration. What the agent sends becomes an output: the generate request, the
chunks posted to the stream endpoint, the completion record, and the heartbeat
reports.

Modules:

- `Wrappers`: `Option` and Python truthiness of an optional string.
- `Strings`: concatenation folds, non-overlapping `str.replace`, and
  `split(sep)[0]`.
- `Prompt`: the prompt builder. Both agents and both handlers share it.
- `Protocol`: the decoded records, the completion status rule and the tags list.
- `Stream`: the pull-path batcher and the push-path streamer. Each is a method
  with a loop, proved against a fold over the fragments.
- `Control`: the `while True` heartbeat and poll loop. It is a method with a loop,
  proved against a schedule predicate.
- `Agent` and `AgentMacDev`: the per-file operations. They are assembled from
  the modules above.

The source is Python, so there are no fixed-width integers to model. Time is a
`real` because `time.time()` is a float.

The agents keep no offsets or sequence cursors, do no conflict resync or
retries, and batch with a fixed buffer size of 2. A WebSocket job has type
`inference_request`.

## Model

| member | source | states |
|---|---|---|
| Prompt.BuildPrompt | agent.py:174-185 | The loop's prompt equals PromptOf: every system turn, latest first, then the user and assistant turns in order, then `"Assistant: "`. The prompt always ends with `"Assistant: "`. The same loop appears at agent.py:365-376 and agent_mac_dev.py:161-172 and is modelled once. |
| Prompt.SystemGoesFirst | agent.py:178-179 | A system message puts `"System: c\n\n"` in front of the whole prompt built from the messages before it. |
| Prompt.DialogueTurnAppended | agent.py:176-183 | A user message, a message with no role, or an assistant message appends its turn after everything built so far, just before the cue. |
| Prompt.UnknownRoleIgnored | agent.py:178-183 | Removing a message whose role is not system, user or assistant leaves the prompt unchanged, wherever that message stands. |
| Prompt.NoSystemNoPreamble | agent.py:174-185 | With no system message, the prompt is the in-order user and assistant turns followed by `"Assistant: "`. |
| Protocol.Status | agent.py:280 | The status is `"completed"` exactly when the response is present and non-empty. A missing response and `""` both give `"failed"`. agent_mac_dev.py:212 has the same rule. |
| Stream.DecodedStep | agent.py:208-210 | An empty (falsy) line is skipped; iterating a reply does not yield one in practice, and a whitespace-only line such as `b"\n"` is truthy, so it counts as a line that raises. A decoded line adds its fragment. The first line that raises ends the loop, and its error is the failure. |
| Stream.BatchedInvariant | agent.py:211-220 | After each fragment the buffer holds fewer than 2 texts. The buffer is empty after a final fragment. No submitted chunk is empty. `full_response` is every text in order. The submitted text followed by the joined buffer equals `full_response`. |
| Stream.ChunkOrigins | agent.py:216-219 | Each submitted chunk is traced to the fragment that flushed it, in increasing order. That fragment either filled the buffer or was final. The chunk's `done` flag is that fragment's. |
| Stream.StreamBatched | agent.py:201-229 | The batching loop submits exactly the chunks of the fold Batched, and every chunk is non-empty. The response is the full text, or none when a line raised, and the error is that line's. When the reply ends with a final fragment, the submitted text equals the response. |
| Stream.PushedExactlyOnce | agent.py:396-405 | Every non-empty fragment is submitted exactly once, in order, with its own text and `done` flag. A fragment is submitted exactly when its text is non-empty, so an empty final fragment is never sent. |
| Stream.PushedText | agent.py:392-405 | The push path's chunks add up to `full_response`, and none is empty. |
| Stream.StreamEach | agent.py:392-413 | The per-fragment loop submits exactly the chunks of Pushed. The response is the full text, or none with the raising line's error. Without an error, the submitted text equals the response. |
| Stream.PathsAgreeWhenDone | agent.py:202-220 | When the reply ends with a final fragment, the pull path and the push path deliver the same text, the whole response. The push path is at agent.py:392-405. |
| Control.PollingLoop | agent.py:554-570 | Iteration k sends a heartbeat with the probe's report exactly when at least 10 seconds have passed since `last_heartbeat`. Iteration k polls exactly when the probe before the poll says ready. `last_heartbeat` is the fold LastHeartbeat. The loop is identical at agent_mac_dev.py:339-352. |
| Control.NoHeartbeatKeepsStart | agent.py:554-562 | Before the first heartbeat, `last_heartbeat` keeps the reading taken before the loop. |
| Control.LastHeartbeatIsLatest | agent.py:559-562 | `last_heartbeat` is updated only by a heartbeat. Until the next heartbeat it holds the reading taken right after the last one. |
| Control.LastHeartbeatAtLeast | agent.py:559-562 | With a clock that never runs backwards, `last_heartbeat` never falls below the reading taken after any earlier heartbeat. |
| Control.HeartbeatsSpaced | agent.py:559-562 | With a clock that never runs backwards, the checks of two heartbeats are at least 10 seconds apart. |
| Agent.CheckOllamaReady | agent.py:48-59 | Ready exactly when the model list is non-empty. The count is the list's length. The names are the entries' names verbatim and in order, `""` for a missing name. An unreachable engine gives not ready, 0 and no names. |
| Agent.RegisterNode | agent.py:82-100 | An error status or an unreachable console exits with code 1. Otherwise the token is `token` when it is truthy, then `nodeToken`, else none. A registered token is never empty. |
| Agent.WebSocketUrlOfHttp | agent.py:423-424 | For a base `http://rest`, the URL is `ws://rest/ws?nodeId=…&token=…`. This holds when the rest contains neither scheme. |
| Agent.WebSocketUrlOfHttps | agent.py:423-424 | For a base `https://rest`, the URL is `wss://rest/ws?nodeId=…&token=…`. The `http://` replacement does not touch it. |
| Agent.PollForInference | agent.py:147-235 | A job is served exactly when its id is truthy. The engine gets the job's model (default `llama3.2`), PromptOf its messages, and `stream: true`. The chunks are those of Batched. The completion carries the response or the error. The status is `"completed"` exactly when no line raised and the full text is non-empty. |
| Agent.HandleWebSocketInference | agent.py:355-413 | A message without an id fails before the engine call. Its completion has no id and no response, and carries the error of slicing None. Otherwise the chunks are those of Pushed, and the status is `"completed"` exactly when no line raised and the full text is non-empty. |
| Agent.RunAgent | agent.py:486-570 | The token comes from the environment when it is truthy, else from registration. A failed registration exits with code 1. A registration without a token crashes at the first heartbeat. The initial report is the probe's. WebSocket mode is attempted, with its URL, exactly when the client library is present and the engine is ready. The agent then runs the polling loop's schedule. |
| Strings.BeforeFirst | agent_mac_dev.py:47 | `split(":")[0]` returns a prefix of the name with no `:`. The prefix is the whole name, or is followed by `:`. |
| AgentMacDev.CheckOllamaReady | agent_mac_dev.py:40-50 | Ready and count are as in agent.py. Each name is the listed name cut before its first `:`, in list order. Equivalently, it is agent.py's name with the tag dropped. |
| AgentMacDev.PollForInference | agent_mac_dev.py:134-206 | A job is served exactly when its id is truthy. The engine gets the same prompt with `stream: false`, and no chunks are sent. The completion carries the reply's `response` (`""` when missing), or the error when the call raised. The status is `"completed"` exactly when a response came back non-empty. |
| AgentMacDev.RegisterNode | agent_mac_dev.py:73-87 | An error status or an unreachable console exits with code 1. Otherwise the token is `nodeToken` as it is, even when empty. A missing one leaves no token: logging `token[:16]` raises, and nothing catches it. |
| AgentMacDev.RunAgent | agent_mac_dev.py:302-352 | The token comes from the environment when it is truthy, else from this file's registration. A failed registration exits with code 1, and a missing token crashes. The initial report is this file's probe. There is no WebSocket mode. The agent runs the polling loop's schedule with this file's probe. |

## Left out

- HTTP and WebSocket I/O (`urlopen`, `WebSocketApp`, `run_forever`). Replies are inputs and requests are outputs.
- JSON encoding and decoding. Records are already decoded. A JSON `null` in a field is not distinguished from a missing key, so these cases of the source are not captured:
  - a message with `role: null` is ignored by the source (agent.py:178-183) but taken as a user turn by the model;
  - a message with `content: null` renders as `None` in the source but as `""` in the model;
  - a fragment with `response: null` raises at agent.py:212 and fails the job in the source, but adds `""` in the model.
- The HMAC-SHA256 signature in `calculate_hmac`, a foreign cryptographic call. Headers are not modelled.
- Threads: the fire-and-forget chunk sender (agent.py:237-270), the WebSocket callbacks and their heartbeat thread (agent.py:429-467). The console's handling of a chunk, and its ordering across threads, are not modelled.
- `on_message` dispatch inside WebSocket mode. The model records only whether the mode was attempted, and with which URL.
- `time.sleep`, logging, ANSI colours and the banner. The `request_id[:8]` display truncation is modelled only where it raises.
- `send_test_receipt`, a fixed payload, and the constant fields of the heartbeat body (`gpuUtil`, `memUsedGb`, `p95Ms`).
- Failures of the poll request are all caught and logged (agent.py:231-235, agent_mac_dev.py:202-206); a poll that fails is a `NoJob` reply.
- Heartbeat and registration failures other than `HTTPError` and `URLError`. `send_heartbeat` (agent.py:139-145, agent_mac_dev.py:126-132) and `register_node` (agent.py:93-100, agent_mac_dev.py:80-87) catch only those two, so a reply body that is not JSON, or a connection dropped while the response is read, ends the process. The model assumes every heartbeat and registration reply decodes: Control.PollingLoop, Agent.RunAgent and AgentMacDev.RunAgent do not model that exit.
- Ctrl+C, which exits with code 0. The loops are modelled over a finite prefix of iterations.
- Decoding failures inside the prompt loop (a message that is not an object). Messages are records.
