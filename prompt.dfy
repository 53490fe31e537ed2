/**
 * The prompt builder both agents run on a job's chat messages before calling the
 * local engine: system turns go in front of everything built so far, user and
 * assistant turns are appended in order, other roles add nothing, and the prompt
 * closes with the assistant cue.
 */
module Prompt {
  import opened Wrappers
  import opened Strings

  /** One entry of a job's `messages` list, as decoded from JSON; either key may be missing. */
  datatype Message = Message(role: Option<string>, content: Option<string>)

  /** `msg.get('role', 'user')`: a message without a role counts as a user message. */
  function RoleOf(m: Message): string { m.role.GetOr("user") }

  /** `msg.get('content', '')` */
  function ContentOf(m: Message): string { m.content.GetOr("") }

  /** The text one turn contributes: the speaker, a colon, the content and a blank line. */
  function Turn(speaker: string, content: string): string { speaker + ": " + content + "\n\n" }

  /** What every prompt ends with, inviting the engine to answer. */
  const Cue := "Assistant: "

  /** The turn a message adds at the end of the dialogue: "" for system and unknown roles. */
  function Spoken(m: Message): string {
    if RoleOf(m) == "user" then Turn("User", ContentOf(m))
    else if RoleOf(m) == "assistant" then Turn("Assistant", ContentOf(m))
    else ""
  }

  /** The turn a message puts in front of the prompt: "" for every role but system. */
  function Announced(m: Message): string {
    if RoleOf(m) == "system" then Turn("System", ContentOf(m)) else ""
  }

  /** The system turns of `ms`, the latest first. */
  function Preamble(ms: seq<Message>): string { ConcatMapReversed(ms, Announced) }

  /** The user and assistant turns of `ms`, in order. */
  function Dialogue(ms: seq<Message>): string { ConcatMap(ms, Spoken) }

  /** The prompt for `ms`: system turns (latest first), then the dialogue, then the cue. */
  function PromptOf(ms: seq<Message>): string {
    Preamble(ms) + Dialogue(ms) + Cue
  }

  /** The loop of the poll and WebSocket handlers: reassigns `prompt` once per message. */
  method BuildPrompt(ms: seq<Message>) returns (prompt: string)
    ensures prompt == PromptOf(ms)
    ensures |prompt| >= |Cue| && prompt[|prompt| - |Cue|..] == Cue
  {
    prompt := "";
    for i := 0 to |ms|
      invariant prompt == Preamble(ms[..i]) + Dialogue(ms[..i])
    {
      var role := RoleOf(ms[i]);
      var content := ContentOf(ms[i]);
      assert ms[..i + 1][..i] == ms[..i];
      if role == "system" {
        prompt := Turn("System", content) + prompt;
      } else if role == "user" {
        prompt := prompt + Turn("User", content);
      } else if role == "assistant" {
        prompt := prompt + Turn("Assistant", content);
      }
    }
    assert ms[..|ms|] == ms;
    prompt := prompt + Cue;
  }

  /** A system message puts its turn in front of everything built from the messages before it. */
  lemma SystemGoesFirst(ms: seq<Message>, m: Message)
    requires RoleOf(m) == "system"
    ensures PromptOf(ms + [m]) == Turn("System", ContentOf(m)) + PromptOf(ms)
  {
  }

  /** A user message (or one without a role) and an assistant message are appended just before the cue. */
  lemma DialogueTurnAppended(ms: seq<Message>, m: Message)
    requires m.role.None? || m.role == Some("user") || m.role == Some("assistant")
    ensures PromptOf(ms + [m]) ==
      Preamble(ms) + Dialogue(ms)
      + Turn(if m.role == Some("assistant") then "Assistant" else "User", ContentOf(m))
      + Cue
  {
  }

  /** A message whose role is none of system, user and assistant changes nothing, wherever it stands. */
  lemma UnknownRoleIgnored(ms: seq<Message>, i: nat)
    requires i < |ms|
    requires RoleOf(ms[i]) !in {"system", "user", "assistant"}
    ensures PromptOf(ms) == PromptOf(ms[..i] + ms[i + 1..])
  {
    var before, m, after := ms[..i], ms[i], ms[i + 1..];
    assert ms == before + [m] + after;
    assert Announced(m) == "" && Spoken(m) == "";
    assert [m][..0] == [];
    ConcatMapReversedAppend(before + [m], after, Announced);
    ConcatMapReversedAppend(before, [m], Announced);
    ConcatMapReversedAppend(before, after, Announced);
    ConcatMapAppend(before + [m], after, Spoken);
    ConcatMapAppend(before, [m], Spoken);
    ConcatMapAppend(before, after, Spoken);
  }

  /**
   * Without system messages there is no preamble: the prompt is the user and
   * assistant turns in order, followed by the cue.
   */
  lemma NoSystemNoPreamble(ms: seq<Message>)
    requires forall i :: 0 <= i < |ms| ==> RoleOf(ms[i]) != "system"
    ensures PromptOf(ms) == Dialogue(ms) + Cue
  {
    ConcatMapReversedEmpty(ms, Announced);
  }
}
