/**
 * How the agents consume the engine's streamed reply and forward it to the
 * console: the pull path batches fragments two at a time, the push path
 * forwards every non-empty fragment at once. Both accumulate the full response
 * and give up on the first line that raises.
 */
module Stream {
  import opened Wrappers
  import opened Strings
  import opened Protocol

  /** One decoded line of the engine's reply: `{"response": ..., "done": ...}`; either key may be missing. */
  datatype Fragment = Fragment(response: Option<string>, done: Option<bool>)

  /** `chunk.get("response", "")` */
  function TextOf(f: Fragment): string { f.response.GetOr("") }

  /** `chunk.get("done", False)` */
  function DoneOf(f: Fragment): bool { f.done.GetOr(false) }

  /** One raw line of the reply, as the agent meets it. */
  datatype Line =
    | Blank                       // an empty (falsy) line, which `if line:` skips; iterating a reply does not yield one in practice
    | Broken(reason: string)      // reading or decoding this line raised `reason`, a whitespace-only line included
    | Record(fragment: Fragment)

  function ChunkText(c: Chunk): string { c.text }

  /** The fragments the loop consumes before the first line that raises. */
  function Decoded(lines: seq<Line>): seq<Fragment> {
    if lines == [] then []
    else match lines[0]
      case Blank => Decoded(lines[1..])
      case Broken(_) => []
      case Record(f) => [f] + Decoded(lines[1..])
  }

  /** The error of the first line that raises, if any. */
  function Failure(lines: seq<Line>): Option<string> {
    if lines == [] then None
    else match lines[0]
      case Broken(reason) => Some(reason)
      case _ => Failure(lines[1..])
  }

  /** `full_response`: every fragment's text, in order. */
  function FullText(fs: seq<Fragment>): string { ConcatMap(fs, TextOf) }

  /** Everything the console received through the stream endpoint, in order. */
  function SentText(cs: seq<Chunk>): string { ConcatMap(cs, ChunkText) }

  /** What reaches the completion record: the full response, or nothing once a line raised. */
  function Response(lines: seq<Line>): Option<string> {
    if Failure(lines).None? then Some(FullText(Decoded(lines))) else None
  }

  predicate EndsDone(fs: seq<Fragment>) { fs != [] && DoneOf(fs[|fs| - 1]) }

  lemma {:induction false} DecodedAppend(a: seq<Line>, b: seq<Line>)
    requires Failure(a).None?
    ensures Decoded(a + b) == Decoded(a) + Decoded(b)
    ensures Failure(a + b) == Failure(b)
  {
    if a == [] {
      assert a + b == b;
    } else {
      assert (a + b)[1..] == a[1..] + b;
      DecodedAppend(a[1..], b);
    }
  }

  /** One loop iteration's worth of lines: the prefix grows by the line at `i`. */
  lemma DecodedStep(lines: seq<Line>, i: nat)
    requires i < |lines|
    requires Failure(lines[..i]).None?
    ensures Failure(lines[..i + 1]) == Failure([lines[i]])
    ensures lines[i].Blank? ==> Decoded(lines[..i + 1]) == Decoded(lines[..i])
    ensures lines[i].Record? ==> Decoded(lines[..i + 1]) == Decoded(lines[..i]) + [lines[i].fragment]
    ensures lines[i].Broken? ==>
      Decoded(lines) == Decoded(lines[..i]) && Failure(lines) == Some(lines[i].reason)
  {
    assert lines[..i + 1] == lines[..i] + [lines[i]];
    DecodedAppend(lines[..i], [lines[i]]);
    assert lines == lines[..i] + lines[i..];
    DecodedAppend(lines[..i], lines[i..]);
  }

  // ---------------------------------------------------------------------
  // Pull path: the batcher of `poll_for_inference_requests`

  /** `buffer_size`: the buffer is flushed once it holds this many texts. */
  const BufferSize := 2

  /** The loop's state: `full_response`, `chunk_buffer` and the chunks submitted so far. */
  datatype Batcher = Batcher(full: string, buffer: seq<string>, sent: seq<Chunk>)

  /** The buffer once the fragment's text has been appended, before any flush. */
  function Pending(b: Batcher, f: Fragment): seq<string> { b.buffer + [TextOf(f)] }

  /** The fragment makes the batcher flush: the buffer is full or the fragment is the last one. */
  predicate Flushes(b: Batcher, f: Fragment) { |Pending(b, f)| >= BufferSize || DoneOf(f) }

  /** The fragment makes the batcher submit a chunk: it flushes and the joined text is non-empty. */
  predicate Submits(b: Batcher, f: Fragment) { Flushes(b, f) && Concat(Pending(b, f)) != "" }

  /** One iteration of the batching loop. */
  function Feed(b: Batcher, f: Fragment): Batcher {
    var full := b.full + TextOf(f);
    if !Flushes(b, f) then Batcher(full, Pending(b, f), b.sent)
    else if Submits(b, f) then Batcher(full, [], b.sent + [Chunk(Concat(Pending(b, f)), DoneOf(f))])
    else Batcher(full, [], b.sent)
  }

  /** The batcher after consuming `fs`, starting empty. */
  function Batched(fs: seq<Fragment>): Batcher {
    if fs == [] then Batcher("", [], []) else Feed(Batched(fs[..|fs| - 1]), fs[|fs| - 1])
  }

  /**
   * What the batching loop keeps true: the buffer never holds a full batch and
   * is empty after a final fragment, no empty chunk is submitted, `full_response`
   * is every text in order, and what was submitted followed by the buffer is
   * exactly `full_response`.
   */
  lemma {:induction false} BatchedInvariant(fs: seq<Fragment>)
    ensures |Batched(fs).buffer| < BufferSize
    ensures EndsDone(fs) ==> Batched(fs).buffer == []
    ensures forall c <- Batched(fs).sent :: c.text != ""
    ensures Batched(fs).full == FullText(fs)
    ensures SentText(Batched(fs).sent) + Concat(Batched(fs).buffer) == Batched(fs).full
  {
    if fs != [] {
      var init, f := fs[..|fs| - 1], fs[|fs| - 1];
      BatchedInvariant(init);
      var b := Batched(init);
      var pending := Pending(b, f);
      assert pending[..|pending| - 1] == b.buffer;
      assert Concat(pending) == Concat(b.buffer) + TextOf(f);
      if Submits(b, f) {
        var c := Chunk(Concat(pending), DoneOf(f));
        assert (b.sent + [c])[..|b.sent|] == b.sent;
        assert SentText(b.sent + [c]) == SentText(b.sent) + c.text;
      }
    }
  }

  /** The index of the fragment whose flush submitted each chunk, in submission order. */
  function FlushPoints(fs: seq<Fragment>): seq<nat> {
    if fs == [] then []
    else
      var init := fs[..|fs| - 1];
      if Submits(Batched(init), fs[|fs| - 1]) then FlushPoints(init) + [|fs| - 1] else FlushPoints(init)
  }

  /**
   * Where each submitted chunk comes from: chunk k was submitted while consuming
   * fragment FlushPoints(fs)[k], in increasing order; that fragment made the
   * batcher flush (the buffer reached its size or the fragment was final); and
   * the chunk's `done` flag is that fragment's.
   */
  lemma {:induction false} ChunkOrigins(fs: seq<Fragment>)
    ensures |FlushPoints(fs)| == |Batched(fs).sent|
    ensures forall k :: 0 <= k < |FlushPoints(fs)| ==>
      FlushPoints(fs)[k] < |fs|
      && Flushes(Batched(fs[..FlushPoints(fs)[k]]), fs[FlushPoints(fs)[k]])
      && Batched(fs).sent[k].done == DoneOf(fs[FlushPoints(fs)[k]])
    ensures forall j, k :: 0 <= j < k < |FlushPoints(fs)| ==> FlushPoints(fs)[j] < FlushPoints(fs)[k]
  {
    if fs != [] {
      var init, f := fs[..|fs| - 1], fs[|fs| - 1];
      ChunkOrigins(init);
      var points, sent := FlushPoints(fs), Batched(fs).sent;
      var initPoints, initSent := FlushPoints(init), Batched(init).sent;
      assert points[..|initPoints|] == initPoints;
      assert sent[..|initSent|] == initSent;
      forall k | 0 <= k < |initPoints|
        ensures fs[..points[k]] == init[..initPoints[k]] && fs[points[k]] == init[initPoints[k]]
      {
      }
    }
  }

  /** The batching loop of `poll_for_inference_requests`, with its exception handler. */
  method StreamBatched(lines: seq<Line>) returns (chunks: seq<Chunk>, response: Option<string>, error: Option<string>)
    ensures chunks == Batched(Decoded(lines)).sent
    ensures error == Failure(lines)
    ensures response == Response(lines)
    ensures forall c <- chunks :: c.text != ""
    ensures error.None? && EndsDone(Decoded(lines)) ==> SentText(chunks) == response.value
  {
    var full := "";
    var buffer: seq<string> := [];
    chunks := [];
    var i := 0;
    while i < |lines|
      invariant 0 <= i <= |lines|
      invariant Failure(lines[..i]).None?
      invariant Batcher(full, buffer, chunks) == Batched(Decoded(lines[..i]))
    {
      DecodedStep(lines, i);
      match lines[i] {
      case Blank =>
      case Broken(reason) =>
        BatchedInvariant(Decoded(lines));
        return chunks, None, Some(reason);
      case Record(f) =>
        var text := TextOf(f);
        full := full + text;
        buffer := buffer + [text];
        if |buffer| >= BufferSize || DoneOf(f) {
          var combined := Concat(buffer);
          if combined != "" {
            chunks := chunks + [Chunk(combined, DoneOf(f))];
          }
          buffer := [];
        }
        ghost var fs := Decoded(lines[..i]);
        assert (fs + [f])[..|fs|] == fs;
        assert Batched(fs + [f]) == Feed(Batched(fs), f);
        assert Decoded(lines[..i + 1]) == fs + [f];
      }
      i := i + 1;
    }
    assert lines[..i] == lines;
    BatchedInvariant(Decoded(lines));
    response, error := Some(full), None;
  }

  // ---------------------------------------------------------------------
  // Push path: the per-fragment loop of `handle_websocket_inference`

  /** The chunks the push path submits for `fs`: each non-empty text at once, with its own `done` flag. */
  function Pushed(fs: seq<Fragment>): seq<Chunk> {
    if fs == [] then []
    else
      var init, f := fs[..|fs| - 1], fs[|fs| - 1];
      if TextOf(f) != "" then Pushed(init) + [Chunk(TextOf(f), DoneOf(f))] else Pushed(init)
  }

  /** The indices of the fragments with non-empty text, in order. */
  function NonEmptyPoints(fs: seq<Fragment>): seq<nat> {
    if fs == [] then []
    else
      var init := fs[..|fs| - 1];
      if TextOf(fs[|fs| - 1]) != "" then NonEmptyPoints(init) + [|fs| - 1] else NonEmptyPoints(init)
  }

  /**
   * Every non-empty fragment is submitted exactly once and in order, carrying its
   * own text and `done` flag; an empty fragment is never submitted, even when final.
   */
  lemma {:induction false} PushedExactlyOnce(fs: seq<Fragment>)
    ensures |Pushed(fs)| == |NonEmptyPoints(fs)|
    ensures forall k :: 0 <= k < |NonEmptyPoints(fs)| ==>
      NonEmptyPoints(fs)[k] < |fs|
      && Pushed(fs)[k] == Chunk(TextOf(fs[NonEmptyPoints(fs)[k]]), DoneOf(fs[NonEmptyPoints(fs)[k]]))
    ensures forall j, k :: 0 <= j < k < |NonEmptyPoints(fs)| ==> NonEmptyPoints(fs)[j] < NonEmptyPoints(fs)[k]
    ensures forall j :: 0 <= j < |fs| ==> (TextOf(fs[j]) != "" <==> j in NonEmptyPoints(fs))
  {
    if fs != [] {
      var init := fs[..|fs| - 1];
      PushedExactlyOnce(init);
      var points, pushed := NonEmptyPoints(fs), Pushed(fs);
      assert points[..|NonEmptyPoints(init)|] == NonEmptyPoints(init);
      assert pushed[..|Pushed(init)|] == Pushed(init);
      forall j | 0 <= j < |fs|
        ensures TextOf(fs[j]) != "" <==> j in points
      {
        if j < |init| {
          assert fs[j] == init[j];
        }
      }
    }
  }

  /** What the push path submits adds up to the full response. */
  lemma {:induction false} PushedText(fs: seq<Fragment>)
    ensures SentText(Pushed(fs)) == FullText(fs)
    ensures forall c <- Pushed(fs) :: c.text != ""
  {
    if fs != [] {
      var init, f := fs[..|fs| - 1], fs[|fs| - 1];
      PushedText(init);
      if TextOf(f) != "" {
        var c := Chunk(TextOf(f), DoneOf(f));
        assert (Pushed(init) + [c])[..|Pushed(init)|] == Pushed(init);
        assert SentText(Pushed(init) + [c]) == SentText(Pushed(init)) + c.text;
      }
      assert FullText(fs) == FullText(init) + TextOf(f);
    }
  }

  /** The per-fragment loop of `handle_websocket_inference`, with its exception handler. */
  method StreamEach(lines: seq<Line>) returns (chunks: seq<Chunk>, response: Option<string>, error: Option<string>)
    ensures chunks == Pushed(Decoded(lines))
    ensures error == Failure(lines)
    ensures response == Response(lines)
    ensures forall c <- chunks :: c.text != ""
    ensures error.None? ==> SentText(chunks) == response.value
  {
    var full := "";
    chunks := [];
    var i := 0;
    while i < |lines|
      invariant 0 <= i <= |lines|
      invariant Failure(lines[..i]).None?
      invariant full == FullText(Decoded(lines[..i]))
      invariant chunks == Pushed(Decoded(lines[..i]))
    {
      DecodedStep(lines, i);
      match lines[i] {
      case Blank =>
      case Broken(reason) =>
        PushedText(Decoded(lines));
        return chunks, None, Some(reason);
      case Record(f) =>
        ghost var fs := Decoded(lines[..i]);
        assert (fs + [f])[..|fs|] == fs;
        var text := TextOf(f);
        full := full + text;
        var done := DoneOf(f);
        if text != "" {
          chunks := chunks + [Chunk(text, done)];
        }
        assert chunks == Pushed(fs + [f]);
        assert full == FullText(fs + [f]);
      }
      i := i + 1;
    }
    assert lines[..i] == lines;
    PushedText(Decoded(lines));
    response, error := Some(full), None;
  }

  /**
   * When the reply ends with a final fragment, both paths deliver the same text
   * through the stream endpoint: the whole response.
   */
  lemma PathsAgreeWhenDone(fs: seq<Fragment>)
    requires EndsDone(fs)
    ensures SentText(Batched(fs).sent) == SentText(Pushed(fs)) == FullText(fs)
  {
    BatchedInvariant(fs);
    PushedText(fs);
  }
}
