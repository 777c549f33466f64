/** `resumir_texto`: cut the text into chunks, ask the summarization model
    for a summary of each chunk in order, and glue the summaries together. */
module Summarizer {
  import opened Text
  import opened Chunker

  /** What one call of the summarization model on a chunk does (with the
      fixed length limits 150 and 30 and no sampling): it returns a list of
      results, each given here by its `summary_text`, or it raises an
      exception with a message. */
  datatype Reply = Returned(summaries: seq<string>) | Raised(message: string)

  /** Where the loop over the chunks ends: it ran to completion with the
      accumulator `resumo_final`, or a call raised and ended it. */
  datatype Outcome = Completed(acc: string) | Failed(message: string)

  /** The text that `resumir_texto` returns in place of a summary when
      anything in it raises. */
  const ErrorPrefix: string := "Ocorreu um erro ao gerar o resumo: "

  /** The loop body on one reply: a non-empty list adds its first
      `summary_text` and one space, an empty list adds nothing. */
  function Step(acc: string, reply: Reply): Outcome {
    match reply
    case Raised(message) => Failed(message)
    case Returned(summaries) => Completed(if summaries != [] then acc + summaries[0] + " " else acc)
  }

  /** The loop run over `chunks` in order, from the empty accumulator. */
  function Accumulate(chunks: seq<string>, summarize: string -> Reply): Outcome {
    if chunks == [] then Completed("")
    else
      match Accumulate(chunks[..|chunks| - 1], summarize)
      case Failed(message) => Failed(message)
      case Completed(acc) => Step(acc, summarize(chunks[|chunks| - 1]))
  }

  /** The chunks handed to the summarizer, in call order: each chunk up to
      and including the first one whose call raises. */
  function CallsMade(chunks: seq<string>, summarize: string -> Reply): seq<string> {
    if chunks == [] then []
    else
      var init := chunks[..|chunks| - 1];
      if Accumulate(init, summarize).Failed? then CallsMade(init, summarize)
      else CallsMade(init, summarize) + [chunks[|chunks| - 1]]
  }

  /** The value `resumir_texto` returns for an outcome: the stripped
      accumulator, or the error text with the exception's message. */
  function Render(outcome: Outcome): string {
    match outcome
    case Completed(acc) => Strip(acc)
    case Failed(message) => ErrorPrefix + message
  }

  /** The value `resumir_texto` returns for `text` and the given model. */
  function SummaryOf(text: string, summarize: string -> Reply): string {
    Render(Accumulate(Chunks(text, MaxChunkLength), summarize))
  }

  /** `resumir_texto`. Besides the returned text, `calls` lists the chunks
      passed to the summarizer, in the order of the calls. */
  method Summarize(text: string, summarize: string -> Reply) returns (summary: string, calls: seq<string>)
    ensures summary == SummaryOf(text, summarize)
    ensures calls == CallsMade(Chunks(text, MaxChunkLength), summarize)
  {
    var chunks := Chunks(text, MaxChunkLength);
    var acc := "";
    calls := [];
    var i := 0;
    while i < |chunks|
      invariant 0 <= i <= |chunks|
      invariant Accumulate(chunks[..i], summarize) == Completed(acc)
      invariant CallsMade(chunks[..i], summarize) == calls
    {
      var reply := summarize(chunks[i]);
      calls := calls + [chunks[i]];
      assert chunks[..i + 1][..i] == chunks[..i];
      match reply {
        case Raised(message) =>
          FailureIsFinal(chunks, i + 1, summarize);
          summary := ErrorPrefix + message;
          return;
        case Returned(summaries) =>
          if summaries != [] {
            acc := acc + summaries[0] + " ";
          }
      }
      i := i + 1;
    }
    assert chunks[..i] == chunks;
    summary := Strip(acc);
  }

  /** Once a call has raised, the later chunks change neither the outcome
      nor the calls made: they are never summarized. */
  lemma {:induction false} FailureIsFinal(chunks: seq<string>, n: nat, summarize: string -> Reply)
    requires n <= |chunks|
    requires Accumulate(chunks[..n], summarize).Failed?
    ensures Accumulate(chunks, summarize) == Accumulate(chunks[..n], summarize)
    ensures CallsMade(chunks, summarize) == CallsMade(chunks[..n], summarize)
    decreases |chunks|
  {
    if n == |chunks| {
      assert chunks[..n] == chunks;
    } else {
      var init := chunks[..|chunks| - 1];
      assert init[..n] == chunks[..n];
      FailureIsFinal(init, n, summarize);
    }
  }

  /** Every call on `chunks` returns (none raises). */
  predicate AllReturned(chunks: seq<string>, summarize: string -> Reply) {
    forall i :: 0 <= i < |chunks| ==> summarize(chunks[i]).Returned?
  }

  /** Chunk `i` is the first one whose call raises. */
  predicate FirstRaise(chunks: seq<string>, summarize: string -> Reply, i: nat) {
    i < |chunks| && summarize(chunks[i]).Raised? && AllReturned(chunks[..i], summarize)
  }

  /** The summaries kept, in chunk order: the first `summary_text` of every
      reply whose list is non-empty. */
  function Summaries(chunks: seq<string>, summarize: string -> Reply): seq<string> {
    if chunks == [] then []
    else
      var reply := summarize(chunks[|chunks| - 1]);
      Summaries(chunks[..|chunks| - 1], summarize) +
        (if reply.Returned? && reply.summaries != [] then [reply.summaries[0]] else [])
  }

  /** Each part followed by one space. */
  function WithTrailingSpace(parts: seq<string>): seq<string> {
    seq(|parts|, i requires 0 <= i < |parts| => parts[i] + " ")
  }

  /** When no call raises, every chunk is summarized once, in order, and the
      accumulator is the kept summaries, each followed by one space. */
  lemma {:induction false} AccumulateAllReturned(chunks: seq<string>, summarize: string -> Reply)
    requires AllReturned(chunks, summarize)
    ensures Accumulate(chunks, summarize) == Completed(Concat(WithTrailingSpace(Summaries(chunks, summarize))))
    ensures CallsMade(chunks, summarize) == chunks
    decreases |chunks|
  {
    if chunks != [] {
      var init := chunks[..|chunks| - 1];
      var last := chunks[|chunks| - 1];
      AccumulateAllReturned(init, summarize);
      var kept := Summaries(init, summarize);
      var reply := summarize(last);
      if reply.summaries != [] {
        assert Summaries(chunks, summarize) == kept + [reply.summaries[0]];
        assert WithTrailingSpace(kept + [reply.summaries[0]])
            == WithTrailingSpace(kept) + [reply.summaries[0] + " "];
        assert (WithTrailingSpace(kept) + [reply.summaries[0] + " "])[..|kept|] == WithTrailingSpace(kept);
      } else {
        assert Summaries(chunks, summarize) == kept;
      }
      assert chunks == init + [last];
    }
  }

  /** When chunk `i` is the first whose call raises, the chunks up to it are
      summarized in order, none after it is, and the outcome is that call's
      message: the accumulator built so far is dropped. */
  lemma AccumulateFirstRaise(chunks: seq<string>, summarize: string -> Reply, i: nat)
    requires FirstRaise(chunks, summarize, i)
    ensures Accumulate(chunks, summarize) == Failed(summarize(chunks[i]).message)
    ensures CallsMade(chunks, summarize) == chunks[..i + 1]
  {
    var upTo := chunks[..i + 1];
    assert upTo[..i] == chunks[..i];
    AccumulateAllReturned(chunks[..i], summarize);
    FailureIsFinal(chunks, i + 1, summarize);
  }

  /** The loop fails exactly when some call raises. */
  lemma FailsIffSomeRaise(chunks: seq<string>, summarize: string -> Reply)
    ensures Accumulate(chunks, summarize).Failed?
        <==> exists i :: 0 <= i < |chunks| && summarize(chunks[i]).Raised?
  {
    if AllReturned(chunks, summarize) {
      AccumulateAllReturned(chunks, summarize);
    } else {
      var i := FirstRaiseExists(chunks, summarize);
      AccumulateFirstRaise(chunks, summarize, i);
    }
  }

  lemma {:induction false} FirstRaiseExists(chunks: seq<string>, summarize: string -> Reply) returns (i: nat)
    requires !AllReturned(chunks, summarize)
    ensures FirstRaise(chunks, summarize, i)
    decreases |chunks|
  {
    var init := chunks[..|chunks| - 1];
    if AllReturned(init, summarize) {
      i := |chunks| - 1;
    } else {
      i := FirstRaiseExists(init, summarize);
      assert init[..i] == chunks[..i];
    }
  }

  /** Text that is non-empty and neither starts nor ends with whitespace. */
  predicate IsTrimmed(s: string) {
    s != [] && !IsSpace(s[0]) && !IsSpace(s[|s| - 1])
  }

  /** Non-empty parts joined by a separator start with the first part's
      first character and end with the last part's last character. */
  lemma {:induction false} JoinEnds(parts: seq<string>, sep: string)
    requires parts != [] && forall i :: 0 <= i < |parts| ==> parts[i] != []
    ensures Join(parts, sep) != []
    ensures Join(parts, sep)[0] == parts[0][0]
    ensures Join(parts, sep)[|Join(parts, sep)| - 1] == parts[|parts| - 1][|parts[|parts| - 1]| - 1]
    decreases |parts|
  {
    if |parts| > 1 {
      JoinEnds(parts[..|parts| - 1], sep);
    }
  }

  /** Each part followed by a space, glued together, is the parts joined by
      single spaces plus one trailing space. */
  lemma {:induction false} SpacedIsJoinPlusSpace(parts: seq<string>)
    requires parts != []
    ensures Concat(WithTrailingSpace(parts)) == Join(parts, " ") + " "
    decreases |parts|
  {
    var spaced := WithTrailingSpace(parts);
    if |parts| == 1 {
      assert spaced[..0] == [];
    } else {
      var init := parts[..|parts| - 1];
      SpacedIsJoinPlusSpace(init);
      assert spaced[..|spaced| - 1] == WithTrailingSpace(init);
    }
  }

  /** When no call raises and every kept summary is trimmed, the value
      returned is the kept summaries joined by single spaces. */
  lemma SummaryJoinsParts(chunks: seq<string>, summarize: string -> Reply)
    requires AllReturned(chunks, summarize)
    requires forall p :: p in Summaries(chunks, summarize) ==> IsTrimmed(p)
    ensures Render(Accumulate(chunks, summarize)) == Join(Summaries(chunks, summarize), " ")
  {
    AccumulateAllReturned(chunks, summarize);
    StripSpacedIsJoin(Summaries(chunks, summarize));
  }

  /** Trimmed parts, each followed by one space and glued together, strip
      to the parts joined by single spaces. */
  lemma StripSpacedIsJoin(parts: seq<string>)
    requires forall p :: p in parts ==> IsTrimmed(p)
    ensures Strip(Concat(WithTrailingSpace(parts))) == Join(parts, " ")
  {
    if parts == [] {
      assert WithTrailingSpace(parts) == [];
    } else {
      SpacedIsJoinPlusSpace(parts);
      forall i | 0 <= i < |parts| ensures parts[i] != [] {
        assert parts[i] in parts;
      }
      JoinEnds(parts, " ");
      var joined := Join(parts, " ");
      assert IsTrimmed(parts[0]) && IsTrimmed(parts[|parts| - 1]);
      assert !IsSpace(joined[0]) && !IsSpace(joined[|joined| - 1]);
      assert IsBlank(" ");
      StripDropsTrailing(joined, " ");
    }
  }

  /** Empty text has no chunks: nothing is summarized and the result is "". */
  lemma SummaryOfEmptyText(summarize: string -> Reply)
    ensures SummaryOf("", summarize) == ""
    ensures CallsMade(Chunks("", MaxChunkLength), summarize) == []
  {
    ChunkCountIsCeiling("", MaxChunkLength);
  }

  /** When the summarizer raises on some chunk, the result is the error text
      with the first such exception's message, and no later chunk is sent. */
  lemma SummaryFailsFast(text: string, summarize: string -> Reply, i: nat)
    requires FirstRaise(Chunks(text, MaxChunkLength), summarize, i)
    ensures SummaryOf(text, summarize) == ErrorPrefix + summarize(Chunks(text, MaxChunkLength)[i]).message
    ensures CallsMade(Chunks(text, MaxChunkLength), summarize) == Chunks(text, MaxChunkLength)[..i + 1]
  {
    AccumulateFirstRaise(Chunks(text, MaxChunkLength), summarize, i);
  }

  /** A 2048-character text is sent in two calls, its first and second 1024
      characters in that order, and two trimmed summaries come back joined
      by a single space. */
  lemma SummaryOfTwoChunks(text: string, summarize: string -> Reply, first: string, second: string)
    requires |text| == 2 * MaxChunkLength
    requires IsTrimmed(first) && IsTrimmed(second)
    requires summarize(text[..MaxChunkLength]).Returned?
    requires summarize(text[..MaxChunkLength]).summaries != []
    requires summarize(text[..MaxChunkLength]).summaries[0] == first
    requires summarize(text[MaxChunkLength..]) == Returned([second])
    ensures CallsMade(Chunks(text, MaxChunkLength), summarize) == [text[..MaxChunkLength], text[MaxChunkLength..]]
    ensures SummaryOf(text, summarize) == first + " " + second
  {
    var chunks := Chunks(text, MaxChunkLength);
    ChunkCountIsCeiling(text, MaxChunkLength);
    ChunkIsSlice(text, MaxChunkLength, 0);
    ChunkIsSlice(text, MaxChunkLength, 1);
    assert |chunks| == 2;
    assert chunks[0] == text[..MaxChunkLength];
    assert chunks[1] == text[MaxChunkLength..];
    assert chunks == [text[..MaxChunkLength], text[MaxChunkLength..]];
    assert chunks[..1] == [chunks[0]];
    assert Summaries(chunks[..1], summarize) == [first];
    assert Summaries(chunks, summarize) == [first, second];
    assert AllReturned(chunks, summarize);
    SummaryJoinsParts(chunks, summarize);
    AccumulateAllReturned(chunks, summarize);
  }
}
