/** The frame decoder of the chat route's streaming relay: every upstream read
    is appended to a line buffer, the buffer is split on "\n", the last piece is
    kept as the new buffer, and each complete line that carries a
    server-sent-events `data: ` field yields the answer text found in its JSON
    payload, if any. */
module SseDecoder {
  import opened Strings

  /** `JSON.parse(data)` followed by the field path
      `candidates[0].content.parts[0].text`: `None` when the parse throws or a
      field on the path is missing. The JSON parser is not part of this model. */
  type Extractor = string -> Option<string>

  const DataPrefix: string := "data: "
  const DoneSentinel: string := "[DONE]"

  /** The text one complete line contributes. The marker is tested on the
      untrimmed line, and only the payload after it is trimmed; an empty text
      is falsy and is skipped like a missing one. */
  function LineFragment(extract: Extractor, line: string): Option<string> {
    if !StartsWith(line, DataPrefix) then None
    else
      var data := Trim(line[|DataPrefix|..]);
      if data == "" || data == DoneSentinel then None
      else match extract(data)
        case Some(text) => if text != "" then Some(text) else None
        case None => None
  }

  function FragmentOf(extract: Extractor, line: string): seq<string> {
    match LineFragment(extract, line)
    case Some(text) => [text]
    case None => []
  }

  /** The fragments of the lines, in line order: at most one per line. */
  function Fragments(extract: Extractor, lines: seq<string>): (frags: seq<string>)
    ensures |frags| <= |lines|
  {
    if lines == [] then []
    else Fragments(extract, lines[..|lines| - 1]) + FragmentOf(extract, lines[|lines| - 1])
  }

  /** No fragment is empty: an empty text is skipped, never sent. */
  lemma {:induction false} FragmentsNonEmpty(extract: Extractor, lines: seq<string>)
    ensures forall k :: 0 <= k < |Fragments(extract, lines)| ==> Fragments(extract, lines)[k] != ""
  {
    if lines != [] {
      FragmentsNonEmpty(extract, lines[..|lines| - 1]);
    }
  }

  lemma SeqAssoc(x: seq<string>, y: seq<string>, z: seq<string>)
    ensures x + (y + z) == (x + y) + z
  {
  }

  lemma FragmentsSnoc(extract: Extractor, lines: seq<string>, line: string)
    ensures Fragments(extract, lines + [line]) == Fragments(extract, lines) + FragmentOf(extract, line)
  {
    assert (lines + [line])[..|lines|] == lines;
  }

  lemma {:induction false} FragmentsAppend(extract: Extractor, a: seq<string>, b: seq<string>)
    ensures Fragments(extract, a + b) == Fragments(extract, a) + Fragments(extract, b)
    decreases |b|
  {
    if b == [] {
      assert a + b == a;
    } else {
      var init, last := b[..|b| - 1], b[|b| - 1];
      assert b == init + [last];
      assert a + b == (a + init) + [last];
      FragmentsAppend(extract, a, init);
      FragmentsSnoc(extract, a + init, last);
      FragmentsSnoc(extract, init, last);
      SeqAssoc(Fragments(extract, a), Fragments(extract, init), FragmentOf(extract, last));
    }
  }

  /** A line's contribution is independent of its neighbours: the lines before
      and after it are decoded exactly as they would be without it. */
  lemma LineInContext(extract: Extractor, before: seq<string>, line: string, after: seq<string>)
    ensures Fragments(extract, before + [line] + after)
         == Fragments(extract, before) + FragmentOf(extract, line) + Fragments(extract, after)
  {
    FragmentsAppend(extract, before + [line], after);
    FragmentsAppend(extract, before, [line]);
    assert [line][..0] == [];
  }

  /** A line without the `data: ` marker, checked before any trimming, emits
      nothing; a line with a leading space or "\r" before the marker is one. */
  lemma NonDataLineSkipped(extract: Extractor, before: seq<string>, line: string, after: seq<string>)
    requires !StartsWith(line, DataPrefix)
    ensures Fragments(extract, before + [line] + after)
         == Fragments(extract, before) + Fragments(extract, after)
  {
    LineInContext(extract, before, line, after);
  }

  /** A `data: ` line whose trimmed payload is empty or the `[DONE]` sentinel
      emits nothing, whatever the extractor would have made of it. */
  lemma EmptyOrDonePayloadSkipped(extract: Extractor, before: seq<string>, line: string, after: seq<string>)
    requires StartsWith(line, DataPrefix)
    requires Trim(line[|DataPrefix|..]) in {"", DoneSentinel}
    ensures Fragments(extract, before + [line] + after)
         == Fragments(extract, before) + Fragments(extract, after)
  {
    LineInContext(extract, before, line, after);
  }

  /** A payload that does not parse, lacks the text field, or holds empty text
      emits nothing, and the lines after it are still decoded. */
  lemma UnusablePayloadSkipped(extract: Extractor, before: seq<string>, line: string, after: seq<string>)
    requires StartsWith(line, DataPrefix)
    requires extract(Trim(line[|DataPrefix|..])) in {None, Some("")}
    ensures Fragments(extract, before + [line] + after)
         == Fragments(extract, before) + Fragments(extract, after)
  {
    UnusablePayloadNone(extract, line);
    LineInContext(extract, before, line, after);
  }

  lemma UnusablePayloadNone(extract: Extractor, line: string)
    requires StartsWith(line, DataPrefix)
    requires extract(Trim(line[|DataPrefix|..])) in {None, Some("")}
    ensures LineFragment(extract, line) == None
  {
    var parsed := extract(Trim(line[|DataPrefix|..]));
    assert parsed == None || parsed == Some("");
  }

  /** A `data: ` line whose payload yields text emits exactly that text, between
      the fragments of the lines before and after it. */
  lemma TextLineEmitted(extract: Extractor, before: seq<string>, line: string, after: seq<string>, text: string)
    requires StartsWith(line, DataPrefix)
    requires Trim(line[|DataPrefix|..]) !in {"", DoneSentinel}
    requires extract(Trim(line[|DataPrefix|..])) == Some(text) && text != ""
    ensures Fragments(extract, before + [line] + after)
         == Fragments(extract, before) + [text] + Fragments(extract, after)
  {
    LineInContext(extract, before, line, after);
  }

  /** The decoder state after a read: the carried partial line and the
      fragments emitted, in order. */
  datatype Decoded = Decoded(rest: string, fragments: seq<string>)

  /** One read: the chunk appended to the buffer, its complete lines decoded,
      its unterminated tail carried. */
  function Decode(extract: Extractor, buffer: string, chunk: string): Decoded {
    var text := buffer + chunk;
    Decoded(Pending(text), Fragments(extract, CompleteLines(text)))
  }

  /** A sequence of reads, the buffer carried from each read to the next. */
  function DecodeAll(extract: Extractor, buffer: string, chunks: seq<string>): Decoded {
    if chunks == [] then Decoded(buffer, [])
    else
      var d := DecodeAll(extract, buffer, chunks[..|chunks| - 1]);
      var e := Decode(extract, d.rest, chunks[|chunks| - 1]);
      Decoded(e.rest, d.fragments + e.fragments)
  }

  /** A read of no text leaves a buffer without a newline as it is. */
  lemma DecodeNothing(extract: Extractor, buffer: string)
    requires NL !in buffer
    ensures Decode(extract, buffer, "") == Decoded(buffer, [])
  {
    assert buffer + "" == buffer;
    assert Split(buffer) == [buffer];
  }

  /** Reading `x` and then `c`, with the tail of `x` carried over, decodes
      exactly as reading `x + c` at once. */
  lemma CarryThroughRead(extract: Extractor, x: string, c: string)
    ensures Decode(extract, x, c)
         == Decoded(Decode(extract, Pending(x), c).rest,
                    Fragments(extract, CompleteLines(x)) + Decode(extract, Pending(x), c).fragments)
  {
    LineBufferCarry(x, c);
    FragmentsAppend(extract, CompleteLines(x), CompleteLines(Pending(x) + c));
  }

  /** One more read after reads that decoded as one read would: the reads
      with the last chunk added still decode as one read of all their text. */
  lemma DecodeAllLast(extract: Extractor, buffer: string, chunks: seq<string>)
    requires chunks != []
    requires var init := chunks[..|chunks| - 1];
      DecodeAll(extract, buffer, init) == Decode(extract, buffer, Concat(init))
    ensures DecodeAll(extract, buffer, chunks) == Decode(extract, buffer, Concat(chunks))
  {
    var init, c := chunks[..|chunks| - 1], chunks[|chunks| - 1];
    var x := buffer + Concat(init);
    CarryThroughRead(extract, x, c);
    AppendAssoc(buffer, Concat(init), c);
  }

  /** The read loop's step: after `i + 1` reads the state is that after `i`
      reads followed by one more read of chunk `i`. */
  lemma DecodeAllNext(extract: Extractor, chunks: seq<string>, i: nat)
    requires i < |chunks|
    ensures var d := DecodeAll(extract, "", chunks[..i]);
      var e := Decode(extract, d.rest, chunks[i]);
      DecodeAll(extract, "", chunks[..i + 1]) == Decoded(e.rest, d.fragments + e.fragments)
  {
    assert chunks[..i + 1][..i] == chunks[..i];
  }

  /** Decoding read by read is decoding the whole text in one read, starting
      from any buffer without a newline (in particular the empty one). */
  lemma {:induction false} DecodeAllIsOneRead(extract: Extractor, buffer: string, chunks: seq<string>)
    requires NL !in buffer
    ensures DecodeAll(extract, buffer, chunks) == Decode(extract, buffer, Concat(chunks))
    decreases |chunks|
  {
    if chunks == [] {
      DecodeNothing(extract, buffer);
    } else {
      DecodeAllIsOneRead(extract, buffer, chunks[..|chunks| - 1]);
      DecodeAllLast(extract, buffer, chunks);
    }
  }

  /** Chunk-boundary invariance: however the upstream text is cut into reads,
      the fragments emitted and the buffer left over are the same. */
  lemma ChunkBoundaryInvariance(extract: Extractor, chunks1: seq<string>, chunks2: seq<string>)
    requires Concat(chunks1) == Concat(chunks2)
    ensures DecodeAll(extract, "", chunks1) == DecodeAll(extract, "", chunks2)
  {
    DecodeAllIsOneRead(extract, "", chunks1);
    DecodeAllIsOneRead(extract, "", chunks2);
  }

  /** The stream's last line, if no newline ends it, is never decoded: the read
      loop stops without flushing the buffer, so that line only lengthens it. */
  lemma UnterminatedLastLineDropped(extract: Extractor, chunks: seq<string>, tail: string)
    requires NL !in tail
    ensures DecodeAll(extract, "", chunks + [tail]).fragments == DecodeAll(extract, "", chunks).fragments
    ensures DecodeAll(extract, "", chunks + [tail]).rest == DecodeAll(extract, "", chunks).rest + tail
  {
    DecodeAllIsOneRead(extract, "", chunks + [tail]);
    DecodeAllIsOneRead(extract, "", chunks);
    assert (chunks + [tail])[..|chunks|] == chunks;
    assert "" + Concat(chunks + [tail]) == Concat(chunks) + tail;
    assert "" + Concat(chunks) == Concat(chunks);
    UnterminatedTail(Concat(chunks), tail);
  }

  /** One pass of the read loop's body: append the chunk to the buffer, split
      on "\n", keep the last piece as the new buffer and run every other line
      through the `data: ` pipeline. The new buffer is the unterminated tail of
      the text (it holds no newline), and the fragments are those of the
      complete lines, in line order. */
  method Step(extract: Extractor, buffer: string, chunk: string) returns (rest: string, fragments: seq<string>)
    ensures NL !in rest
    ensures buffer + chunk == Terminated(CompleteLines(buffer + chunk)) + rest
    ensures Decoded(rest, fragments) == Decode(extract, buffer, chunk)
  {
    var lines := Split(buffer + chunk);
    rest := lines[|lines| - 1];
    lines := lines[..|lines| - 1];
    fragments := [];
    for i := 0 to |lines|
      invariant fragments == Fragments(extract, lines[..i])
    {
      var text := DataLine(extract, lines[i]);
      TakeSnoc(lines, i);
      FragmentsSnoc(extract, lines[..i], lines[i]);
      if text.Some? {
        fragments := fragments + [text.value];
      }
    }
    assert lines[..|lines|] == lines;
    LineBufferSplit(buffer + chunk);
  }

  /** The loop body for one complete line: a `data: ` line with a payload that
      is neither empty nor `[DONE]`, whose extracted text is non-empty, yields
      that text. */
  method DataLine(extract: Extractor, line: string) returns (text: Option<string>)
    ensures text == LineFragment(extract, line)
    ensures text.Some? ==> text.value != "" && StartsWith(line, DataPrefix)
  {
    text := None;
    if StartsWith(line, DataPrefix) {
      var data := Trim(line[|DataPrefix|..]);
      if data != "" && data != DoneSentinel {
        var parsed := extract(data);
        if parsed.Some? && parsed.value != "" {
          text := parsed;
        }
      }
    }
  }
}
