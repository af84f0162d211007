/** The chat endpoint (src/app/api/chat/route.ts): the request check, and the
    relay that reads the upstream server-sent-events stream, forwards each
    decoded fragment to the client while accumulating the full answer, and on
    any exit from the read loop closes the client stream and then logs the
    question and answer once. */
module ChatRoute {
  import opened Strings
  import opened JsValues
  import opened SseDecoder

  const QuestionRequired: string := "質問を入力してください"
  const ConfigPendingMessage: string := "申し訳ありません。現在AIサービスの設定中です。しばらくお待ちください。"
  const PlaceholderKey: string := "placeholder"

  /** What the handler decides before it contacts the upstream model. */
  datatype Admission =
    | Rejected(status: nat, error: string)       // JSON error body
    | ConfigPending(status: nat, message: string) // plain-text apology, not an error status
    | CallUpstream(prompt: string)

  /** The checks made before the upstream request: the question must be a
      non-empty string, and the API key must be set and not the placeholder.
      Only a request that passes both reaches the upstream model. */
  function Admit(question: JsValue, apiKey: Option<string>): (a: Admission)
    ensures a.Rejected? <==> !(question.Str? && question.s != "")
    ensures a.Rejected? ==> a.status == 400 && a.error != ""
    ensures a.ConfigPending? ==> a.status == 200
    ensures a.CallUpstream? <==>
      question.Str? && question.s != "" && apiKey.Some? && apiKey.value !in {"", PlaceholderKey}
    ensures a.CallUpstream? ==> question == Str(a.prompt)
  {
    if !Truthy(question) || !question.Str? then Rejected(400, QuestionRequired)
    else if apiKey.None? || !Truthy(Str(apiKey.value)) || apiKey.value == PlaceholderKey then
      ConfigPending(200, ConfigPendingMessage)
    else CallUpstream(question.s)
  }

  /** The row handed to the spreadsheet logger; `email` is passed on as received. */
  datatype Row = Row(question: string, answer: string, email: JsValue)

  /** An effect the relay has on the outside world. */
  datatype Event =
    | Sent(text: string)     // `controller.enqueue`: a fragment sent to the client
    | Closed                 // `controller.close`
    | Logged(row: Row)       // the fire-and-forget `appendToSheet` call

  /** Each fragment sent to the client, in order. */
  function Sends(fragments: seq<string>): (events: seq<Event>)
    ensures |events| == |fragments|
    ensures forall i :: 0 <= i < |events| ==> events[i] == Sent(fragments[i])
  {
    seq(|fragments|, i requires 0 <= i < |fragments| => Sent(fragments[i]))
  }

  lemma SendsAppend(a: seq<string>, b: seq<string>)
    ensures Sends(a + b) == Sends(a) + Sends(b)
  {
  }

  /** The client stream and the logger, seen as the ordered trace of what was
      done to them. */
  class Effects {
    var events: seq<Event>

    constructor ()
      ensures events == []
    {
      events := [];
    }

    /** A closed stream controller throws on enqueue; the relay never does it. */
    method Enqueue(text: string)
      requires Closed !in events
      modifies this
      ensures events == old(events) + [Sent(text)]
    {
      events := events + [Sent(text)];
    }

    method Close()
      requires Closed !in events
      modifies this
      ensures events == old(events) + [Closed]
    {
      events := events + [Closed];
    }

    method AppendToSheet(row: Row)
      modifies this
      ensures events == old(events) + [Logged(row)]
    {
      events := events + [Logged(row)];
    }
  }

  /** The `start(controller)` callback of the response stream, with the
      variables it shares across reads as fields. */
  class Relay {
    const extract: Extractor
    const question: string
    const email: JsValue
    const out: Effects
    var buffer: string
    var fullAnswer: string

    /** The line buffer holds at most one unterminated line. */
    ghost predicate Valid()
      reads this
    {
      NL !in buffer
    }

    constructor (extract: Extractor, question: string, email: JsValue)
      ensures Valid() && fresh(out)
      ensures this.extract == extract && this.question == question && this.email == email
      ensures buffer == "" && fullAnswer == "" && out.events == []
    {
      this.extract := extract;
      this.question := question;
      this.email := email;
      out := new Effects();
      buffer := "";
      fullAnswer := "";
    }

    /** One read of the loop: decode the chunk against the buffer, keep the
        unterminated tail, and emit the fragments of the complete lines. */
    method Receive(chunk: string)
      requires Valid() && Closed !in out.events
      modifies this, out
      ensures Valid() && Closed !in out.events
      ensures var d := Decode(extract, old(buffer), chunk);
        buffer == d.rest
        && fullAnswer == old(fullAnswer) + Concat(d.fragments)
        && out.events == old(out.events) + Sends(d.fragments)
    {
      var rest, fragments := Step(extract, buffer, chunk);
      buffer := rest;
      Emit(fragments);
    }

    /** For each fragment, in line order: extend the answer, then send the
        fragment to the client. */
    method Emit(fragments: seq<string>)
      requires Closed !in out.events
      modifies this`fullAnswer, out
      ensures Closed !in out.events
      ensures fullAnswer == old(fullAnswer) + Concat(fragments)
      ensures out.events == old(out.events) + Sends(fragments)
    {
      for j := 0 to |fragments|
        invariant Closed !in out.events
        invariant fullAnswer == old(fullAnswer) + Concat(fragments[..j])
        invariant out.events == old(out.events) + Sends(fragments[..j])
      {
        assert fragments[..j + 1][..j] == fragments[..j];
        fullAnswer := fullAnswer + fragments[j];
        out.Enqueue(fragments[j]);
      }
      assert fragments[..|fragments|] == fragments;
    }

    /** The whole relay over the chunks read before the loop ended, whether
        by `done` or by a read that threw: both exits take the same `finally`
        path, which closes the client stream and logs the answer once. The
        client receives exactly the fragments of the complete lines read, in
        order; the logged answer is their concatenation; the close comes
        after every fragment and the log call after the close. */
    method Run(chunks: seq<string>)
      requires Valid() && buffer == "" && fullAnswer == "" && out.events == []
      modifies this, out
      ensures var d := DecodeAll(extract, "", chunks);
        buffer == d.rest
        && fullAnswer == Concat(d.fragments)
        && out.events == Sends(d.fragments) + [Closed, Logged(Row(question, fullAnswer, email))]
    {
      ghost var sent: seq<string> := [];
      for i := 0 to |chunks|
        invariant Valid() && Closed !in out.events
        invariant Decoded(buffer, sent) == DecodeAll(extract, "", chunks[..i])
        invariant fullAnswer == Concat(sent) && out.events == Sends(sent)
      {
        ghost var now := Decode(extract, buffer, chunks[i]).fragments;
        DecodeAllNext(extract, chunks, i);
        Receive(chunks[i]);
        ConcatAppend(sent, now);
        SendsAppend(sent, now);
        sent := sent + now;
      }
      assert chunks[..|chunks|] == chunks;
      out.Close();
      out.AppendToSheet(Row(question, fullAnswer, email));
    }
  }
}
