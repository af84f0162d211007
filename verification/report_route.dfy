/** The report endpoint's request check (src/app/api/report/route.ts): the
    e-mail address, the question and the short answer must all be present
    and truthy before any report is generated or sent. */
module ReportRoute {
  import opened JsValues

  const MissingFields: string := "必須項目が不足しています"

  /** The outcome of the check: a 400 reply with its error text, or the three
      fields passed on unchanged. */
  datatype Check =
    | Rejected(status: nat, error: string)
    | Accepted(email: JsValue, question: JsValue, answer: JsValue)

  /** `if (!email || !question || !answer)`: the request goes on exactly when
      all three fields are truthy; otherwise it is refused with status 400. */
  function CheckRequired(email: JsValue, question: JsValue, answer: JsValue): (c: Check)
    ensures c.Rejected? <==> !Truthy(email) || !Truthy(question) || !Truthy(answer)
    ensures c.Rejected? ==> c.status == 400 && c.error == MissingFields
    ensures c.Accepted? ==> c.email == email && c.question == question && c.answer == answer
  {
    if !Truthy(email) || !Truthy(question) || !Truthy(answer) then Rejected(400, MissingFields)
    else Accepted(email, question, answer)
  }

  /** A field left out of the body, sent as `null`, or sent as an empty string
      is refused, whatever the other two fields hold. */
  lemma AbsentFieldRejected(email: JsValue, question: JsValue, answer: JsValue)
    requires email in {Undefined, Null, Str("")} || question in {Undefined, Null, Str("")}
          || answer in {Undefined, Null, Str("")}
    ensures CheckRequired(email, question, answer) == Rejected(400, MissingFields)
  {
  }
}
