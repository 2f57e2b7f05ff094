/** The outcome of one request to the suggestion service, with the request
    itself abstracted to the value it produced. */
module Suggestions {
  import opened Goals

  /** The text stored when the request throws. */
  const Fallback: string := "Unable to generate suggestions."

  /** What the awaited request produced: a parsed reply object, whose
      `Message` field may be missing, or a thrown error. An error is thrown
      when the transport fails, when the body is not JSON, and when the body
      is the JSON literal `null`, whose `Message` lookup raises a TypeError
      inside the `try`. A reply with a non-success status is still a
      `Replied` outcome: it does not throw. */
  datatype Response = Replied(message: Option<string>) | Threw

  /** The value `generateGoalSuggestions` resolves to. Only a thrown error
      (including a `null` body) yields the fallback text; a reply object
      without `Message` yields `undefined` (`None`), never the fallback; a
      reply's message is passed through. */
  function SuggestionOf(resp: Response): (s: Option<string>)
    ensures resp.Threw? ==> s == Some(Fallback)
    ensures s.None? <==> resp == Replied(None)
    ensures s == Some(Fallback) <==> resp.Threw? || resp.message == Some(Fallback)
    ensures resp.Replied? ==> s == resp.message
  {
    match resp
    case Replied(m) => m
    case Threw => Some(Fallback)
  }
}
