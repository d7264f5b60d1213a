/** The errors the popup throws or reports, each with the exact message it
    shows the user. */
module Errors {
  import opened Wrappers
  import Json

  datatype Error =
    | NoSuitableContent        // page extraction found no usable text
    | NoTextToProcess          // the text to process is empty
    | NoProcessedText          // nothing to export yet
    | MissingApiKey            // neither a selected nor a typed key
    | InvalidAction            // an action outside the three known ones
    | RequestFailed(status: nat)  // any non-ok HTTP response
    | ApiError(detail: string)    // a decoded remote error message
    | InvalidResponseFormat    // an ok response without choices[0].message
    | JsonSyntaxError          // an ok response whose body is not JSON
    | NullDataAccess           // an ok response whose body is JSON `null`

  /** The popup's own errors carry fixed texts; the two thrown by the
      JavaScript engine itself word their messages per engine. */
  predicate HasFixedMessage(e: Error) {
    !e.JsonSyntaxError? && !e.NullDataAccess?
  }

  /** The text around the status in the message for a failed request. */
  const RequestFailedPrefix := "API request failed ("
  const RequestFailedSuffix := "): Please check your API key and permissions"

  /** The message the popup displays for `e`. */
  function Message(e: Error): string
    requires HasFixedMessage(e)
  {
    match e
    case NoSuitableContent => "No suitable content found on the page"
    case NoTextToProcess => "No text found to process"
    case NoProcessedText => "No processed text to save"
    case MissingApiKey => "Please enter or select an API key"
    case InvalidAction => "Invalid action"
    case RequestFailed(status) => RequestFailedPrefix + Json.Decimal(status) + RequestFailedSuffix
    case ApiError(detail) => "API Error: " + detail
    case InvalidResponseFormat => "Invalid response format from API"
  }

  /** The status of a failed request can be read back from its message:
      the text between the fixed prefix and suffix is the status's decimal
      numeral. */
  lemma RequestFailedStatusReadBack(status: nat)
    ensures var m := Message(RequestFailed(status));
      && |m| > |RequestFailedPrefix| + |RequestFailedSuffix|
      && RequestFailedPrefix <= m
      && m[|m| - |RequestFailedSuffix|..] == RequestFailedSuffix
      && Json.ArrayIndex(m[|RequestFailedPrefix|..|m| - |RequestFailedSuffix|]) == Some(status)
  {
    var d := Json.Decimal(status);
    var m := Message(RequestFailed(status));
    assert m[|RequestFailedPrefix|..|m| - |RequestFailedSuffix|] == d;
    Json.DecimalIsIndex(status);
  }

  /** The message a rejected key typically brings back. */
  lemma UnauthorizedMessage()
    ensures Message(RequestFailed(401))
         == "API request failed (" + "401" + "): Please check your API key and permissions"
  {
    assert Json.Decimal(4) == "4";
    assert Json.Decimal(40) == "40";
    assert Json.Decimal(401) == "401";
  }

  /** Each error with a fixed text shows a message of its own: the user can
      tell the errors apart, and the status or remote detail is recovered
      from the message. */
  lemma MessageInjective(e1: Error, e2: Error)
    requires HasFixedMessage(e1) && HasFixedMessage(e2)
    requires Message(e1) == Message(e2)
    ensures e1 == e2
  {
    MessageMarks(e1);
    MessageMarks(e2);
    if e1.RequestFailed? && e2.RequestFailed? {
      RequestFailedStatusReadBack(e1.status);
      RequestFailedStatusReadBack(e2.status);
    } else if e1.ApiError? && e2.ApiError? {
      assert Message(e1)[11..] == e1.detail;
      assert Message(e2)[11..] == e2.detail;
    }
  }

  /** The fourth and ninth characters of each kind of message. */
  function Marks(e: Error): (char, char) {
    match e
    case NoSuitableContent => ('s', 'b')
    case NoTextToProcess => ('t', 'f')
    case NoProcessedText => ('p', 's')
    case MissingApiKey => ('a', 'n')
    case InvalidAction => ('a', 'a')
    case RequestFailed(_) => (' ', 'e')
    case ApiError(_) => (' ', 'r')
    case InvalidResponseFormat => ('a', 'r')
    case _ => ('?', '?')
  }

  lemma MessageMarks(e: Error)
    requires HasFixedMessage(e)
    ensures |Message(e)| > 8 && (Message(e)[3], Message(e)[8]) == Marks(e)
  {
    if e.RequestFailed? {
      RequestFailedMarks(e.status);
    } else if e.ApiError? {
      assert Message(e)[..11] == "API Error: ";
    } else {
      FixedMarks(e);
    }
  }

  lemma FixedMarks(e: Error)
    requires HasFixedMessage(e) && !e.RequestFailed? && !e.ApiError?
    ensures |Message(e)| > 8 && (Message(e)[3], Message(e)[8]) == Marks(e)
  {
    match e
    case NoSuitableContent =>
    case NoTextToProcess =>
    case NoProcessedText =>
    case MissingApiKey =>
    case InvalidAction =>
    case InvalidResponseFormat =>
  }

  lemma RequestFailedMarks(status: nat)
    ensures var m := Message(RequestFailed(status));
      |m| > 8 && m[3] == ' ' && m[8] == 'e'
  {
    var m := Message(RequestFailed(status));
    var rest := Json.Decimal(status) + RequestFailedSuffix;
    assert m == RequestFailedPrefix + rest;
    assert m[3] == RequestFailedPrefix[3] && m[8] == RequestFailedPrefix[8];
  }
}
