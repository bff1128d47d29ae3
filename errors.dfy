/**
 * The client's error taxonomy: the `AppError` record, its factories, the
 * classification of an arbitrary thrown value, the error built from a failed
 * HTTP response, and the two toast configurations shown to the user.
 */
module Errors {
  import opened Options
  import opened Text

  /** `AppError`: an internal code and message, the text shown to the user, and an
      optional HTTP status. */
  datatype AppError = AppError(code: string, message: string, userMessage: string, statusCode: Option<int>)

  /** The status `createError` uses when none is passed. */
  const DefaultStatus: int := 500

  /** `createError`: copies its arguments; an omitted status becomes 500. */
  function CreateError(code: string, message: string, userMessage: string, statusCode: Option<int>): (e: AppError)
    ensures e.code == code && e.message == message && e.userMessage == userMessage
    ensures e.statusCode.Some?
    ensures statusCode.Some? ==> e.statusCode == statusCode
    ensures statusCode.None? ==> e.statusCode == Some(DefaultStatus)
  {
    AppError(code, message, userMessage, Some(if statusCode.Some? then statusCode.value else DefaultStatus))
  }

  function NetworkError(): (e: AppError)
    ensures e.code == "NETWORK_ERROR" && e.statusCode == Some(503)
  {
    CreateError("NETWORK_ERROR", "Network request failed",
      "Unable to connect. Please check your internet connection.", Some(503))
  }

  /** The text `apiError` puts after "API Error: ": absent and empty details are both
      falsy, and give "Unknown error". */
  function ApiDetails(details: Option<string>): (r: string)
    ensures details.Some? && details.value != [] ==> r == details.value
    ensures details.None? || details.value == [] ==> r == "Unknown error"
  {
    if details.Some? && details.value != [] then details.value else "Unknown error"
  }

  function ApiError(details: Option<string>): (e: AppError)
    ensures e.code == "API_ERROR" && e.statusCode == Some(500)
    ensures e.message == "API Error: " + ApiDetails(details)
    ensures e.userMessage == "Something went wrong. Please try again."
  {
    CreateError("API_ERROR", "API Error: " + ApiDetails(details),
      "Something went wrong. Please try again.", Some(500))
  }

  function ValidationError(field: string): (e: AppError)
    ensures e.code == "VALIDATION_ERROR" && e.statusCode == Some(400)
  {
    CreateError("VALIDATION_ERROR", "Validation failed for field: " + field,
      "Please check your " + field + " and try again.", Some(400))
  }

  function AiGenerationError(): (e: AppError)
    ensures e.code == "AI_GENERATION_ERROR" && e.statusCode == Some(500)
  {
    CreateError("AI_GENERATION_ERROR", "AI generation service failed",
      "Could not generate content. Please try again or contact support.", Some(500))
  }

  function AiServiceUnavailable(): (e: AppError)
    ensures e.code == "AI_SERVICE_UNAVAILABLE" && e.statusCode == Some(503)
  {
    CreateError("AI_SERVICE_UNAVAILABLE", "AI service is unavailable",
      "The AI service is temporarily unavailable. Please try again later.", Some(503))
  }

  function MissingApiKey(): (e: AppError)
    ensures e.code == "MISSING_API_KEY" && e.statusCode == Some(500)
  {
    CreateError("MISSING_API_KEY", "API key is not configured",
      "Server configuration error. Please contact support.", Some(500))
  }

  function TimeoutError(): (e: AppError)
    ensures e.code == "TIMEOUT_ERROR" && e.statusCode == Some(408)
  {
    CreateError("TIMEOUT_ERROR", "Request timed out",
      "The request took too long. Please try again.", Some(408))
  }

  function ParseError(detail: string): (e: AppError)
    ensures e.code == "PARSE_ERROR" && e.statusCode == Some(500)
    ensures e.message == "Failed to parse response: " + detail
  {
    CreateError("PARSE_ERROR", "Failed to parse response: " + detail,
      "Failed to process server response. Please try again.", Some(500))
  }

  /** `emptyInput`: the field name keeps its casing in the message and is lower-cased
      in the text shown to the user. */
  function EmptyInput(fieldName: string): (e: AppError)
    ensures e.code == "EMPTY_INPUT" && e.statusCode == Some(400)
  {
    CreateError("EMPTY_INPUT", fieldName + " is empty",
      "Please provide a " + Lower(fieldName) + ".", Some(400))
  }

  /** `invalidInput`: as `emptyInput`, with the reason after the field name. */
  function InvalidInput(fieldName: string, reason: string): (e: AppError)
    ensures e.code == "INVALID_INPUT" && e.statusCode == Some(400)
  {
    CreateError("INVALID_INPUT", "Invalid " + fieldName + ": " + reason,
      "Your " + Lower(fieldName) + " is invalid: " + reason, Some(400))
  }

  /** A text with a fixed frame around it determines what is inside the frame. */
  lemma FrameCancel(x: string, a: string, b: string, y: string)
    ensures x + a + y == x + b + y <==> a == b
  {
    if x + a + y == x + b + y {
      assert |a| == |b|;
      assert a == (x + a + y)[|x|..|x| + |a|];
      assert b == (x + b + y)[|x|..|x| + |b|];
    }
  }

  /** `emptyInput` messages tell field names apart exactly; the user-facing texts
      tell them apart only up to ASCII case. */
  lemma EmptyInputCasing(a: string, b: string)
    ensures EmptyInput(a).message == EmptyInput(b).message <==> a == b
    ensures EmptyInput(a).userMessage == EmptyInput(b).userMessage <==> Lower(a) == Lower(b)
  {
    FrameCancel([], a, b, " is empty");
    assert [] + a + " is empty" == a + " is empty";
    assert [] + b + " is empty" == b + " is empty";
    FrameCancel("Please provide a ", Lower(a), Lower(b), ".");
  }

  /** The same for `invalidInput`, for any fixed reason. */
  lemma InvalidInputCasing(a: string, b: string, reason: string)
    ensures InvalidInput(a, reason).message == InvalidInput(b, reason).message <==> a == b
    ensures InvalidInput(a, reason).userMessage == InvalidInput(b, reason).userMessage
            <==> Lower(a) == Lower(b)
  {
    var tail := ": " + reason;
    assert "Invalid " + a + ": " + reason == "Invalid " + a + tail;
    assert "Invalid " + b + ": " + reason == "Invalid " + b + tail;
    FrameCancel("Invalid ", a, b, tail);
    var tail' := " is invalid: " + reason;
    assert "Your " + Lower(a) + " is invalid: " + reason == "Your " + Lower(a) + tail';
    assert "Your " + Lower(b) + " is invalid: " + reason == "Your " + Lower(b) + tail';
    FrameCancel("Your ", Lower(a), Lower(b), tail');
  }

  /** The error codes of the ten factories and of `handleFetchError`, ordered by
      length and then by first letter. */
  const Codes: seq<string> := [
    "API_ERROR", "EMPTY_INPUT", "FETCH_ERROR", "PARSE_ERROR", "INVALID_INPUT",
    "NETWORK_ERROR", "TIMEOUT_ERROR", "MISSING_API_KEY", "VALIDATION_ERROR",
    "AI_GENERATION_ERROR", "AI_SERVICE_UNAVAILABLE"
  ]

  /** A code's length and first letter, combined into one number. */
  function Tag(c: string): int
  {
    if c == [] then 0 else |c| * 128 + c[0] as int
  }

  /** In a list whose neighbours increase, every earlier entry is below every later one. */
  lemma {:induction false} IncreasingChain(s: seq<int>, i: nat, j: nat)
    requires forall k :: 0 <= k < |s| - 1 ==> s[k] < s[k + 1]
    requires i < j < |s|
    ensures s[i] < s[j]
  {
    if j > i + 1 {
      IncreasingChain(s, i, j - 1);
      assert s[j - 1] < s[j];
    }
  }

  /** The tags of the table's codes, in the same order; they increase. */
  const Tags: seq<int> := [1217, 1477, 1478, 1488, 1737, 1742, 1748, 1997, 2134, 2497, 2881]

  lemma TagsOfCodes()
    ensures |Tags| == |Codes|
    ensures forall i :: 0 <= i < |Codes| ==> Tag(Codes[i]) == Tags[i]
  {
  }

  /** No two entries of the table coincide. */
  lemma CodesDistinct()
    ensures forall i, j :: 0 <= i < j < |Codes| ==> Codes[i] != Codes[j]
  {
    TagsOfCodes();
    forall i, j | 0 <= i < j < |Codes|
      ensures Codes[i] != Codes[j]
    {
      IncreasingChain(Tags, i, j);
    }
  }

  /** Every factory's code is in the table, each at its own entry, so a code names
      the factory that made the error. */
  lemma FactoryCodes(field: string, reason: string, details: Option<string>, detail: string,
                     status: nat, body: FetchBody)
    ensures Codes == [
      ApiError(details).code, EmptyInput(field).code, HandleFetchError(status, body).code,
      ParseError(detail).code, InvalidInput(field, reason).code, NetworkError().code,
      TimeoutError().code, MissingApiKey().code, ValidationError(field).code,
      AiGenerationError().code, AiServiceUnavailable().code]
  {
  }

  /** A thrown value, as `handleError` inspects it: an object carrying `code` and
      `userMessage`, a `TypeError`, some other `Error`, or anything else. */
  datatype Thrown =
    | ErrorShaped(error: AppError)
    | TypeErr(message: string)
    | Err(message: string)
    | Other

  /** `handleError`. */
  function HandleError(thrown: Thrown): AppError
  {
    match thrown
    case ErrorShaped(e) => e
    case TypeErr(m) => if Contains(m, "fetch") then NetworkError() else ParseError(m)
    case Err(m) => ApiError(Some(m))
    case Other => ApiError(Some("Unknown error occurred"))
  }

  /** How `handleError` classifies a thrown value that is not already an error record,
      read off the code of its result: a type error mentioning "fetch" is a network
      failure, any other type error a parse failure carrying its message, any other
      value an API failure. The type-error test comes first. */
  lemma HandleErrorClassifies(thrown: Thrown)
    requires !thrown.ErrorShaped?
    ensures HandleError(thrown).code == "NETWORK_ERROR"
            <==> thrown.TypeErr? && Contains(thrown.message, "fetch")
    ensures HandleError(thrown).code == "PARSE_ERROR"
            <==> thrown.TypeErr? && !Contains(thrown.message, "fetch")
    ensures HandleError(thrown).code == "API_ERROR" <==> thrown.Err? || thrown.Other?
    ensures thrown.TypeErr? && !Contains(thrown.message, "fetch")
            ==> HandleError(thrown).message == "Failed to parse response: " + thrown.message
    ensures thrown.Err? && thrown.message != []
            ==> HandleError(thrown).message == "API Error: " + thrown.message
    ensures thrown.Err? && thrown.message == []
            ==> HandleError(thrown).message == "API Error: Unknown error"
    ensures thrown.Other? ==> HandleError(thrown).message == "API Error: Unknown error occurred"
  {
    match thrown
    case TypeErr(m) =>
    case Err(m) =>
      if m == [] {
        UnknownErrorText();
      }
    case Other =>
      UnknownOccurredText();
  }

  lemma UnknownErrorText()
    ensures "API Error: " + "Unknown error" == "API Error: Unknown error"
  {
  }

  lemma UnknownOccurredText()
    ensures "API Error: " + "Unknown error occurred" == "API Error: Unknown error occurred"
  {
  }

  /** An error record passes through unchanged, so handling twice is handling once. */
  lemma HandleErrorIdempotent(thrown: Thrown)
    ensures HandleError(ErrorShaped(HandleError(thrown))) == HandleError(thrown)
    ensures thrown.ErrorShaped? ==> HandleError(thrown) == thrown.error
  {
  }

  /** What `response.json()` gave: no value (the body is not JSON, or is JSON `null`,
      whose `error` property cannot be read), a value without a truthy `error` field,
      or one whose `error` field is a string. */
  datatype FetchBody = ParseFailed | NoErrorField | ErrorField(text: string)

  /** `handleFetchError` for a response with this status and body. */
  function HandleFetchError(status: nat, body: FetchBody): (e: AppError)
    ensures e.code == "FETCH_ERROR" && e.statusCode == Some(status)
  {
    match body
    case ParseFailed =>
      CreateError("FETCH_ERROR", "HTTP " + NatToString(status),
        "Request failed with status " + NatToString(status) + ". Please try again.", Some(status))
    case NoErrorField =>
      CreateError("FETCH_ERROR", "Request failed", "Something went wrong. Please try again.", Some(status))
    case ErrorField(text) =>
      if text == [] then
        CreateError("FETCH_ERROR", "Request failed", "Something went wrong. Please try again.", Some(status))
      else
        CreateError("FETCH_ERROR", text, text, Some(status))
  }

  /** A readable body with a non-empty error text shows that text both internally and
      to the user; an empty or missing one falls back to the fixed texts. */
  lemma FetchErrorText(status: nat, body: FetchBody)
    requires !body.ParseFailed?
    ensures body.ErrorField? && body.text != [] ==>
      HandleFetchError(status, body).message == body.text &&
      HandleFetchError(status, body).userMessage == body.text
    ensures body.NoErrorField? || body.text == [] ==>
      HandleFetchError(status, body).message == "Request failed" &&
      HandleFetchError(status, body).userMessage == "Something went wrong. Please try again."
  {
  }

  /** An unreadable body gives "HTTP <status>", and the status can be read back from
      the message; the user is shown the status inside a fixed sentence. */
  lemma FetchStatusInMessage(status: nat)
    ensures var m := HandleFetchError(status, ParseFailed).message;
      |m| > 5 && m[..5] == "HTTP " &&
      (forall i :: 5 <= i < |m| ==> '0' <= m[i] <= '9') &&
      DecimalValue(m[5..]) == status
    ensures HandleFetchError(status, ParseFailed).userMessage
            == "Request failed with status " + NatToString(status) + ". Please try again."
  {
    var m := HandleFetchError(status, ParseFailed).message;
    assert m[5..] == NatToString(status);
    DecimalRoundTrip(status);
  }

  /** Two unreadable responses give the same message only for the same status. */
  lemma FetchStatusInjective(a: nat, b: nat)
    ensures HandleFetchError(a, ParseFailed).message == HandleFetchError(b, ParseFailed).message <==> a == b
  {
    if HandleFetchError(a, ParseFailed).message == HandleFetchError(b, ParseFailed).message {
      FetchStatusInMessage(a);
      FetchStatusInMessage(b);
    }
  }

  datatype Variant = Destructive | Default

  /** The configuration handed to `toast`. */
  datatype Toast = Toast(title: string, description: string, variant: Variant)

  /** `getErrorToastConfig`: shows the user-facing text, never the internal message. */
  function ErrorToast(error: AppError): (t: Toast)
    ensures t.title == "Error" && t.variant == Destructive
    ensures t.description == error.userMessage
  {
    Toast("Error", error.userMessage, Destructive)
  }

  /** `getSuccessToastConfig`. */
  function SuccessToast(message: string): (t: Toast)
    ensures t.title == "Success" && t.variant == Default
    ensures t.description == message
  {
    Toast("Success", message, Default)
  }

  /** Two errors give the same toast exactly when their user-facing texts agree; the
      code, internal message and status do not show. A success toast is never an error
      toast, and it shows its message as given. */
  lemma ToastsShowUserText(a: AppError, b: AppError, m: string, m': string)
    ensures ErrorToast(a) == ErrorToast(b) <==> a.userMessage == b.userMessage
    ensures SuccessToast(m) == SuccessToast(m') <==> m == m'
    ensures ErrorToast(a) != SuccessToast(m)
  {
  }
}
