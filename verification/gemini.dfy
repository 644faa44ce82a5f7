/** How the extension's background worker turns Gemini's answers and failures
    into a branch name or a user-facing error: the SDK-based client of
    chrome-extension/src/background.js and the HTTP client of
    chrome-extension/background.js. The network and the SDK are outcomes
    given as parameters. */
module Gemini {
  import opened Outcomes
  import opened Strings
  import opened Rules
  import opened BranchNames

  const NoKeyMessage := "Gemini API key not configured"

  // -----------------------------------------------------------------------
  // The SDK client

  const InvalidKeyMessage := "Error 401: Invalid API key - please reconfigure your Gemini API key."
  const ApiDisabledMessage := "Error 403: Gemini API not enabled. Enable the Generative Language API in Google Cloud Console."
  const QuotaMessage := "Error 429: Quota limit exceeded. You have reached your API usage limit."
  const EmptyResponseMessage := "Empty response from Gemini API"
  const AllModelsFailedMessage := "All Gemini models failed. Please check your API key and try again."

  /** The models tried, in order, when the configured one is not found. */
  const FallbackModels := ["gemini-1.5-flash", "gemini-1.5-pro", "gemini-pro"]

  /** What one `generateContent` call does: throw with a message, or answer
      with the text of the response. */
  datatype SdkCall = SdkThrew(message: string) | SdkText(text: string)

  /** What the error handler does with a caught error. */
  datatype SdkReaction = Fail(message: string) | UseFallback | Rethrow

  /** The handler's tests as an ordered rule table. */
  const SdkRules: seq<Rule<SdkReaction>> :=
    [ Rule(["API_KEY_INVALID"], Fail(InvalidKeyMessage)),
      Rule(["PERMISSION_DENIED"], Fail(ApiDisabledMessage)),
      Rule(["QUOTA_EXCEEDED"], Fail(QuotaMessage)),
      Rule(["MODEL_NOT_FOUND"], UseFallback) ]

  /** The catch block of `generateBranchName`, written as the source's chain. */
  function ClassifySdkError(message: string): (r: SdkReaction)
    ensures r.Fail? ==> r.message in [InvalidKeyMessage, ApiDisabledMessage, QuotaMessage]
    ensures r.Rethrow? ==> !Contains(message, "MODEL_NOT_FOUND")
  {
    if Contains(message, "API_KEY_INVALID") then Fail(InvalidKeyMessage)
    else if Contains(message, "PERMISSION_DENIED") then Fail(ApiDisabledMessage)
    else if Contains(message, "QUOTA_EXCEEDED") then Fail(QuotaMessage)
    else if Contains(message, "MODEL_NOT_FOUND") then UseFallback
    else Rethrow
  }

  /** The chain agrees with the rule table; an error no rule recognises is
      rethrown unchanged. */
  lemma ClassifySdkErrorIsFirstMatch(message: string)
    ensures ClassifySdkError(message)
            == match FirstMatch(message, SdkRules)
               case Some(reaction) => reaction
               case None => Rethrow
  {
    MentionsOne(message, "API_KEY_INVALID");
    MentionsOne(message, "PERMISSION_DENIED");
    MentionsOne(message, "QUOTA_EXCEEDED");
    MentionsOne(message, "MODEL_NOT_FOUND");
    var rules := SdkRules;
    assert MentionsAny(message, rules[0].patterns) <==> Contains(message, "API_KEY_INVALID");
    assert MentionsAny(message, rules[1].patterns) <==> Contains(message, "PERMISSION_DENIED");
    assert MentionsAny(message, rules[2].patterns) <==> Contains(message, "QUOTA_EXCEEDED");
    assert MentionsAny(message, rules[3].patterns) <==> Contains(message, "MODEL_NOT_FOUND");
  }

  /** Every pattern holds an underscore, so a message without one matches no
      rule and reaches the caller unchanged; the SDK's own error for an empty
      answer is such a message. */
  lemma NoUnderscoreIsRethrown(m: string)
    requires '_' !in m
    ensures ClassifySdkError(m) == Rethrow
  {
    var p1, p2, p3, p4 := "API_KEY_INVALID", "PERMISSION_DENIED", "QUOTA_EXCEEDED", "MODEL_NOT_FOUND";
    assert p1[3] == '_' && p2[10] == '_' && p3[5] == '_' && p4[5] == '_';
    NoUnderscoreNoMatch(m, p1, 3);
    NoUnderscoreNoMatch(m, p2, 10);
    NoUnderscoreNoMatch(m, p3, 5);
    NoUnderscoreNoMatch(m, p4, 5);
  }

  lemma EmptyResponseIsRethrown(m: string)
    requires m == EmptyResponseMessage
    ensures ClassifySdkError(m) == Rethrow
  {
    NoUnderscoreIsRethrown(m);
  }

  /** A pattern holding `_` does not occur in a text without one. */
  lemma NoUnderscoreNoMatch(m: string, pat: string, k: nat)
    requires k < |pat| && pat[k] == '_' && '_' !in m
    ensures !Contains(m, pat)
  {
    if Contains(m, pat) {
      ContainsWitness(m, pat);
    }
  }

  /** The name the SDK client suggests for an answer text: trimmed, and
      `None` when nothing is left. */
  function Answer(call: SdkCall): (r: Option<string>)
    ensures r.Some? ==> call.SdkText? && r.value == Trim(call.text) && r.value != ""
    ensures r.None? ==> call.SdkThrew? || Trim(call.text) == ""
  {
    match call
    case SdkThrew(_) => None
    case SdkText(t) => if Trim(t) != "" then Some(Trim(t)) else None
  }

  /** The first non-blank answer among the fallback models' calls. */
  function FirstAnswer(calls: seq<SdkCall>): (r: Option<string>)
    ensures r.None? <==> forall i :: 0 <= i < |calls| ==> Answer(calls[i]).None?
    ensures r.Some? ==> exists i :: 0 <= i < |calls| && Answer(calls[i]) == r
                                    && forall j :: 0 <= j < i ==> Answer(calls[j]).None?
  {
    if |calls| == 0 then None
    else if Answer(calls[0]).Some? then Answer(calls[0])
    else
      var r := FirstAnswer(calls[1..]);
      assert forall i :: 1 <= i < |calls| ==> calls[1..][i - 1] == calls[i];
      r
  }

  /** `tryFallbackModel`: the first fallback model whose answer is not blank
      supplies the name; when none does, every model has failed. */
  function TryFallbackModels(calls: seq<SdkCall>): (r: Result<string, string>)
    ensures r.Err? <==> forall i :: 0 <= i < |calls| ==> Answer(calls[i]).None?
    ensures r.Err? ==> r.error == AllModelsFailedMessage
    ensures r.Ok? ==> FirstAnswer(calls).Some? && r.value == Sanitize(FirstAnswer(calls).value)
  {
    match FirstAnswer(calls)
    case Some(text) => Ok(Sanitize(text))
    case None => Err(AllModelsFailedMessage)
  }

  /** `generateBranchName` of the SDK client. `primary` is what the configured
      model does; `fallbacks` what each fallback model does, in order. */
  function GenerateWithSdk(apiKey: string, primary: SdkCall, fallbacks: seq<SdkCall>): (r: Result<string, string>)
    requires |fallbacks| == |FallbackModels|
    ensures apiKey == "" ==> r == Err(NoKeyMessage)
    ensures apiKey != "" && Answer(primary).Some? ==> r == Ok(Sanitize(Answer(primary).value))
    ensures apiKey != "" && primary.SdkText? && Answer(primary).None? ==> r == Err(EmptyResponseMessage)
    ensures apiKey != "" && primary.SdkThrew? ==>
              match ClassifySdkError(primary.message)
              case Fail(m) => r == Err(m)
              case UseFallback => r == TryFallbackModels(fallbacks)
              case Rethrow => r == Err(primary.message)
    ensures r.Ok? ==> '/' in r.value && AllAllowed(r.value)
  {
    if apiKey == "" then Err(NoKeyMessage)
    else
      var attempt: Result<string, string> :=
        match primary
        case SdkThrew(m) => Err(m)
        case SdkText(t) => if Trim(t) == "" then Err(EmptyResponseMessage) else Ok(Sanitize(Trim(t)));
      if attempt.Ok? then attempt
      else
        EmptyResponseIsRethrown(EmptyResponseMessage);
        match ClassifySdkError(attempt.error)
        case Fail(m) => Err(m)
        case UseFallback => TryFallbackModels(fallbacks)
        case Rethrow => Err(attempt.error)
  }

  // -----------------------------------------------------------------------
  // The HTTP client

  /** What a successful response's body yields for
      `data.candidates?.[0]?.content?.parts?.[0]?.text?.trim()`: nothing when
      a link of the chain is missing, the text of the first candidate's first
      part, or the error thrown on the way (the body is not JSON, or `text` is
      not a string) with its message. */
  datatype Candidate = NoCandidate | CandidateText(text: string) | Unparsable(message: string)

  /** What `fetch` yields: a rejection with a message, or a response with its
      status, its body text, and what its body gives as the candidate. */
  datatype FetchReply =
    | Unreachable(message: string)
    | Answered(status: int, body: string, candidate: Candidate)

  /** `response.ok`: a status in the range 200 to 299. */
  predicate Ok2xx(status: int) {
    200 <= status <= 299
  }

  const InvalidResponseMessage := "Invalid response from Gemini API"

  /** The message thrown for a non-OK response: the status, then a fixed
      explanation for the statuses the client knows and the response body for
      any other. */
  function StatusMessage(status: int, body: string): (m: string)
    ensures "Error " + IntToDecimal(status) + ": " <= m
    ensures status !in ExplainedStatuses ==> Contains(m, body)
  {
    var head := "Error " + IntToDecimal(status) + ": ";
    var m := head + StatusDetail(status, body);
    assert status !in ExplainedStatuses ==> Contains(m, body) by {
      if status !in ExplainedStatuses {
        assert body <= m[|head|..];
        ContainsAt(m, body, |head|);
      }
    }
    m
  }

  /** The statuses with a fixed explanation. */
  const ExplainedStatuses: set<int> := {400, 401, 403, 404, 429, 500}

  /** For a status with a fixed explanation the response body is not shown:
      the message is the same whatever the body. */
  lemma ExplainedStatusIgnoresBody(status: int, bodyA: string, bodyB: string)
    requires status in ExplainedStatuses
    ensures StatusMessage(status, bodyA) == StatusMessage(status, bodyB)
  {
    assert StatusDetail(status, bodyA) == StatusDetail(status, bodyB);
  }

  function StatusDetail(status: int, body: string): string {
    match status
    case 400 => "Invalid API key or incorrect parameters. Please check your Gemini API key configuration."
    case 401 => "API key not authorized. Your API key may be invalid or expired. Please reconfigure your API key."
    case 403 => "Gemini API not enabled. Enable the Generative Language API in Google Cloud Console or check your API key permissions."
    case 404 => "Gemini model not found. The API endpoint may have changed. Please check if you are using the correct model."
    case 429 => "Quota limit exceeded. You have reached your API usage limit. Try again later or check your quota in Google Cloud Console."
    case 500 => "Internal Gemini API error. This is a temporary server issue. Please try again in a few moments."
    case _ => body + ". Please check your API key configuration."
  }

  /** The message names the status, so different statuses never share one. */
  lemma StatusMessageIdentifiesStatus(a: int, bodyA: string, b: int, bodyB: string)
    requires StatusMessage(a, bodyA) == StatusMessage(b, bodyB)
    ensures a == b
  {
    NumberAfterError(a, bodyA);
    NumberAfterError(b, bodyB);
    ColonEndsNumber(IntToDecimal(a), IntToDecimal(b), StatusMessage(a, bodyA)[6..]);
    IntToDecimalInjective(a, b);
  }

  /** After `Error ` the message holds the status and a colon. */
  lemma NumberAfterError(status: int, body: string)
    ensures |StatusMessage(status, body)| >= 6
    ensures IntToDecimal(status) + ":" <= StatusMessage(status, body)[6..]
    ensures ':' !in IntToDecimal(status)
  {
    NoColonInDecimal(status);
    WordAfterPrefix("Error ", IntToDecimal(status), StatusMessage(status, body));
  }

  /** When `w + x + ": "` starts `m`, `x + ":"` starts what follows `w`. */
  lemma WordAfterPrefix(w: string, x: string, m: string)
    requires w + x + ": " <= m
    ensures |m| >= |w| && x + ":" <= m[|w|..]
  {
    assert (w + x + ": ")[|w|..|w| + |x| + 1] == x + ":";
  }

  /** Two colon-free words each followed by `:` at the start of the same text
      are the same word. */
  lemma ColonEndsNumber(x: string, y: string, t: string)
    requires ':' !in x && ':' !in y
    requires x + ":" <= t && y + ":" <= t
    ensures x == y
  {
    ColonAfter(x, t);
    ColonAfter(y, t);
  }

  /** A colon-free word followed by `:` at the start of `t` is the part of `t`
      before its first colon. */
  lemma ColonAfter(x: string, t: string)
    requires ':' !in x && x + ":" <= t
    ensures |x| < |t| && t[|x|] == ':' && x == t[..|x|]
    ensures forall k :: 0 <= k < |x| ==> t[k] != ':'
  {
    assert forall k :: 0 <= k < |x| ==> t[k] == x[k];
  }

  lemma NoColonInDecimal(i: int)
    ensures ':' !in IntToDecimal(i)
  {
  }

  /** `generateBranchName` of the HTTP client. */
  function GenerateWithHttp(apiKey: string, reply: FetchReply): (r: Result<string, string>)
    ensures apiKey == "" ==> r == Err(NoKeyMessage)
    ensures apiKey != "" && reply.Unreachable? ==> r == Err(reply.message)
    ensures apiKey != "" && reply.Answered? && !Ok2xx(reply.status) ==> r == Err(StatusMessage(reply.status, reply.body))
    ensures apiKey != "" && reply.Answered? && Ok2xx(reply.status) && reply.candidate.NoCandidate?
            ==> r == Err(InvalidResponseMessage)
    ensures apiKey != "" && reply.Answered? && Ok2xx(reply.status) && reply.candidate.CandidateText?
            ==> (r.Ok? <==> Trim(reply.candidate.text) != "")
                && (r.Err? ==> r.error == InvalidResponseMessage)
    ensures apiKey != "" && reply.Answered? && Ok2xx(reply.status) && reply.candidate.Unparsable?
            ==> r == Err(reply.candidate.message)
    ensures r.Ok? ==> apiKey != "" && reply.Answered? && Ok2xx(reply.status) && reply.candidate.CandidateText?
                      && r.value == Sanitize(Trim(reply.candidate.text))
  {
    if apiKey == "" then Err(NoKeyMessage)
    else match reply
      case Unreachable(m) => Err(m)
      case Answered(status, body, candidate) =>
        if !Ok2xx(status) then Err(StatusMessage(status, body))
        else match candidate
          case NoCandidate => Err(InvalidResponseMessage)
          case CandidateText(t) => if Trim(t) == "" then Err(InvalidResponseMessage) else Ok(Sanitize(Trim(t)))
          case Unparsable(m) => Err(m)
  }

  /** An HTTP failure and a missing answer are told apart: the status message
      never reads like the missing-answer message. */
  lemma HttpFailuresAreDistinct(status: int, body: string)
    ensures StatusMessage(status, body) != InvalidResponseMessage
  {
    var m := StatusMessage(status, body);
    assert m[0] == 'E';
    assert InvalidResponseMessage[0] == 'I';
  }

  // -----------------------------------------------------------------------
  // Connection test of the HTTP client

  datatype Check = Check(success: bool, message: string)
  datatype Checks = Checks(geminiAPI: Check, localServer: Check)

  const NoKeyCheckMessage := "API key not configured. Please set up your Gemini API key."

  /** The Gemini half of `handleTestConnection`. */
  function GeminiCheck(apiKey: string, reply: FetchReply): (c: Check)
    ensures c.success <==> apiKey != "" && reply.Answered? && Ok2xx(reply.status)
    ensures apiKey == "" ==> c.message == NoKeyCheckMessage
    ensures apiKey != "" && reply.Unreachable? ==> c.message == "Connection failed - check API key"
    ensures apiKey != "" && reply.Answered? && !Ok2xx(reply.status) ==>
              c.message == match reply.status
                           case 401 => "Invalid API key - please reconfigure"
                           case 403 => "API not enabled or no permissions"
                           case 429 => "Quota exceeded - try again later"
                           case _ => "Error " + IntToDecimal(reply.status) + " - check API key"
  {
    if apiKey == "" then Check(false, NoKeyCheckMessage)
    else match reply
      case Unreachable(_) => Check(false, "Connection failed - check API key")
      case Answered(status, _, _) =>
        if Ok2xx(status) then Check(true, "Gemini API working")
        else if status == 401 then Check(false, "Invalid API key - please reconfigure")
        else if status == 403 then Check(false, "API not enabled or no permissions")
        else if status == 429 then Check(false, "Quota exceeded - try again later")
        else Check(false, "Error " + IntToDecimal(status) + " - check API key")
  }

  /** The local-server half of `handleTestConnection`, from `GET /health`. */
  function ServerCheck(health: FetchReply): (c: Check)
    ensures c.success <==> health.Answered? && Ok2xx(health.status)
    ensures health.Unreachable? ==> c.message == "Local server is not running"
  {
    match health
    case Unreachable(_) => Check(false, "Local server is not running")
    case Answered(status, _, _) =>
      if Ok2xx(status) then Check(true, "Local server working") else Check(false, "Server returned error")
  }

  /** `handleTestConnection`: both checks always run, and neither affects the other. */
  function TestConnection(apiKey: string, gemini: FetchReply, health: FetchReply): (r: Checks)
    ensures r.geminiAPI == GeminiCheck(apiKey, gemini)
    ensures r.localServer == ServerCheck(health)
  {
    Checks(GeminiCheck(apiKey, gemini), ServerCheck(health))
  }

  /** Every failing Gemini check names the trouble in its own words; a status
      without a dedicated message is quoted in the message. */
  lemma UnlistedStatusIsQuoted(apiKey: string, reply: FetchReply)
    requires apiKey != "" && reply.Answered? && !Ok2xx(reply.status)
    requires reply.status !in {401, 403, 429}
    ensures Contains(GeminiCheck(apiKey, reply).message, IntToDecimal(reply.status))
  {
    var m := GeminiCheck(apiKey, reply).message;
    assert IntToDecimal(reply.status) <= m[6..];
    ContainsAt(m, IntToDecimal(reply.status), 6);
  }
}
