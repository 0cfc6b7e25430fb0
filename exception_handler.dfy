/** The controller advice that turns every failure raised while serving a
    request into one JSON error response (MyExceptionHandler).

    Spring's choice of the most specific `@ExceptionHandler` is modelled by a
    closed datatype of failures and one `match`; each handler method is a
    branch that funnels into the shared formatter `ToErrorResponse`. */
module ExceptionHandler {
  import opened Wrappers
  import opened JavaText

  /** The message used when a failure carries no reason. */
  const DEFAULT_MESSAGE: string := "Oups, Houston, we have a problem"

  /** `MediaType.APPLICATION_JSON`. */
  const APPLICATION_JSON: string := "application/json"

  /** Numeric values of the `HttpStatus` constants the handler and its
      callers use. */
  const FORBIDDEN: int := 403
  const UNAUTHORIZED: int := 401
  const I_AM_A_TEAPOT: int := 418
  const INTERNAL_SERVER_ERROR: int := 500

  /** The replacement string given to `replaceAll` for a double quote: the
      two characters backslash and double quote. */
  const QUOTE_REPLACEMENT: string := "\\\""

  /** The lines of the response text block as they stand in the source,
      indentation included; the last is the indentation in front of the
      closing delimiter. */
  const ERROR_BODY_LINES: seq<string> :=
    [Spaces(24) + "{", Spaces(24 + 4) + MESSAGE_LINE, Spaces(24) + "}", Spaces(24)]

  /** The middle line of the text block, without its indentation. */
  const MESSAGE_LINE: string := "\"message\": \"" + "%s" + "\""

  /** What the body holds before and after the message. */
  const BODY_PREFIX: string := "{" + "\n" + Spaces(4) + "\"message\": \""
  const BODY_SUFFIX: string := "\"" + "\n" + "}"

  /** A `@ResponseStatus` annotation on an exception class. `value` and
      `code` are aliases for each other only under Spring's own annotation
      lookup; read through plain reflection, as the handler does, each is
      just the field written in the annotation or its default (500).
      `reason` defaults to the empty string. */
  datatype ResponseStatusAnn = ResponseStatusAnn(value: int, code: int, reason: string)

  /** `@ResponseStatus` with every field left at its default. */
  const DEFAULT_RESPONSE_STATUS: ResponseStatusAnn :=
    ResponseStatusAnn(INTERNAL_SERVER_ERROR, INTERNAL_SERVER_ERROR, "")

  /** The annotation on TeaPotException: it sets `value` to 418 and
      `reason`, and leaves `code` at its default 500. Since the handler reads
      `code`, a teapot failure is answered with 500, not 418. */
  const TEA_POT_STATUS: ResponseStatusAnn :=
    DEFAULT_RESPONSE_STATUS.(value := I_AM_A_TEAPOT, reason := "No more tea")

  /** A failure that reaches the handler; `None` stands for a null string.
      - StatusEx: a ResponseStatusException with its status and reason;
      - PrivateAccess: a PrivateAccessException with its message;
      - Other: any other exception that no inherited handler claims, with
        its message and the `@ResponseStatus` annotation of its class, if
        there is one. */
  datatype Failure =
    | StatusEx(code: int, reason: Option<string>)
    | PrivateAccess(message: Option<string>)
    | Other(message: Option<string>, annotation: Option<ResponseStatusAnn>)

  /** The response the handler builds: status, content type and body. */
  datatype ErrorResponse = ErrorResponse(status: int, contentType: string, body: string)

  /** The body that carries `message`. */
  function BodyOf(message: string): string {
    BODY_PREFIX + message + BODY_SUFFIX
  }

  /** Reads the message back out of a body; `None` for a string that is not
      shaped like an error body. */
  function ParseMessage(body: string): Option<string> {
    if |body| >= |BODY_PREFIX| + |BODY_SUFFIX|
       && body[..|BODY_PREFIX|] == BODY_PREFIX
       && body[|body| - |BODY_SUFFIX|..] == BODY_SUFFIX
    then Some(body[|BODY_PREFIX|..|body| - |BODY_SUFFIX|])
    else None
  }

  /** The fixed parts of a body, character for character: an opening brace,
      a line feed, four spaces and `"message": "` before the message; a
      quote, a line feed and a closing brace after it. */
  lemma BodyFrame()
    ensures BODY_PREFIX == "{\n    \"message\": \""
    ensures BODY_SUFFIX == "\"\n}"
  {
    assert Spaces(4) == "    ";
  }

  /** Parsing recovers exactly the message a body was made from, and only
      error bodies parse. */
  lemma ParseMessageIff(body: string, message: string)
    ensures ParseMessage(body) == Some(message) <==> body == BodyOf(message)
  {
    if body == BodyOf(message) {
      assert body[..|BODY_PREFIX|] == BODY_PREFIX;
      assert body[|body| - |BODY_SUFFIX|..] == BODY_SUFFIX;
      assert body[|BODY_PREFIX|..|body| - |BODY_SUFFIX|] == message;
    }
    if ParseMessage(body) == Some(message) {
      assert body == body[..|BODY_PREFIX|] + body[|BODY_PREFIX|..|body| - |BODY_SUFFIX|] + body[|body| - |BODY_SUFFIX|..];
    }
  }

  /** Different messages give different bodies. */
  lemma BodyOfInjective(m1: string, m2: string)
    ensures BodyOf(m1) == BodyOf(m2) ==> m1 == m2
  {
    ParseMessageIff(BodyOf(m1), m1);
    ParseMessageIff(BodyOf(m2), m2);
  }

  /** Under Java's replacement-string rules the backslash only escapes the
      quote that follows it, so each quote is replaced by a bare quote. */
  lemma QuoteReplacementIsBareQuote()
    ensures ExpandReplacement(QUOTE_REPLACEMENT, "\"") == Some("\"")
  {
    var r := QUOTE_REPLACEMENT;
    assert |r| == 2 && r[0] == '\\' && r[1] == '"' && r[2..] == [];
    assert ExpandReplacement(r[2..], "\"") == Some([]);
    assert ExpandReplacement(r, "\"") == Prepend([r[1]], ExpandReplacement(r[2..], "\""));
    assert [r[1]] + [] == "\"";
  }

  /** `reason.replaceAll("\"", "\\\"")` never fails and gives `reason` back. */
  lemma QuoteEscapeIsIdentity(reason: string)
    ensures ReplaceAll(reason, '"', QUOTE_REPLACEMENT) == Some(reason)
  {
    QuoteReplacementIsBareQuote();
    ReplaceCharByItself(reason, '"');
  }

  /** The quote "escape" applied to a non-null reason. */
  function EscapeQuotes(reason: string): (escaped: string)
    ensures escaped == reason
  {
    QuoteEscapeIsIdentity(reason);
    ReplaceAll(reason, '"', QUOTE_REPLACEMENT).value
  }

  /** The text block, with its incidental indentation (24 columns, that of
      the braces and of the closing delimiter) stripped, is the template of
      the body followed by a line feed. */
  lemma ErrorBodyTemplate()
    ensures StripIndent(ERROR_BODY_LINES) == BODY_PREFIX + "%s" + (BODY_SUFFIX + "\n")
  {
    assert MESSAGE_LINE[0] == '"' && MESSAGE_LINE[|MESSAGE_LINE| - 1] == '"';
    StripIndentOfThreeLines(24, 4, "{", MESSAGE_LINE, "}");
    ThreeLinesAroundPlaceholder("{", Spaces(4), "\"message\": \"", "\"", "}");
  }

  /** The body `toErrorResponse` builds around an already escaped reason:
      the text block formatted with it, then trimmed. It is exactly the
      message between the fixed prefix and suffix. */
  function ErrorBody(escaped: string): (body: string)
    ensures body == BodyOf(escaped)
  {
    FormattedBody(escaped);
    TrimmedBody(escaped);
    Trim(Format(StripIndent(ERROR_BODY_LINES), escaped).value)
  }

  /** Formatting the stripped text block with a message gives the body that
      carries it, followed by a line feed. */
  lemma FormattedBody(escaped: string)
    ensures Format(StripIndent(ERROR_BODY_LINES), escaped) == Some(BodyOf(escaped) + "\n")
  {
    var template := BODY_PREFIX + "%s" + (BODY_SUFFIX + "\n");
    calc {
      Format(StripIndent(ERROR_BODY_LINES), escaped);
      { ErrorBodyTemplate(); }
      Format(template, escaped);
      { NoFormatInBody(); FormatSingle(BODY_PREFIX, BODY_SUFFIX + "\n", escaped); }
      Some(BODY_PREFIX + escaped + (BODY_SUFFIX + "\n"));
      { BodyThenNewline(escaped); }
      Some(BodyOf(escaped) + "\n");
    }
  }

  /** A body followed by a line feed, regrouped around the message. */
  lemma BodyThenNewline(escaped: string)
    ensures BODY_PREFIX + escaped + (BODY_SUFFIX + "\n") == BodyOf(escaped) + "\n"
  {
  }

  /** The body's fixed parts hold no format specifier. */
  lemma NoFormatInBody()
    ensures '%' !in BODY_PREFIX && '%' !in BODY_SUFFIX + "\n"
  {
  }

  /** A body starts with a brace and ends with one, so trimming it after a
      line feed removes just the line feed. */
  lemma TrimmedBody(escaped: string)
    ensures Trim(BodyOf(escaped) + "\n") == BodyOf(escaped)
  {
    var body := BodyOf(escaped);
    assert body[0] == BODY_PREFIX[0] == '{';
    assert body[|body| - 1] == BODY_SUFFIX[|BODY_SUFFIX| - 1] == '}';
    TrimDropsFinalNewline(body);
  }

  /** `toErrorResponse(int, String)`, reached from the `HttpStatus` and
      `HttpStatusCode` overloads, which only take the numeric value: the
      status is passed through unchecked, the content type is JSON and the
      message is the reason character for character, or the default
      message when the reason is null. */
  function ToErrorResponse(status: int, reason: Option<string>): (r: ErrorResponse)
    ensures r.status == status
    ensures r.contentType == APPLICATION_JSON
    ensures r.body == BodyOf(reason.GetOr(DEFAULT_MESSAGE))
    ensures ParseMessage(r.body) == Some(reason.GetOr(DEFAULT_MESSAGE))
  {
    var escaped := if reason.None? then DEFAULT_MESSAGE else EscapeQuotes(reason.value);
    ParseMessageIff(BodyOf(escaped), escaped);
    ErrorResponse(status, APPLICATION_JSON, ErrorBody(escaped))
  }

  /** The three handler methods, as one dispatch over the failure kinds.
      Every failure gets a JSON response whose body carries a message. */
  function Handle(f: Failure): (r: ErrorResponse)
    ensures r.contentType == APPLICATION_JSON
    ensures ParseMessage(r.body).Some?
  {
    match f
    case StatusEx(code, reason) => ToErrorResponse(code, reason)
    case PrivateAccess(message) => ToErrorResponse(UNAUTHORIZED, message)
    case Other(_, Some(ann)) => ToErrorResponse(ann.code, Some(ann.reason))
    case Other(_, None) => ToErrorResponse(INTERNAL_SERVER_ERROR, Some(DEFAULT_MESSAGE))
  }

  /** A ResponseStatusException keeps its status, and its reason verbatim
      (double quotes included). */
  lemma StatusExceptionPassesThrough(code: int, reason: string)
    ensures Handle(StatusEx(code, Some(reason))).status == code
    ensures ParseMessage(Handle(StatusEx(code, Some(reason))).body) == Some(reason)
  {
    ParseMessageIff(Handle(StatusEx(code, Some(reason))).body, reason);
  }

  /** A null reason becomes the default message, never null nor "null". */
  lemma NullReasonGivesDefault(code: int)
    ensures Handle(StatusEx(code, None)).status == code
    ensures ParseMessage(Handle(StatusEx(code, None)).body) == Some(DEFAULT_MESSAGE)
    ensures DEFAULT_MESSAGE != "null"
  {
    ParseMessageIff(Handle(StatusEx(code, None)).body, DEFAULT_MESSAGE);
  }

  /** A PrivateAccessException is always 401, with its message or, when
      that is null, the default one. */
  lemma PrivateAccessIsUnauthorized(message: Option<string>)
    ensures Handle(PrivateAccess(message)).status == 401
    ensures ParseMessage(Handle(PrivateAccess(message)).body) == Some(message.GetOr(DEFAULT_MESSAGE))
  {
    ParseMessageIff(Handle(PrivateAccess(message)).body, message.GetOr(DEFAULT_MESSAGE));
  }

  /** Any other exception whose class has no `@ResponseStatus` is 500 with
      the default message; its own message is dropped. */
  lemma UnannotatedIsInternalError(message: Option<string>)
    ensures Handle(Other(message, None)).status == 500
    ensures ParseMessage(Handle(Other(message, None)).body) == Some(DEFAULT_MESSAGE)
    ensures Handle(Other(message, None)) == Handle(Other(None, None))
  {
    ParseMessageIff(Handle(Other(message, None)).body, DEFAULT_MESSAGE);
  }

  /** With a `@ResponseStatus` annotation the status is its `code` and the
      message its `reason`, even the empty default (it is not null, so the
      default message is not substituted). The exception's message and the
      annotation's `value` play no part. */
  lemma AnnotationDecides(message: Option<string>, ann: ResponseStatusAnn, otherValue: int)
    ensures Handle(Other(message, Some(ann))).status == ann.code
    ensures ParseMessage(Handle(Other(message, Some(ann))).body) == Some(ann.reason)
    ensures Handle(Other(message, Some(ann.(value := otherValue)))) == Handle(Other(None, Some(ann)))
  {
    ParseMessageIff(Handle(Other(message, Some(ann))).body, ann.reason);
  }

  /** TeaPotException, whatever its message: its annotation's `code` is the
      default 500 (only `value` says 418), its reason "No more tea". */
  lemma TeaPotIsInternalError(message: Option<string>)
    ensures Handle(Other(message, Some(TEA_POT_STATUS))).status == INTERNAL_SERVER_ERROR
    ensures Handle(Other(message, Some(TEA_POT_STATUS))).status != I_AM_A_TEAPOT
    ensures ParseMessage(Handle(Other(message, Some(TEA_POT_STATUS))).body) == Some("No more tea")
  {
    AnnotationDecides(message, TEA_POT_STATUS, TEA_POT_STATUS.value);
  }

  /** `/forbidden` raises a ResponseStatusException with 403 and a reason:
      both come through. */
  lemma ForbiddenEndpoint()
    ensures Handle(StatusEx(FORBIDDEN, Some("You shall not pass !")))
         == ErrorResponse(403, APPLICATION_JSON, BodyOf("You shall not pass !"))
  {
  }

  /** `/trouble` raises an IllegalArgumentException, whose class carries no
      annotation: 500 and the default message, not the exception's own. */
  lemma TroubleEndpoint()
    ensures Handle(Other(Some("Oups, I didn't expect this trouble"), None))
         == ErrorResponse(500, APPLICATION_JSON, BodyOf(DEFAULT_MESSAGE))
  {
  }

  /** Since quotes are not escaped, a reason can close the message string
      and add a field of its own: the body, written below as the fixed
      prefix, the reason and the fixed suffix, reads
      `{"message": "", "a": ""}`, valid JSON with a second member `"a"`
      that the reason injected. */
  lemma QuoteInjectsField()
    ensures Handle(StatusEx(400, Some("\", \"a\": \""))).body
         == "{\n    \"message\": \"" + "\", \"a\": \"" + "\"\n}"
  {
    var reason := "\", \"a\": \"";
    assert Handle(StatusEx(400, Some(reason))).body == BodyOf(reason);
    BodyFrame();
  }
}
