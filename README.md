# web-exception-handling, modelled in Dafny

This project models the two pieces of the demonstration service that make decisions. Everything else is Spring wiring.

- **`MyExceptionHandler`**, the controller advice. It turns a failure raised while serving a request into one response made of a status, a content type and a body. Three handlers cover three kinds of failure:
  - a `ResponseStatusException`;
  - a `PrivateAccessException`;
  - any other exception that no inherited `ResponseEntityExceptionHandler` handler claims, read through its class's `@ResponseStatus` annotation when it has one.

  All three funnel into one formatter, `toErrorResponse`. It does four things:
  - it replaces a null reason by `DEFAULT_MESSAGE`;
  - it runs a quote "escape" over the reason with `replaceAll`;
  - it formats the reason into a text block;
  - it trims the result.
- **`AccessVerifierFilter.doFilter`**, the servlet filter in front of every endpoint. It refuses a request whose lower-cased URI contains `secret2`, throwing the message `Stop ! This access is forbidden`. Any other request goes to the rest of the chain once, unchanged.

Both are pure decisions, so the model uses datatypes, functions and lemmas throughout.

| file | module | contents |
|---|---|---|
| `wrappers.dfy` | `Wrappers` | `Option`, which stands for a nullable Java reference and for a library call that may throw |
| `java_text.dfy` | `JavaText` | the parts of `java.lang.String` that `toErrorResponse` relies on |
| `exception_handler.dfy` | `ExceptionHandler` | the failure kinds, `toErrorResponse` and the dispatch over the three handlers |
| `access_verifier_filter.dfy` | `AccessFilter` | `doFilter` as a forward-or-reject decision |

`JavaText` covers these Java operations:
- `replaceAll` for a one-character literal pattern, with the replacement string's `\` and `$` rules;
- `formatted` for `%s` and `%%`;
- the compiler's incidental-indentation stripping of a text block;
- `trim`.

Main results:
- **The quote "escape" does nothing.** The replacement string `"\\\""` is the two characters `\"`. Under `Matcher` replacement rules the backslash escapes the quote, so every `"` is replaced by a bare `"` (`QuoteEscapeIsIdentity`). The body therefore carries the reason character for character, quotes included. A reason containing `"` is embedded unescaped, so the body may be invalid JSON, or valid JSON with fields the reason injected (`QuoteInjectsField`).
- **The text block yields the expected body.** After stripping, formatting and trimming, the body is exactly `{`, a line feed, four spaces, `"message": "`, the message, `"`, a line feed and `}` (`ErrorBodyTemplate`, `ErrorBody`, `BodyFrame`). `ParseMessage` reads the message back out of such a body, and `ParseMessageIff` shows that parsing and building are inverse.
- **A teapot failure is answered with 500, not 418.** `TeaPotException`'s annotation sets `value = I_AM_A_TEAPOT`. The handler reads `code()` through plain `getAnnotation`, and `code()` keeps its default of 500. Spring's alias between `value` and `code` applies only under Spring's own annotation lookup. So a teapot failure gets 500 with the message `No more tea` (`TeaPotIsInternalError`).
- **The filter rejects exactly the URIs that contain the marker.** A request is refused exactly when its URI contains `secret2` in any mix of ASCII case, at any position. Otherwise it is forwarded with the same request and response (`RejectsExactlyForbiddenUris`).

Three points where the code does something other than it appears to:
- `TeaPotException`'s annotation puts 418 in `value`, but the handler reads `code()`, so the response is 500 (`TeaPotIsInternalError`).
- The `replaceAll` at line 65 of `MyExceptionHandler.java` looks like a JSON escape but does nothing. A reason containing `"` is therefore embedded unescaped, so the body may be invalid JSON, or valid JSON with fields the reason injected (`QuoteEscapeIsIdentity`, `QuoteInjectsField`).
- The filter throws `UnauthorizedAccessException`, which is not the `PrivateAccessException` of the handler's 401 branch, and a filter runs outside the controller advice's reach. The two components are therefore modelled separately, with no end-to-end "secret2 gives 401" claim.

The handlers and the filter are deterministic: both are Dafny functions, so equal inputs give equal outputs.

## Model

| member | source | states |
|---|---|---|
| `ExceptionHandler.ToErrorResponse` | src/main/java/io/gofannon/webexceptionhandling/MyExceptionHandler.java:64-73 | the status is passed through unchecked; the content type is `application/json`; the body is the one built around the reason, or around `DEFAULT_MESSAGE` when the reason is null, and parsing it gives that message back |
| `ExceptionHandler.Handle` | src/main/java/io/gofannon/webexceptionhandling/MyExceptionHandler.java:35-54 | dispatch is total: every failure gets a JSON response whose body is a well-formed error body carrying a message |
| `ExceptionHandler.StatusExceptionPassesThrough` | src/main/java/io/gofannon/webexceptionhandling/MyExceptionHandler.java:35-38 | a ResponseStatusException keeps its numeric status and its reason verbatim |
| `ExceptionHandler.NullReasonGivesDefault` | src/main/java/io/gofannon/webexceptionhandling/MyExceptionHandler.java:33 | a null reason yields the message "Oups, Houston, we have a problem", which is not "null"; the status is still passed through |
| `ExceptionHandler.PrivateAccessIsUnauthorized` | src/main/java/io/gofannon/webexceptionhandling/MyExceptionHandler.java:41-44 | a PrivateAccessException always gives 401, with its message, or the default one when the message is null |
| `ExceptionHandler.UnannotatedIsInternalError` | src/main/java/io/gofannon/webexceptionhandling/MyExceptionHandler.java:47-54 | an exception without `@ResponseStatus` gives 500 and the default message; the response does not depend on the exception's own message |
| `ExceptionHandler.AnnotationDecides` | src/main/java/io/gofannon/webexceptionhandling/MyExceptionHandler.java:49-51 | with an annotation, the status is its `code` and the message its `reason`, even the empty default; the exception's message and the annotation's `value` have no effect |
| `ExceptionHandler.TeaPotIsInternalError` | src/main/java/io/gofannon/webexceptionhandling/TeaPotException.java:6 | a TeaPotException is answered with 500, not 418, and the message "No more tea" |
| `ExceptionHandler.ForbiddenEndpoint` | src/main/java/io/gofannon/webexceptionhandling/MyWebController.java:33-36 | `/forbidden` is answered with 403 and the body carrying "You shall not pass !" |
| `ExceptionHandler.TroubleEndpoint` | src/main/java/io/gofannon/webexceptionhandling/MyWebController.java:48-51 | `/trouble` is answered with 500 and the body carrying the default message, not the exception's own |
| `ExceptionHandler.QuoteReplacementIsBareQuote` | src/main/java/io/gofannon/webexceptionhandling/MyExceptionHandler.java:65 | the replacement string `\"` expands to a bare double quote |
| `ExceptionHandler.QuoteEscapeIsIdentity` | src/main/java/io/gofannon/webexceptionhandling/MyExceptionHandler.java:65 | the quote replacement never throws and returns its input unchanged |
| `ExceptionHandler.EscapeQuotes` | src/main/java/io/gofannon/webexceptionhandling/MyExceptionHandler.java:65 | the escaped reason equals the reason |
| `ExceptionHandler.QuoteInjectsField` | src/main/java/io/gofannon/webexceptionhandling/MyExceptionHandler.java:64-73 | a reason such as `", "a": "` closes the message string, so the body reads as the JSON object `{"message": "", "a": ""}`, with a field the reason injected |
| `ExceptionHandler.ErrorBodyTemplate` | src/main/java/io/gofannon/webexceptionhandling/MyExceptionHandler.java:68-72 | the text block, with its 24 columns of incidental indentation stripped, is the body's prefix, `%s`, the suffix and a final line feed |
| `ExceptionHandler.FormattedBody` | src/main/java/io/gofannon/webexceptionhandling/MyExceptionHandler.java:68-72 | formatting the stripped text block with a message gives the body carrying that message, followed by a line feed |
| `ExceptionHandler.TrimmedBody` | src/main/java/io/gofannon/webexceptionhandling/MyExceptionHandler.java:72 | `trim` removes exactly that final line feed, because a body starts and ends with a brace |
| `ExceptionHandler.NoFormatInBody` | src/main/java/io/gofannon/webexceptionhandling/MyExceptionHandler.java:68-72 | the fixed parts of the text block hold no format specifier besides the one `%s` |
| `ExceptionHandler.ErrorBody` | src/main/java/io/gofannon/webexceptionhandling/MyExceptionHandler.java:68-72 | text block, `formatted` and `trim` together give exactly the body built around the escaped reason |
| `ExceptionHandler.BodyFrame` | src/main/java/io/gofannon/webexceptionhandling/MyExceptionHandler.java:69-71 | before the message the body has `{`, a line feed, four spaces and `"message": "`; after it, `"`, a line feed and `}` |
| `ExceptionHandler.ParseMessageIff` | src/main/java/io/gofannon/webexceptionhandling/MyExceptionHandler.java:68-72 | parsing a body gives a message exactly when the body was built around that message |
| `ExceptionHandler.BodyOfInjective` | src/main/java/io/gofannon/webexceptionhandling/MyExceptionHandler.java:68-72 | different messages give different bodies |
| `JavaText.ReplaceAll` | src/main/java/io/gofannon/webexceptionhandling/MyExceptionHandler.java:65 | `replaceAll` fails (Java throws) exactly when the character occurs and the replacement string is malformed; without an occurrence it returns the string unchanged and never looks at the replacement |
| `JavaText.ExpandReplacement` | src/main/java/io/gofannon/webexceptionhandling/MyExceptionHandler.java:65 | the `Matcher` replacement rules: `\c` stands for `c`, `$0` for the match, malformed replacements fail; a replacement without `\` or `$` stands for itself |
| `JavaText.ReplaceChar` | src/main/java/io/gofannon/webexceptionhandling/MyExceptionHandler.java:65 | with a one-character replacement the result has the same length and holds the replacement wherever the string held the character and the original character everywhere else; a character absent from the replacement is absent from the result; a string without the character is unchanged |
| `JavaText.ReplaceCharByItself` | src/main/java/io/gofannon/webexceptionhandling/MyExceptionHandler.java:65 | replacing a character by itself changes nothing |
| `JavaText.FormatFrom` | src/main/java/io/gofannon/webexceptionhandling/MyExceptionHandler.java:72 | the `Formatter` rules for `%s` and `%%`, from any point of the template; text without `%` comes through unchanged |
| `JavaText.Format` | src/main/java/io/gofannon/webexceptionhandling/MyExceptionHandler.java:72 | `formatted` with one argument; a template without `%` comes through unchanged |
| `JavaText.FormatSingle` | src/main/java/io/gofannon/webexceptionhandling/MyExceptionHandler.java:72 | a template with one `%s` and no other `%` gets the argument in its place |
| `JavaText.FormatSingleFrom` | src/main/java/io/gofannon/webexceptionhandling/MyExceptionHandler.java:72 | the same from any point of the template before the `%s` |
| `JavaText.FormatPlaceholder` | src/main/java/io/gofannon/webexceptionhandling/MyExceptionHandler.java:72 | a `%s` at the head of the template takes the argument |
| `JavaText.Indent` | src/main/java/io/gofannon/webexceptionhandling/MyExceptionHandler.java:68-72 | a line's indentation is its leading run of white space and stops at the first visible character |
| `JavaText.StripTrailing` | src/main/java/io/gofannon/webexceptionhandling/MyExceptionHandler.java:68-72 | a prefix of the line with no white space at its end, having dropped only white space |
| `JavaText.MinIndent` | src/main/java/io/gofannon/webexceptionhandling/MyExceptionHandler.java:68-72 | the common indentation is at most that of the closing delimiter and of every non-blank line, and it equals one of them: the bound or the indentation of some non-blank line |
| `JavaText.DedentAll` | src/main/java/io/gofannon/webexceptionhandling/MyExceptionHandler.java:68-72 | every line is stripped by the same indentation, in order |
| `JavaText.JoinThreeLinesAndEmpty` | src/main/java/io/gofannon/webexceptionhandling/MyExceptionHandler.java:68-72 | a text block whose closing delimiter has its own line ends with a line feed |
| `JavaText.StripIndent` | src/main/java/io/gofannon/webexceptionhandling/MyExceptionHandler.java:68-72 | a text block is its lines, each stripped by the lines' common indentation (no more than that of the closing delimiter and of every non-blank line, and equal to one of them), joined by line feeds |
| `JavaText.IndentOfSpaces` | src/main/java/io/gofannon/webexceptionhandling/MyExceptionHandler.java:68-72 | `n` spaces in front of a visible character are an indentation of `n` |
| `JavaText.DedentDeeper` | src/main/java/io/gofannon/webexceptionhandling/MyExceptionHandler.java:70 | a line indented deeper than the common indentation keeps the difference |
| `JavaText.DedentIndented` | src/main/java/io/gofannon/webexceptionhandling/MyExceptionHandler.java:69-71 | a line at the common indentation loses all of it |
| `JavaText.DedentBlank` | src/main/java/io/gofannon/webexceptionhandling/MyExceptionHandler.java:72 | the closing delimiter's blank line sets the indentation and strips to nothing |
| `JavaText.StripIndentOfThreeLines` | src/main/java/io/gofannon/webexceptionhandling/MyExceptionHandler.java:68-72 | the stripping of a text block shaped like the one in the handler: outer indentation removed, inner indentation kept, every line ended by a line feed |
| `JavaText.StripIndentOfFourLines` | src/main/java/io/gofannon/webexceptionhandling/MyExceptionHandler.java:68-72 | three lines at or beyond the closing delimiter's indentation are each stripped by that indentation |
| `JavaText.ThreeLinesCommonIndent` | src/main/java/io/gofannon/webexceptionhandling/MyExceptionHandler.java:68-72 | lines no less indented than the closing delimiter leave its indentation as the common one |
| `JavaText.TrimStart` | src/main/java/io/gofannon/webexceptionhandling/MyExceptionHandler.java:72 | a suffix of the string that is empty or starts above U+0020 |
| `JavaText.TrimEnd` | src/main/java/io/gofannon/webexceptionhandling/MyExceptionHandler.java:72 | a prefix of the string that is empty or ends above U+0020 |
| `JavaText.Trim` | src/main/java/io/gofannon/webexceptionhandling/MyExceptionHandler.java:72 | `trim` returns the slice of its input at some index such that everything before and after it is at or below U+0020 and the slice itself neither starts nor ends with such a character; an already trimmed string is left alone |
| `JavaText.TrimStartDropsBlanks` | src/main/java/io/gofannon/webexceptionhandling/MyExceptionHandler.java:72 | the head that `TrimStart` drops is all at or below U+0020 |
| `JavaText.TrimEndDropsBlanks` | src/main/java/io/gofannon/webexceptionhandling/MyExceptionHandler.java:72 | the tail that `TrimEnd` drops is all at or below U+0020 |
| `JavaText.TrimEndStartIsTrim` | src/main/java/io/gofannon/webexceptionhandling/MyExceptionHandler.java:72 | trimming both ends leaves the slice of the original at the trimmed head's index, with only characters at or below U+0020 dropped on either side |
| `JavaText.TrimKeepsTrimmed` | src/main/java/io/gofannon/webexceptionhandling/MyExceptionHandler.java:72 | a string with visible characters at both ends loses nothing at either end |
| `JavaText.TrimDropsFinalNewline` | src/main/java/io/gofannon/webexceptionhandling/MyExceptionHandler.java:72 | trimming a string that starts and ends visibly, followed by a line feed, removes just the line feed |
| `AccessFilter.DoFilter` | src/main/java/io/gofannon/webexceptionhandling/AccessVerifierFilter.java:13-20 | a rejection carries "Stop ! This access is forbidden"; a forward passes on the very request and response it was given; a rejection forwards nothing |
| `AccessFilter.RejectsExactlyForbiddenUris` | src/main/java/io/gofannon/webexceptionhandling/AccessVerifierFilter.java:15-19 | a request is refused if and only if its URI holds "secret2" in any mix of ASCII case at some position; otherwise it is forwarded unchanged |
| `AccessFilter.ToLowerCase` | src/main/java/io/gofannon/webexceptionhandling/AccessVerifierFilter.java:15 | lower-casing keeps the length and maps each character on its own |
| `AccessFilter.LowerAscii` | src/main/java/io/gofannon/webexceptionhandling/AccessVerifierFilter.java:15 | lower-casing one character never leaves an upper-case ASCII letter, and changes only upper-case ASCII letters, each to the letter 32 code points above |
| `AccessFilter.Contains` | src/main/java/io/gofannon/webexceptionhandling/AccessVerifierFilter.java:15 | `contains` holds exactly when the pattern occurs at some index |
| `AccessFilter.DecisionDependsOnlyOnLowerCasedUri` | src/main/java/io/gofannon/webexceptionhandling/AccessVerifierFilter.java:14-15 | requests whose URIs agree once lower-cased get the same decision, whatever else they carry |
| `AccessFilter.RejectionSurvivesExtension` | src/main/java/io/gofannon/webexceptionhandling/AccessVerifierFilter.java:15 | a refused URI stays refused with anything put before or after it |
| `AccessFilter.RejectedAt` | src/main/java/io/gofannon/webexceptionhandling/AccessVerifierFilter.java:15-16 | a URI holding the marker in any case at a given index is refused with the fixed message |
| `AccessFilter.RejectedInAnyCase` | src/main/java/io/gofannon/webexceptionhandling/AccessVerifierFilter.java:15-16 | `/secret2`, `/SECRET2` and `/Secret2` are all refused |
| `AccessFilter.RejectedAnywhere` | src/main/java/io/gofannon/webexceptionhandling/AccessVerifierFilter.java:15-16 | `/a/secret2/b` and `/secret20` are refused |
| `AccessFilter.ForwardedWithoutMarker` | src/main/java/io/gofannon/webexceptionhandling/AccessVerifierFilter.java:15-19 | a short URI where the marker can start at neither possible place is forwarded unchanged |
| `AccessFilter.ForwardedExamples` | src/main/java/io/gofannon/webexceptionhandling/AccessVerifierFilter.java:19 | `/secret`, `/secret1`, `/private` and `/hello` are forwarded unchanged |

## Left out

- Spring's handler selection (`@ControllerAdvice`, the most specific `@ExceptionHandler`, and the handlers inherited from `ResponseEntityExceptionHandler`) is replaced by a closed datatype of failures and one `match`.
- The servlet plumbing is reduced to the URI string and an opaque rest of the request: `HttpServletRequest`, `FilterChain`, `IOException` and `ServletException`. The model also leaves out `ResponseEntity` building, which is reduced to a status, content type and body record.
- Status codes are plain integers. The `HttpStatus` and `HttpStatusCode` overloads only call `value()`, and the 100..999 range that `HttpStatusCode` enforces is not modelled.
- `AccessFilter.ToLowerCase` lower-cases ASCII letters only. Java's `toLowerCase()` follows the default locale and the whole of Unicode (for instance the Turkish dotted and dotless I), which is not modelled.
- `JavaText.ReplaceAll` handles only a pattern that is one literal character, which is what the handler uses. General regular expressions are not modelled.
- `JavaText.FormatFrom` handles only `%s` and `%%`. Any other conversion is reported as a failure rather than formatted.
- The text-block stripping treats only space and tab as white space. It also omits the compiler's escape processing and line-terminator normalisation, which the block in the handler does not need.
- The model does not claim the body is valid JSON, because the quote escape is a no-op: a reason containing `"` may make it invalid, or inject fields (`QuoteInjectsField`).
- The model does not claim that the filter's exception reaches the handler: the exception types differ, and the filter runs outside the controller advice.
- The endpoints of `MyWebController.java` are not modelled. Their failures appear only as inputs of the handler lemmas `ForbiddenEndpoint`, `TroubleEndpoint` and `TeaPotIsInternalError`.
- `UnauthorizedAccessException` and `PrivateAccessException` are not part of this model; only their messages are.
