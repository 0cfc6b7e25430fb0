/** The servlet filter that runs before every endpoint (AccessVerifierFilter):
    a request whose URI, lower-cased, contains "secret2" is refused with an
    exception; any other request is passed on to the rest of the chain. */
module AccessFilter {

  /** The marker looked for in the lower-cased request URI. */
  const FORBIDDEN_MARKER: string := "secret2"

  /** The message of the UnauthorizedAccessException the filter throws
      (note the space before the exclamation mark). */
  const REJECTION_MESSAGE: string := "Stop ! This access is forbidden"

  /** An HTTP request: its URI and, in `rest`, everything else it carries
      (method, headers, body, ...), which the filter never looks at. */
  datatype Request<X> = Request(requestUri: string, rest: X)

  /** What `doFilter` does: call the next filter of the chain once with the
      request and response it was given, or throw an
      UnauthorizedAccessException with `message` before calling anything. */
  datatype FilterOutcome<X, P> =
    | Forward(request: Request<X>, response: P)
    | Reject(message: string)

  /** Lower case of an ASCII letter; any other character is kept. The
      result is never an upper-case ASCII letter. */
  function LowerAscii(c: char): (d: char)
    ensures !('A' <= d <= 'Z')
    ensures d == c || ('A' <= c <= 'Z' && d as int == c as int + 32)
  {
    if 'A' <= c <= 'Z' then (c as int - 'A' as int + 'a' as int) as char else c
  }

  /** `s.toLowerCase()`, for ASCII letters: character by character. */
  function ToLowerCase(s: string): (r: string)
    ensures |r| == |s|
    ensures forall i :: 0 <= i < |s| ==> r[i] == LowerAscii(s[i])
  {
    if s == [] then [] else [LowerAscii(s[0])] + ToLowerCase(s[1..])
  }

  /** `p` occurs in `s` starting at index `i`. */
  predicate OccursAt(s: string, p: string, i: int) {
    0 <= i && i + |p| <= |s| && s[i..i + |p|] == p
  }

  /** `s.contains(p)`, by trying each starting position in turn: it holds
      exactly when `p` occurs somewhere in `s`. */
  predicate Contains(s: string, p: string)
    ensures Contains(s, p) <==> exists i :: OccursAt(s, p, i)
    decreases |s|
  {
    if |p| <= |s| && s[..|p|] == p then
      assert OccursAt(s, p, 0);
      true
    else if s == [] then
      false
    else
      OccurrenceInTail(s, p);
      Contains(s[1..], p)
  }

  /** When `p` is not at the head of `s`, it occurs in `s` exactly when it
      occurs in the tail. */
  lemma OccurrenceInTail(s: string, p: string)
    requires s != [] && !(|p| <= |s| && s[..|p|] == p)
    ensures (exists i :: OccursAt(s, p, i)) <==> exists i :: OccursAt(s[1..], p, i)
  {
    if i :| OccursAt(s[1..], p, i) {
      assert s[1..][i..i + |p|] == s[i + 1..i + 1 + |p|];
      assert OccursAt(s, p, i + 1);
    }
    if i :| OccursAt(s, p, i) {
      assert i != 0 by {
        assert s[..|p|] == s[0..0 + |p|];
      }
      assert s[i..i + |p|] == s[1..][i - 1..i - 1 + |p|];
      assert OccursAt(s[1..], p, i - 1);
    }
  }

  /** The URI, read ASCII case-insensitively, holds the marker at index `i`. */
  predicate ForbiddenAt(uri: string, i: int) {
    0 <= i && i + |FORBIDDEN_MARKER| <= |uri|
    && forall k :: 0 <= k < |FORBIDDEN_MARKER| ==> LowerAscii(uri[i + k]) == FORBIDDEN_MARKER[k]
  }

  /** `doFilter`: the decision reads only the request URI. */
  function DoFilter<X, P>(request: Request<X>, response: P): (o: FilterOutcome<X, P>)
    ensures o.Reject? ==> o.message == REJECTION_MESSAGE
    ensures o.Forward? ==> o.request == request && o.response == response
  {
    if Contains(ToLowerCase(request.requestUri), FORBIDDEN_MARKER) then Reject(REJECTION_MESSAGE)
    else Forward(request, response)
  }

  /** A request is refused exactly when its URI holds "secret2" in any mix of
      upper and lower case, at any position; it is passed on unchanged otherwise. */
  lemma RejectsExactlyForbiddenUris<X, P>(request: Request<X>, response: P)
    ensures DoFilter(request, response).Reject? <==> exists i :: ForbiddenAt(request.requestUri, i)
    ensures !DoFilter(request, response).Reject? ==> DoFilter(request, response) == Forward(request, response)
  {
    var uri := request.requestUri;
    var lower := ToLowerCase(uri);
    forall i | 0 <= i && i + |FORBIDDEN_MARKER| <= |uri|
      ensures OccursAt(lower, FORBIDDEN_MARKER, i) <==> ForbiddenAt(uri, i)
    {
      if ForbiddenAt(uri, i) {
        assert lower[i..i + |FORBIDDEN_MARKER|] == FORBIDDEN_MARKER;
      }
      if OccursAt(lower, FORBIDDEN_MARKER, i) {
        forall k | 0 <= k < |FORBIDDEN_MARKER|
          ensures LowerAscii(uri[i + k]) == FORBIDDEN_MARKER[k]
        {
          assert lower[i..i + |FORBIDDEN_MARKER|][k] == lower[i + k];
        }
      }
    }
    if exists i :: ForbiddenAt(uri, i) {
      var i :| ForbiddenAt(uri, i);
      assert OccursAt(lower, FORBIDDEN_MARKER, i);
    }
  }

  /** Two requests whose URIs agree once lower-cased, whatever else they
      carry, get the same decision. */
  lemma DecisionDependsOnlyOnLowerCasedUri<X, P>(r1: Request<X>, p1: P, r2: Request<X>, p2: P)
    requires ToLowerCase(r1.requestUri) == ToLowerCase(r2.requestUri)
    ensures DoFilter(r1, p1).Reject? == DoFilter(r2, p2).Reject?
  {
  }

  /** A refused URI stays refused inside any longer URI. */
  lemma RejectionSurvivesExtension<X, P>(before: string, uri: string, after: string, rest: X, response: P)
    requires DoFilter(Request(uri, rest), response).Reject?
    ensures DoFilter(Request(before + uri + after, rest), response).Reject?
  {
    RejectsExactlyForbiddenUris(Request(uri, rest), response);
    var i :| ForbiddenAt(uri, i);
    var long := before + uri + after;
    forall k | 0 <= k < |FORBIDDEN_MARKER|
      ensures LowerAscii(long[|before| + i + k]) == FORBIDDEN_MARKER[k]
    {
      assert long[|before| + i + k] == uri[i + k];
    }
    assert ForbiddenAt(long, |before| + i);
    RejectsExactlyForbiddenUris(Request(long, rest), response);
  }

  /** The marker is found whatever the case of its letters. */
  lemma RejectedInAnyCase<X, P>(rest: X, response: P)
    ensures DoFilter(Request("/secret2", rest), response) == Reject(REJECTION_MESSAGE)
    ensures DoFilter(Request("/SECRET2", rest), response) == Reject(REJECTION_MESSAGE)
    ensures DoFilter(Request("/Secret2", rest), response) == Reject(REJECTION_MESSAGE)
  {
    RejectedAt(Request("/secret2", rest), response, 1);
    RejectedAt(Request("/SECRET2", rest), response, 1);
    RejectedAt(Request("/Secret2", rest), response, 1);
  }

  /** The marker is found anywhere in the URI, not only as a whole segment. */
  lemma RejectedAnywhere<X, P>(rest: X, response: P)
    ensures DoFilter(Request("/a/secret2/b", rest), response) == Reject(REJECTION_MESSAGE)
    ensures DoFilter(Request("/secret20", rest), response) == Reject(REJECTION_MESSAGE)
  {
    RejectedAt(Request("/a/secret2/b", rest), response, 3);
    RejectedAt(Request("/secret20", rest), response, 1);
  }

  /** URIs without the marker, among them the `/secret`, `/private` and
      `/hello` endpoints, are passed on unchanged. */
  lemma ForwardedExamples<X, P>(rest: X, response: P)
    ensures DoFilter(Request("/secret", rest), response) == Forward(Request("/secret", rest), response)
    ensures DoFilter(Request("/secret1", rest), response) == Forward(Request("/secret1", rest), response)
    ensures DoFilter(Request("/private", rest), response) == Forward(Request("/private", rest), response)
    ensures DoFilter(Request("/hello", rest), response) == Forward(Request("/hello", rest), response)
  {
    ForwardedWithoutMarker(Request("/secret", rest), response);
    ForwardedWithoutMarker(Request("/secret1", rest), response);
    ForwardedWithoutMarker(Request("/private", rest), response);
    ForwardedWithoutMarker(Request("/hello", rest), response);
  }

  /** A URI no longer than the marker plus one character is passed on when
      neither of the two places the marker could start holds it: its first
      character is no 's' in either case and, at full length, its last is no '2'. */
  lemma ForwardedWithoutMarker<X, P>(request: Request<X>, response: P)
    requires 0 < |request.requestUri| <= |FORBIDDEN_MARKER| + 1
    requires LowerAscii(request.requestUri[0]) != 's'
    requires |request.requestUri| == |FORBIDDEN_MARKER| + 1 ==> request.requestUri[|FORBIDDEN_MARKER|] != '2'
    ensures DoFilter(request, response) == Forward(request, response)
  {
    var uri := request.requestUri;
    forall i | 0 <= i && i + |FORBIDDEN_MARKER| <= |uri|
      ensures !ForbiddenAt(uri, i)
    {
      if i == 0 {
        assert LowerAscii(uri[i + 0]) != FORBIDDEN_MARKER[0];
      } else {
        assert i == 1 && LowerAscii(uri[i + 6]) != FORBIDDEN_MARKER[6];
      }
    }
    RejectsExactlyForbiddenUris(request, response);
  }

  /** A request whose URI lowers to the marker's seven characters from
      index `i` on is refused. */
  lemma RejectedAt<X, P>(request: Request<X>, response: P, i: int)
    requires 0 <= i && i + |FORBIDDEN_MARKER| <= |request.requestUri|
    requires LowerAscii(request.requestUri[i]) == 's' && LowerAscii(request.requestUri[i + 1]) == 'e'
    requires LowerAscii(request.requestUri[i + 2]) == 'c' && LowerAscii(request.requestUri[i + 3]) == 'r'
    requires LowerAscii(request.requestUri[i + 4]) == 'e' && LowerAscii(request.requestUri[i + 5]) == 't'
    requires LowerAscii(request.requestUri[i + 6]) == '2'
    ensures DoFilter(request, response) == Reject(REJECTION_MESSAGE)
  {
    var uri := request.requestUri;
    forall k | 0 <= k < |FORBIDDEN_MARKER|
      ensures LowerAscii(uri[i + k]) == FORBIDDEN_MARKER[k]
    {
      assert k in {0, 1, 2, 3, 4, 5, 6};
    }
    assert ForbiddenAt(uri, i);
    RejectsExactlyForbiddenUris(request, response);
  }
}
