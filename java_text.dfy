/** The parts of Java's string library that the error handler leans on, as
    pure functions over `string` (a sequence of characters):
    - `String.replaceAll` for a pattern that is one literal character, with
      the replacement string's `\` escapes and `$` group references;
    - `String.formatted` for templates holding `%s` and `%%` only;
    - the incidental-indentation stripping the compiler applies to a text block;
    - `String.trim`. */
module JavaText {
  import opened Wrappers

  /** `p` in front of a successful result; a failure stays a failure. */
  function Prepend(p: string, r: Option<string>): (q: Option<string>)
    ensures q.Some? <==> r.Some?
    ensures r.Some? ==> q.value == p + r.value
  {
    match r
    case None => None
    case Some(t) => Some(p + t)
  }

  // ---------------------------------------------------------------------
  // String.replaceAll(regex, replacement) for a one-character literal regex
  // ---------------------------------------------------------------------

  /** Length of the run of '0' characters at the head of `s`. */
  function ZeroRun(s: string): (n: nat)
    ensures n <= |s|
    ensures forall i :: 0 <= i < n ==> s[i] == '0'
    ensures n < |s| ==> s[n] != '0'
  {
    if s != [] && s[0] == '0' then 1 + ZeroRun(s[1..]) else 0
  }

  /** The text one match is replaced with, as `Matcher.appendReplacement`
      builds it from `replacement` for a pattern without capturing groups
      (so only group 0, the matched text `group0`, exists):
      `\c` stands for the character `c`; `$0`, followed by any further
      zeros, stands for the match; a trailing `\`, a `$` at the end, a `$`
      before a non-digit or `{`, and a reference to a group other than 0
      all make Java throw, which is `None` here. */
  function ExpandReplacement(replacement: string, group0: string): (r: Option<string>)
    ensures '\\' !in replacement && '$' !in replacement ==> r == Some(replacement)
    decreases |replacement|
  {
    if replacement == [] then Some([])
    else if replacement[0] == '\\' then
      if |replacement| == 1 then None
      else Prepend([replacement[1]], ExpandReplacement(replacement[2..], group0))
    else if replacement[0] == '$' then
      if |replacement| == 1 || replacement[1] != '0' then None
      else
        var rest := replacement[2..];
        Prepend(group0, ExpandReplacement(rest[ZeroRun(rest)..], group0))
    else
      assert replacement == [replacement[0]] + replacement[1..];
      Prepend([replacement[0]], ExpandReplacement(replacement[1..], group0))
  }

  /** Every occurrence of `c` in `s` replaced by `e`, every other character kept. */
  function ReplaceChar(s: string, c: char, e: string): (r: string)
    ensures c !in e ==> c !in r
    ensures c !in s ==> r == s
    ensures |e| == 1 ==> |r| == |s| && forall i :: 0 <= i < |s| ==> r[i] == (if s[i] == c then e[0] else s[i])
  {
    if s == [] then []
    else (if s[0] == c then e else [s[0]]) + ReplaceChar(s[1..], c, e)
  }

  /** `s.replaceAll(regex, replacement)` where `regex` matches exactly the
      character `c`. Java expands the replacement only when there is a
      match, so a malformed replacement goes unnoticed on a string without `c`. */
  function ReplaceAll(s: string, c: char, replacement: string): (r: Option<string>)
    ensures c !in s ==> r == Some(s)
    ensures r.None? <==> c in s && ExpandReplacement(replacement, [c]).None?
  {
    if c !in s then Some(s)
    else
      match ExpandReplacement(replacement, [c])
      case None => None
      case Some(e) => Some(ReplaceChar(s, c, e))
  }

  /** Replacing a character by itself changes nothing. */
  lemma {:induction false} ReplaceCharByItself(s: string, c: char)
    ensures ReplaceChar(s, c, [c]) == s
  {
    if s != [] {
      ReplaceCharByItself(s[1..], c);
      assert s == [s[0]] + s[1..];
    }
  }

  // ---------------------------------------------------------------------
  // String.formatted(arg) for templates holding `%s` and `%%` only
  // ---------------------------------------------------------------------

  /** Formats the rest `t` of a template with the single argument `arg`;
      `used` tells whether a `%s` earlier in the template took it already.
      `%%` gives `%`; a second `%s` has no argument left
      (MissingFormatArgumentException) and every other use of `%` is a
      conversion outside this model: both are `None`. */
  function FormatFrom(t: string, arg: string, used: bool): (r: Option<string>)
    ensures '%' !in t ==> r == Some(t)
    decreases |t|
  {
    if t == [] then Some([])
    else if t[0] != '%' then
      assert t == [t[0]] + t[1..];
      Prepend([t[0]], FormatFrom(t[1..], arg, used))
    else if |t| >= 2 && t[1] == '%' then Prepend("%", FormatFrom(t[2..], arg, used))
    else if |t| >= 2 && t[1] == 's' && !used then Prepend(arg, FormatFrom(t[2..], arg, true))
    else None
  }

  /** `template.formatted(arg)`: text without `%` comes through unchanged. */
  function Format(template: string, arg: string): (r: Option<string>)
    ensures '%' !in template ==> r == Some(template)
  {
    FormatFrom(template, arg, false)
  }

  /** A template with one `%s` and no other `%` has the argument put in its place. */
  lemma {:induction false} FormatSingle(pre: string, post: string, arg: string)
    requires '%' !in pre && '%' !in post
    ensures Format(pre + "%s" + post, arg) == Some(pre + arg + post)
  {
    FormatSingleFrom(pre, post, arg);
  }

  lemma {:induction false} FormatSingleFrom(pre: string, post: string, arg: string)
    requires '%' !in pre && '%' !in post
    ensures FormatFrom(pre + "%s" + post, arg, false) == Some(pre + arg + post)
  {
    if pre == [] {
      FormatPlaceholder(post, arg);
      assert pre + "%s" + post == "%s" + post;
      assert pre + arg + post == arg + post;
    } else {
      var t := pre + "%s" + post;
      var rest := pre[1..] + "%s" + post;
      assert t == [pre[0]] + rest;
      FormatSingleFrom(pre[1..], post, arg);
      assert pre + arg + post == [pre[0]] + (pre[1..] + arg + post);
    }
  }

  /** `%s` at the head of a template takes the argument. */
  lemma FormatPlaceholder(post: string, arg: string)
    requires '%' !in post
    ensures FormatFrom("%s" + post, arg, false) == Some(arg + post)
  {
    var t := "%s" + post;
    assert t[0] == '%' && t[1] == 's' && t[2..] == post;
  }

  // ---------------------------------------------------------------------
  // Text blocks: incidental white space stripping
  // ---------------------------------------------------------------------

  predicate IsWhite(c: char) { c == ' ' || c == '\t' }

  /** A line that is empty or white space only. */
  predicate IsBlank(l: string) {
    forall i :: 0 <= i < |l| ==> IsWhite(l[i])
  }

  /** Number of white space characters at the head of `l`. */
  function Indent(l: string): (n: nat)
    ensures n <= |l|
    ensures forall i :: 0 <= i < n ==> IsWhite(l[i])
    ensures n < |l| ==> !IsWhite(l[n])
  {
    if l != [] && IsWhite(l[0]) then 1 + Indent(l[1..]) else 0
  }

  /** `n` spaces. */
  function Spaces(n: nat): (s: string)
    ensures |s| == n && forall i :: 0 <= i < n ==> s[i] == ' '
  {
    seq(n, _ => ' ')
  }

  /** `l` without the white space at its end. */
  function StripTrailing(l: string): (r: string)
    ensures r <= l
    ensures r == [] || !IsWhite(r[|r| - 1])
    ensures forall i :: |r| <= i < |l| ==> IsWhite(l[i])
  {
    if l != [] && IsWhite(l[|l| - 1]) then StripTrailing(l[..|l| - 1]) else l
  }

  /** The smallest of `bound` and the indentation of each non-blank line. */
  function MinIndent(lines: seq<string>, bound: nat): (m: nat)
    ensures m <= bound
    ensures forall k :: 0 <= k < |lines| && !IsBlank(lines[k]) ==> m <= Indent(lines[k])
    ensures (forall k :: 0 <= k < |lines| && !IsBlank(lines[k]) ==> bound <= Indent(lines[k])) ==> m == bound
    ensures m == bound || exists k :: 0 <= k < |lines| && !IsBlank(lines[k]) && m == Indent(lines[k])
  {
    if lines == [] then bound
    else MinIndent(lines[1..], if IsBlank(lines[0]) || bound <= Indent(lines[0]) then bound else Indent(lines[0]))
  }

  /** One line after stripping: blank lines become empty, other lines lose
      `m` characters of indentation and their trailing white space. */
  function Dedent(l: string, m: nat): string {
    if IsBlank(l) then [] else StripTrailing(l[if m <= |l| then m else |l|..])
  }

  /** Every line stripped with the same indentation `m`. */
  function DedentAll(lines: seq<string>, m: nat): (r: seq<string>)
    ensures |r| == |lines|
    ensures forall k :: 0 <= k < |lines| ==> r[k] == Dedent(lines[k], m)
  {
    if lines == [] then [] else [Dedent(lines[0], m)] + DedentAll(lines[1..], m)
  }

  /** The lines joined with line feeds. */
  function JoinLines(lines: seq<string>): string {
    if lines == [] then []
    else if |lines| == 1 then lines[0]
    else lines[0] + "\n" + JoinLines(lines[1..])
  }

  /** Three lines and an empty last one are joined into three lines each
      ended by a line feed. */
  lemma JoinThreeLinesAndEmpty(a: string, b: string, c: string)
    ensures JoinLines([a, b, c, []]) == a + "\n" + b + "\n" + c + "\n"
  {
    assert [a, b, c, []][1..] == [b, c, []];
    assert [b, c, []][1..] == [c, []];
    assert [c, []][1..] == [[]];
    calc {
      JoinLines([a, b, c, []]);
      a + "\n" + JoinLines([b, c, []]);
      a + "\n" + (b + "\n" + JoinLines([c, []]));
      a + "\n" + (b + "\n" + (c + "\n" + JoinLines([[]])));
      a + "\n" + (b + "\n" + (c + "\n" + []));
      a + "\n" + b + "\n" + c + "\n";
    }
  }

  /** The string a text block denotes, from the lines between its opening
      delimiter and its closing one; the last line is what precedes the
      closing delimiter. Its indentation counts toward the common one even
      when it is blank. */
  function StripIndent(lines: seq<string>): (r: string)
    requires lines != []
    ensures exists m :: IsCommonIndent(lines, m) && r == JoinLines(DedentAll(lines, m))
  {
    var last := lines[|lines| - 1];
    var m := MinIndent(lines[..|lines| - 1], Indent(last));
    assert IsCommonIndent(lines, m) by {
      assert forall k :: 0 <= k < |lines| - 1 ==> lines[..|lines| - 1][k] == lines[k];
    }
    JoinLines(DedentAll(lines, m))
  }

  /** `m` is the indentation a text block's lines have in common: no more
      than that of the closing delimiter (the last line) and of any other
      non-blank line, and equal to one of them. */
  predicate IsCommonIndent(lines: seq<string>, m: nat)
    requires lines != []
  {
    var n := |lines| - 1;
    && m <= Indent(lines[n])
    && (forall k :: 0 <= k < n && !IsBlank(lines[k]) ==> m <= Indent(lines[k]))
    && (m == Indent(lines[n]) || exists k :: 0 <= k < n && !IsBlank(lines[k]) && m == Indent(lines[k]))
  }

  /** The indentation of `n` spaces in front of text that starts with a
      visible character is `n`. */
  lemma {:induction false} IndentOfSpaces(n: nat, t: string)
    requires t == [] || !IsWhite(t[0])
    ensures Indent(Spaces(n) + t) == n
  {
    if n > 0 {
      var l := Spaces(n) + t;
      assert l[1..] == Spaces(n - 1) + t;
      IndentOfSpaces(n - 1, t);
    }
  }

  /** A visible line indented `n + d` columns keeps `d` of them when `n` are
      stripped. */
  lemma DedentDeeper(n: nat, d: nat, t: string)
    requires t != [] && !IsWhite(t[0]) && !IsWhite(t[|t| - 1])
    ensures !IsBlank(Spaces(n + d) + t) && Indent(Spaces(n + d) + t) == n + d
    ensures Dedent(Spaces(n + d) + t, n) == Spaces(d) + t
  {
    IndentOfSpaces(n + d, t);
    NotBlankAt(Spaces(n + d) + t, n + d);
    DropSpaces(n, d, t);
    StripTrailingVisible(Spaces(d) + t);
  }

  /** A line with a visible character is not blank. */
  lemma NotBlankAt(l: string, i: nat)
    requires i < |l| && !IsWhite(l[i])
    ensures !IsBlank(l)
  {
  }

  /** Dropping `n` of `n + d` leading spaces leaves `d`. */
  lemma DropSpaces(n: nat, d: nat, t: string)
    ensures n <= |Spaces(n + d) + t| && (Spaces(n + d) + t)[n..] == Spaces(d) + t
  {
    var l := Spaces(n + d) + t;
    var r := Spaces(d) + t;
    assert forall i :: 0 <= i < |r| ==> l[n..][i] == r[i];
  }

  /** A line that ends with a visible character has no trailing white space. */
  lemma StripTrailingVisible(l: string)
    requires l != [] && !IsWhite(l[|l| - 1])
    ensures StripTrailing(l) == l
  {
  }

  /** A line of `n` spaces is blank, of indentation `n`, and strips to nothing. */
  lemma DedentBlank(n: nat)
    ensures IsBlank(Spaces(n)) && Indent(Spaces(n)) == n && Dedent(Spaces(n), n) == []
  {
    IndentOfSpaces(n, []);
    assert Spaces(n) + [] == Spaces(n);
  }

  /** A text block of three visible lines, the middle one indented `d`
      columns deeper, closed by a delimiter at the indentation `n` of the
      outer two: the `n` columns go, the inner `d` stay, and every line ends
      with a line feed. */
  lemma StripIndentOfThreeLines(n: nat, d: nat, a: string, b: string, c: string)
    requires a != [] && !IsWhite(a[0]) && !IsWhite(a[|a| - 1])
    requires b != [] && !IsWhite(b[0]) && !IsWhite(b[|b| - 1])
    requires c != [] && !IsWhite(c[0]) && !IsWhite(c[|c| - 1])
    ensures StripIndent([Spaces(n) + a, Spaces(n + d) + b, Spaces(n) + c, Spaces(n)])
         == a + "\n" + (Spaces(d) + b) + "\n" + c + "\n"
  {
    var l0, l1, l2, l3 := Spaces(n) + a, Spaces(n + d) + b, Spaces(n) + c, Spaces(n);
    DedentIndented(n, a);
    DedentDeeper(n, d, b);
    DedentIndented(n, c);
    DedentBlank(n);
    StripIndentOfFourLines(l0, l1, l2, l3, n);
  }

  /** A visible line indented `n` columns loses all of them. */
  lemma DedentIndented(n: nat, t: string)
    requires t != [] && !IsWhite(t[0]) && !IsWhite(t[|t| - 1])
    ensures !IsBlank(Spaces(n) + t) && Indent(Spaces(n) + t) == n
    ensures Dedent(Spaces(n) + t, n) == t
  {
    DedentDeeper(n, 0, t);
    assert Spaces(n + 0) == Spaces(n);
    assert Spaces(0) + t == t;
  }

  /** Three lines at indentation `n` or deeper, closed by a blank line of
      indentation `n`, are each stripped by `n` and ended by a line feed. */
  lemma StripIndentOfFourLines(l0: string, l1: string, l2: string, l3: string, n: nat)
    requires n <= Indent(l0) && n <= Indent(l1) && n <= Indent(l2)
    requires Indent(l3) == n && IsBlank(l3)
    ensures StripIndent([l0, l1, l2, l3])
         == Dedent(l0, n) + "\n" + Dedent(l1, n) + "\n" + Dedent(l2, n) + "\n"
  {
    var lines := [l0, l1, l2, l3];
    assert lines[..3] == [l0, l1, l2];
    ThreeLinesCommonIndent(n, [l0, l1, l2]);
    assert DedentAll(lines, n) == [Dedent(l0, n), Dedent(l1, n), Dedent(l2, n), []];
    JoinThreeLinesAndEmpty(Dedent(l0, n), Dedent(l1, n), Dedent(l2, n));
  }

  /** Three stripped lines, the middle one holding a `%s`, read as the text
      before the `%s`, the `%s` and the text after it. */
  lemma ThreeLinesAroundPlaceholder(a: string, s: string, q1: string, q2: string, c: string)
    ensures a + "\n" + (s + (q1 + "%s" + q2)) + "\n" + c + "\n"
         == (a + "\n" + s + q1) + "%s" + ((q2 + "\n" + c) + "\n")
  {
  }

  /** Lines indented `n` columns or more have a common indentation `n` with
      a closing delimiter at `n`. */
  lemma ThreeLinesCommonIndent(n: nat, front: seq<string>)
    requires forall k :: 0 <= k < |front| ==> n <= Indent(front[k])
    ensures MinIndent(front, n) == n
  {
  }

  // ---------------------------------------------------------------------
  // String.trim()
  // ---------------------------------------------------------------------

  /** `s` without the characters at or below U+0020 at its head. */
  function TrimStart(s: string): (r: string)
    ensures |r| <= |s| && r == s[|s| - |r|..]
    ensures r == [] || ' ' < r[0]
  {
    if s != [] && s[0] <= ' ' then TrimStart(s[1..]) else s
  }

  /** `s` without the characters at or below U+0020 at its end. */
  function TrimEnd(s: string): (r: string)
    ensures |r| <= |s| && r == s[..|r|]
    ensures r == [] || ' ' < r[|r| - 1]
  {
    if s != [] && s[|s| - 1] <= ' ' then TrimEnd(s[..|s| - 1]) else s
  }

  /** `TrimStart` drops only characters at or below U+0020. */
  lemma {:induction false} TrimStartDropsBlanks(s: string)
    ensures forall i :: 0 <= i < |s| - |TrimStart(s)| ==> s[i] <= ' '
  {
    if s != [] && s[0] <= ' ' {
      TrimStartDropsBlanks(s[1..]);
      assert forall i :: 1 <= i < |s| ==> s[i] == s[1..][i - 1];
    }
  }

  /** `TrimEnd` drops only characters at or below U+0020. */
  lemma {:induction false} TrimEndDropsBlanks(s: string)
    ensures forall i :: |TrimEnd(s)| <= i < |s| ==> s[i] <= ' '
  {
    if s != [] && s[|s| - 1] <= ' ' {
      TrimEndDropsBlanks(s[..|s| - 1]);
    }
  }

  /** `r` is the part of `s` that starts at index `i`. */
  predicate IsSliceAt(r: string, s: string, i: int) {
    0 <= i <= |s| - |r| && r == s[i..i + |r|]
  }

  /** `r` is the slice of `s` at `i`, and everything of `s` before and
      after it is at or below U+0020. */
  predicate IsTrimAt(r: string, s: string, i: int) {
    && IsSliceAt(r, s, i)
    && (forall k :: 0 <= k < i ==> s[k] <= ' ')
    && (forall k :: i + |r| <= k < |s| ==> s[k] <= ' ')
  }

  /** `s.trim()`: the slice of `s` left once the characters at or below
      U+0020 are dropped from both ends, so that it neither starts nor ends
      with one; a string that already does neither is returned unchanged. */
  function Trim(s: string): (r: string)
    ensures r == [] || (' ' < r[0] && ' ' < r[|r| - 1])
    ensures exists i :: IsTrimAt(r, s, i)
    ensures s != [] && ' ' < s[0] && ' ' < s[|s| - 1] ==> r == s
  {
    TrimEndStartIsTrim(s);
    TrimKeepsTrimmed(s);
    TrimEnd(TrimStart(s))
  }

  /** A prefix of the suffix of `s` from `k` on is the slice of `s` at `k`. */
  lemma PrefixOfSuffixIsSlice(s: string, k: nat, r: string)
    requires k <= |s| && |r| <= |s| - k && r == s[k..][..|r|]
    ensures IsSliceAt(r, s, k)
  {
    assert s[k..][..|r|] == s[k..k + |r|];
  }

  /** Trimming both ends leaves a slice of the original, and drops only
      characters at or below U+0020. */
  lemma TrimEndStartIsTrim(s: string)
    ensures IsTrimAt(TrimEnd(TrimStart(s)), s, |s| - |TrimStart(s)|)
  {
    var t := TrimStart(s);
    var r := TrimEnd(t);
    var i := |s| - |t|;
    PrefixOfSuffixIsSlice(s, i, r);
    TrimStartDropsBlanks(s);
    TrimEndDropsBlanks(t);
    forall k | i + |r| <= k < |s|
      ensures s[k] <= ' '
    {
      assert s[k] == t[k - i];
    }
  }

  /** A string with visible characters at both ends is left as it is. */
  lemma TrimKeepsTrimmed(s: string)
    ensures s != [] && ' ' < s[0] && ' ' < s[|s| - 1] ==> TrimStart(s) == s && TrimEnd(s) == s
  {
  }

  /** Trimming a string that starts with a visible character and ends with
      one followed by a line feed removes exactly that line feed. */
  lemma TrimDropsFinalNewline(s: string)
    requires s != [] && ' ' < s[0] && ' ' < s[|s| - 1]
    ensures Trim(s + "\n") == s
  {
    var t := s + "\n";
    assert TrimStart(t) == t;
    assert t[..|t| - 1] == s;
    assert TrimEnd(t) == TrimEnd(s);
  }
}
