/**
 * The handful of Python string facilities the exporter relies on:
 * the whitespace and digit classes of `re` and `str.strip()`, the
 * line structure that `re.MULTILINE` anchors `^` to, and `int()` of a
 * run of decimal digits.  Only ASCII whitespace and ASCII digits are
 * modelled.
 */
module PyStr {

  /**
   * Characters `str.strip()` removes and `\s` matches: Python's whitespace,
   * `\t \n \v \f \r`, the separators `\x1c`-`\x1f`, the space, `\x85`,
   * the no-break space and the Unicode spaces and line/paragraph separators.
   */
  predicate IsSpace(c: char) {
    || '\t' <= c <= '\r'
    || '\U{001C}' <= c <= '\U{001F}'
    || c == ' ' || c == '\U{0085}' || c == '\U{00A0}' || c == '\U{1680}'
    || '\U{2000}' <= c <= '\U{200A}'
    || c == '\U{2028}' || c == '\U{2029}' || c == '\U{202F}' || c == '\U{205F}' || c == '\U{3000}'
  }

  /** `\s` restricted to one line: whitespace other than the newline. */
  predicate IsLineSpace(c: char) {
    IsSpace(c) && c != '\n'
  }

  /** `\d` */
  predicate IsDigit(c: char) {
    '0' <= c <= '9'
  }

  /** `[\d.]` */
  predicate IsDigitOrDot(c: char) {
    IsDigit(c) || c == '.'
  }

  /** How many whitespace characters `s` starts with. */
  function LeadingSpace(s: string): (n: nat)
    ensures n <= |s|
    ensures forall k :: 0 <= k < n ==> IsSpace(s[k])
    ensures n < |s| ==> !IsSpace(s[n])
  {
    if s == [] || !IsSpace(s[0]) then 0 else 1 + LeadingSpace(s[1..])
  }

  /** Where the trailing whitespace of `s` begins (`|s|` when there is none). */
  function TrailingSpaceStart(s: string): (n: nat)
    ensures n <= |s|
    ensures forall k :: n <= k < |s| ==> IsSpace(s[k])
    ensures n > 0 ==> !IsSpace(s[n - 1])
  {
    if s == [] || !IsSpace(s[|s| - 1]) then |s| else TrailingSpaceStart(s[..|s| - 1])
  }

  /** Python's `s.strip()`: `s` without its leading and trailing whitespace. */
  function Strip(s: string): (r: string)
    ensures |r| <= |s|
    ensures r == [] || (!IsSpace(r[0]) && !IsSpace(r[|r| - 1]))
  {
    var t := s[LeadingSpace(s)..];
    t[..TrailingSpaceStart(t)]
  }

  /**
   * What strip removes is whitespace: the result is an infix of `s` with
   * only whitespace before and after it.
   */
  lemma StripIsInfix(s: string)
    ensures var r := Strip(s);
            exists i :: 0 <= i <= |s| - |r| && s[i..][..|r|] == r
                        && (forall k :: 0 <= k < i ==> IsSpace(s[k]))
                        && (forall k :: i + |r| <= k < |s| ==> IsSpace(s[k]))
  {
    var i := LeadingSpace(s);
    var t := s[i..];
    var j := TrailingSpaceStart(t);
    assert Strip(s) == t[..j];
    assert forall k :: i + j <= k < |s| ==> s[k] == t[k - i];
  }

  /** Stripping twice is stripping once. */
  lemma StripIdempotent(s: string)
    ensures Strip(Strip(s)) == Strip(s)
  {
    var r := Strip(s);
    assert LeadingSpace(r) == 0;
    assert r[0..] == r;
    assert TrailingSpaceStart(r) == |r|;
  }

  /** A string strips to the empty string exactly when it is all whitespace. */
  lemma StripEmptyIff(s: string)
    ensures Strip(s) == [] <==> forall k :: 0 <= k < |s| ==> IsSpace(s[k])
  {
    if Strip(s) == [] {
      var t := s[LeadingSpace(s)..];
      assert TrailingSpaceStart(t) == 0;
      assert LeadingSpace(s) == |s|;
    }
  }

  /** Index of the first newline in `s`, or `|s|` when there is none. */
  function NewlineIndex(s: string): (i: nat)
    ensures i <= |s|
    ensures forall k :: 0 <= k < i ==> s[k] != '\n'
    ensures i < |s| ==> s[i] == '\n'
  {
    if s == [] || s[0] == '\n' then 0 else 1 + NewlineIndex(s[1..])
  }

  /** The lines of `s`: the pieces between newlines (the positions `^` matches under `re.MULTILINE`). */
  function Lines(s: string): (ls: seq<string>)
    ensures |ls| >= 1
    decreases |s|
  {
    var i := NewlineIndex(s);
    if i == |s| then [s] else [s[..i]] + Lines(s[i + 1..])
  }

  /** Lines joined back with newlines. */
  function JoinLines(ls: seq<string>): string
  {
    if |ls| <= 1 then (if ls == [] then [] else ls[0])
    else ls[0] + "\n" + JoinLines(ls[1..])
  }

  /** `line` holds no newline character. */
  predicate NoNewline(line: string) {
    forall k :: 0 <= k < |line| ==> line[k] != '\n'
  }

  /** Cutting at the first newline: the first line, then the lines after it. */
  lemma LinesCons(s: string, i: nat)
    requires i == NewlineIndex(s) && i < |s|
    ensures Lines(s) == [s[..i]] + Lines(s[i + 1..])
  {
  }

  /** Joining a line in front of at least one more puts a newline between them. */
  lemma JoinCons(line: string, ls: seq<string>)
    requires |ls| >= 1
    ensures JoinLines([line] + ls) == line + "\n" + JoinLines(ls)
  {
    assert ([line] + ls)[1..] == ls;
  }

  /** A string around one of its newlines. */
  lemma SplitAtNewline(s: string, i: nat)
    requires i < |s| && s[i] == '\n'
    ensures s == s[..i] + "\n" + s[i + 1..]
  {
    assert s == s[..i] + s[i..] && s[i..] == [s[i]] + s[i + 1..];
  }

  /** No line contains a newline. */
  lemma {:induction false} LinesHaveNoNewline(s: string)
    ensures forall j :: 0 <= j < |Lines(s)| ==> NoNewline(Lines(s)[j])
    decreases |s|
  {
    var i := NewlineIndex(s);
    if i < |s| {
      LinesCons(s, i);
      LinesHaveNoNewline(s[i + 1..]);
      var ls := Lines(s);
      assert forall j :: 1 <= j < |ls| ==> ls[j] == Lines(s[i + 1..])[j - 1];
    }
  }

  /** Splitting into lines loses nothing: joining the lines gives the text back. */
  lemma {:induction false} LinesRoundTrip(s: string)
    ensures JoinLines(Lines(s)) == s
    decreases |s|
  {
    var i := NewlineIndex(s);
    if i < |s| {
      LinesCons(s, i);
      JoinCons(s[..i], Lines(s[i + 1..]));
      LinesRoundTrip(s[i + 1..]);
      SplitAtNewline(s, i);
    }
  }

  /** Python's `int()` of a string of decimal digits. */
  function DecimalValue(d: string): nat
    requires forall k :: 0 <= k < |d| ==> IsDigit(d[k])
  {
    if d == [] then 0
    else
      assert IsDigit(d[|d| - 1]);
      10 * DecimalValue(d[..|d| - 1]) + (d[|d| - 1] as int - '0' as int)
  }

  /** Python's `s[:n]` for `n >= 0`. */
  function Prefix(s: string, n: nat): (r: string)
    ensures |r| == if |s| < n then |s| else n
    ensures r == s[..|r|]
  {
    if |s| < n then s else s[..n]
  }
}
