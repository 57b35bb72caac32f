/**
 * The prober's decoder of MikroTik `/ping` output (`_parse_ping_output`)
 * and its "down" record (`_error_result`).
 *
 * The router answers with a table whose reply rows read
 * `seq host size ttl rtt"ms"`.  The source finds the first such row with
 * the regular expression `^\s*\d+\s+[\d.]+\s+(\d+)\s+(\d+)\s+(\d+)ms`
 * under `re.MULTILINE`.  Here the pattern is a list of tokens (a character
 * class repeated `*` or `+`) followed by the literal `ms`, matched line by
 * line; `IsMatch` is the pattern as a relation, `MatchLine` the scanner,
 * and the two are proved to agree.
 */
module PingParser {
  import opened Wrappers
  import opened PyStr

  /** The dictionary the prober returns: rtt in seconds, up flag (1 or 0), ttl, size, probe duration. */
  datatype PingResult = PingResult(rttSec: real, up: nat, ttl: nat, size: nat, duration: real)

  /** The character classes of the pattern: `\s` (within a line), `\d` and `[\d.]`. */
  datatype CharClass = Space | Digit | DigitOrDot

  predicate InClass(cls: CharClass, c: char) {
    match cls
    case Space => IsLineSpace(c)
    case Digit => IsDigit(c)
    case DigitOrDot => IsDigitOrDot(c)
  }

  /** A token of the pattern: a class repeated any number of times (`*`) or at least once (`+`). */
  datatype Token = Star(cls: CharClass) | Plus(cls: CharClass)

  /** `^\s*\d+\s+[\d.]+\s+(\d+)\s+(\d+)\s+(\d+)`, the part of the pattern before `ms`. */
  const ReplyRow: seq<Token> := [Star(Space), Plus(Digit), Plus(Space), Plus(DigitOrDot), Plus(Space),
                                 Plus(Digit), Plus(Space), Plus(Digit), Plus(Space), Plus(Digit)]

  /** Positions in ReplyRow of the three capture groups. */
  const SizeGroup := 5
  const TtlGroup := 7
  const RttGroup := 9

  ghost predicate AllIn(s: string, cls: CharClass) {
    forall k :: 0 <= k < |s| ==> InClass(cls, s[k])
  }

  /** Each piece is made of its token's class, and a `+` token's piece is not empty. */
  ghost predicate Fits(pieces: seq<string>, ts: seq<Token>) {
    && |pieces| == |ts|
    && (ts != [] ==>
          && AllIn(pieces[0], ts[0].cls)
          && (ts[0].Plus? ==> pieces[0] != [])
          && Fits(pieces[1..], ts[1..]))
  }

  /** The i-th piece fits the i-th token. */
  lemma {:induction false} FitsAt(pieces: seq<string>, ts: seq<Token>, i: nat)
    requires Fits(pieces, ts) && i < |ts|
    ensures AllIn(pieces[i], ts[i].cls) && (ts[i].Plus? ==> pieces[i] != [])
  {
    if i > 0 {
      FitsAt(pieces[1..], ts[1..], i - 1);
    }
  }

  /** The length of the longest prefix of `s` made of characters of class `cls`. */
  function ClassSpan(s: string, cls: CharClass): (n: nat)
    ensures n <= |s|
    ensures forall k :: 0 <= k < n ==> InClass(cls, s[k])
    ensures n == |s| || !InClass(cls, s[n])
  {
    if s == [] || !InClass(cls, s[0]) then 0 else 1 + ClassSpan(s[1..], cls)
  }

  /** A prefix of class `cls` followed by a character outside `cls` is what the span covers. */
  lemma {:induction false} ClassSpanOfConcat(x: string, y: string, cls: CharClass)
    requires AllIn(x, cls)
    requires y == [] || !InClass(cls, y[0])
    ensures ClassSpan(x + y, cls) == |x|
  {
    if x != [] {
      assert (x + y)[0] == x[0];
      assert (x + y)[1..] == x[1..] + y;
      ClassSpanOfConcat(x[1..], y, cls);
    } else {
      assert x + y == y;
    }
  }

  function Concat(pieces: seq<string>): string {
    if pieces == [] then [] else pieces[0] + Concat(pieces[1..])
  }

  /**
   * The pattern as a relation: `line` is the pieces of the reply row, the
   * literal `ms`, and any text after it (the search does not anchor the end).
   */
  ghost predicate IsMatch(line: string, row: seq<Token>, pieces: seq<string>, rest: string) {
    Fits(pieces, row) && line == Concat(pieces) + "ms" + rest
  }

  /** The pattern matches at the start of `line`. */
  ghost predicate Matches(line: string, row: seq<Token>) {
    exists pieces, rest :: IsMatch(line, row, pieces, rest)
  }

  /**
   * Scans `s` token by token, each token taking as many characters as it
   * can; returns the pieces and the unscanned remainder.
   */
  function MatchTokens(s: string, ts: seq<Token>): (r: Option<(seq<string>, string)>)
    ensures r.Some? ==> Fits(r.value.0, ts) && s == Concat(r.value.0) + r.value.1
    decreases |ts|
  {
    if ts == [] then Some(([], s))
    else
      var n := ClassSpan(s, ts[0].cls);
      if ts[0].Plus? && n == 0 then None
      else
        var after := MatchTokens(s[n..], ts[1..]);
        if after.None? then None
        else
          ScanStep(s, n, ts, after.value.0, after.value.1);
          Some(([s[..n]] + after.value.0, after.value.1))
  }

  /** One scan step: the first token's piece put in front of what the rest of the scan took. */
  lemma ScanStep(s: string, n: nat, ts: seq<Token>, ps: seq<string>, rest: string)
    requires ts != [] && n <= |s|
    requires forall k :: 0 <= k < n ==> InClass(ts[0].cls, s[k])
    requires ts[0].Plus? ==> n > 0
    requires Fits(ps, ts[1..]) && s[n..] == Concat(ps) + rest
    ensures Fits([s[..n]] + ps, ts) && s == Concat([s[..n]] + ps) + rest
  {
    var piece := s[..n];
    var qs := [piece] + ps;
    assert AllIn(piece, ts[0].cls);
    assert qs[0] == piece && qs[1..] == ps;
    assert Concat(qs) == piece + Concat(ps);
    assert s == piece + s[n..];
  }

  /** Neighbouring classes share no character, so one token's piece cannot run into the next one. */
  predicate Disjoint(a: CharClass, b: CharClass) {
    (a == Space) != (b == Space)
  }

  /** Every token after the first is a `+` token whose class is disjoint from the one before it. */
  predicate Separated(ts: seq<Token>) {
    |ts| <= 1 || (ts[1].Plus? && Disjoint(ts[0].cls, ts[1].cls) && Separated(ts[1..]))
  }

  /** A character of one class is not in a class disjoint from it. */
  lemma DisjointClasses(a: CharClass, b: CharClass, c: char)
    requires Disjoint(a, b) && InClass(b, c)
    ensures !InClass(a, c)
  {
  }

  /**
   * For tokens separated this way, any decomposition of `s` along the tokens,
   * followed by a character the last token cannot take, is the one the scan finds.
   */
  lemma {:induction false} MatchTokensComplete(s: string, ts: seq<Token>, ps: seq<string>, rest: string)
    requires Separated(ts) && Fits(ps, ts) && s == Concat(ps) + rest
    requires ts != [] && rest != [] ==> !InClass(ts[|ts| - 1].cls, rest[0])
    ensures MatchTokens(s, ts) == Some((ps, rest))
    decreases |ts|
  {
    if ts != [] {
      FitsAt(ps, ts, 0);
      var n := |ps[0]|;
      var after := Concat(ps[1..]) + rest;
      assert s == ps[0] + after by {
        assert Concat(ps) == ps[0] + Concat(ps[1..]);
      }
      assert s[..n] == ps[0] && s[n..] == after;
      assert after == [] || !InClass(ts[0].cls, after[0]) by {
        if |ts| > 1 {
          FitsAt(ps, ts, 1);
          assert after[0] == ps[1][0];
          DisjointClasses(ts[0].cls, ts[1].cls, ps[1][0]);
        }
      }
      assert ClassSpan(s, ts[0].cls) == n by {
        ClassSpanOfConcat(ps[0], after, ts[0].cls);
      }
      assert MatchTokens(after, ts[1..]) == Some((ps[1..], rest)) by {
        assert ts[1..] != [] ==> ts[1..][|ts[1..]| - 1] == ts[|ts| - 1];
        MatchTokensComplete(after, ts[1..], ps[1..], rest);
      }
      MatchTokensStep(s, ts, n, ps[1..], rest);
      assert [ps[0]] + ps[1..] == ps;
    } else {
      assert ps == [] && Concat(ps) == [];
      assert s == rest;
    }
  }

  /** One step of the scan, as an equation. */
  lemma MatchTokensStep(s: string, ts: seq<Token>, n: nat, ps: seq<string>, rest: string)
    requires ts != [] && n == ClassSpan(s, ts[0].cls) && (ts[0].Plus? ==> n > 0)
    requires MatchTokens(s[n..], ts[1..]) == Some((ps, rest))
    ensures MatchTokens(s, ts) == Some(([s[..n]] + ps, rest))
  {
  }

  /**
   * A row the scan decides uniquely: its tokens are separated, and its last
   * class does not take the `m` of the `ms` that follows.
   */
  predicate WellSeparated(row: seq<Token>) {
    Separated(row) && (row != [] ==> !InClass(row[|row| - 1].cls, 'm'))
  }

  /** The reply row of the ping table is one the scan decides uniquely. */
  lemma ReplyRowSeparated()
    ensures WellSeparated(ReplyRow)
  {
  }

  /** A tail starting with `ms` is `ms` and what follows. */
  lemma SplitMs(line: string, head: string, tail: string)
    requires line == head + tail && |tail| >= 2 && tail[0] == 'm' && tail[1] == 's'
    ensures line == head + "ms" + tail[2..]
  {
    assert tail == "ms" + tail[2..];
  }

  /** The pattern, `ms` included, matched at the start of one line: the pieces and the text after `ms`. */
  function MatchLine(line: string, row: seq<Token>): (r: Option<(seq<string>, string)>)
    ensures r.Some? ==> IsMatch(line, row, r.value.0, r.value.1)
  {
    var m := MatchTokens(line, row);
    if m.Some? && |m.value.1| >= 2 && m.value.1[0] == 'm' && m.value.1[1] == 's' then
      SplitMs(line, Concat(m.value.0), m.value.1);
      Some((m.value.0, m.value.1[2..]))
    else None
  }

  /** Every match of the pattern is the one MatchLine finds: the decomposition is unique. */
  lemma MatchLineComplete(line: string, row: seq<Token>, ps: seq<string>, rest: string)
    requires WellSeparated(row) && IsMatch(line, row, ps, rest)
    ensures MatchLine(line, row) == Some((ps, rest))
  {
    assert line == Concat(ps) + ("ms" + rest);
    MatchTokensComplete(line, row, ps, "ms" + rest);
  }

  /** MatchLine finds something exactly when the pattern matches. */
  lemma MatchLineIff(line: string, row: seq<Token>)
    requires WellSeparated(row)
    ensures MatchLine(line, row).Some? <==> Matches(line, row)
  {
    if Matches(line, row) {
      var ps, rest :| IsMatch(line, row, ps, rest);
      MatchLineComplete(line, row, ps, rest);
    }
  }

  /** Index of the first line the pattern matches, `|lines|` when none does (what `re.search` scans for). */
  function FirstMatchIndex(lines: seq<string>, row: seq<Token>): (i: nat)
    ensures i <= |lines|
    ensures forall j :: 0 <= j < i ==> MatchLine(lines[j], row).None?
    ensures i < |lines| ==> MatchLine(lines[i], row).Some?
  {
    if lines == [] then 0
    else if MatchLine(lines[0], row).Some? then 0
    else 1 + FirstMatchIndex(lines[1..], row)
  }

  /** `_parse_ping_output(output, duration)` */
  function ParsePingOutput(output: string, duration: real): (r: PingResult)
    ensures r.duration == duration
    ensures r.up == 0 || r.up == 1
  {
    var lines := Lines(output);
    var i := FirstMatchIndex(lines, ReplyRow);
    if i < |lines| then
      var ps := MatchLine(lines[i], ReplyRow).value.0;
      FitsAt(ps, ReplyRow, SizeGroup);
      FitsAt(ps, ReplyRow, TtlGroup);
      FitsAt(ps, ReplyRow, RttGroup);
      var size := DecimalValue(ps[SizeGroup]);
      var ttl := DecimalValue(ps[TtlGroup]);
      var rttSec := DecimalValue(ps[RttGroup]) as real / 1000.0;
      PingResult(rttSec, 1, ttl, size, duration)
    else
      PingResult(0.0, 0, 0, 0, duration)
  }

  /** `_error_result(duration)` */
  function ErrorResult(duration: real): (r: PingResult)
    ensures r.up == 0 && r.duration == duration
  {
    PingResult(0.0, 0, 0, 0, duration)
  }

  /**
   * When line `i` is the first line the pattern matches, the result is up,
   * and size, ttl and rtt are the third, fourth and fifth tokens of that
   * line, the rtt converted from milliseconds to seconds.
   */
  lemma ParseFirstMatchingLine(output: string, duration: real, i: nat, ps: seq<string>, rest: string)
    requires i < |Lines(output)| && IsMatch(Lines(output)[i], ReplyRow, ps, rest)
    requires forall j :: 0 <= j < i ==> !Matches(Lines(output)[j], ReplyRow)
    ensures AllIn(ps[SizeGroup], Digit) && AllIn(ps[TtlGroup], Digit) && AllIn(ps[RttGroup], Digit)
    ensures var r := ParsePingOutput(output, duration);
            && r.up == 1
            && r.size == DecimalValue(ps[SizeGroup])
            && r.ttl == DecimalValue(ps[TtlGroup])
            && r.rttSec * 1000.0 == DecimalValue(ps[RttGroup]) as real
            && r.duration == duration
  {
    var lines := Lines(output);
    ReplyRowSeparated();
    assert FirstMatchIndex(lines, ReplyRow) == i by {
      forall j | 0 <= j < i ensures MatchLine(lines[j], ReplyRow).None? {
        MatchLineIff(lines[j], ReplyRow);
      }
      MatchLineComplete(lines[i], ReplyRow, ps, rest);
    }
    assert MatchLine(lines[i], ReplyRow) == Some((ps, rest)) by {
      MatchLineComplete(lines[i], ReplyRow, ps, rest);
    }
    FitsAt(ps, ReplyRow, SizeGroup);
    FitsAt(ps, ReplyRow, TtlGroup);
    FitsAt(ps, ReplyRow, RttGroup);
  }

  /** Text in which no line matches parses to the all-zero "down" record, which is `_error_result`. */
  lemma ParseUnmatched(output: string, duration: real)
    requires forall j :: 0 <= j < |Lines(output)| ==> !Matches(Lines(output)[j], ReplyRow)
    ensures ParsePingOutput(output, duration) == PingResult(0.0, 0, 0, 0, duration)
    ensures ParsePingOutput(output, duration) == ErrorResult(duration)
  {
    var lines := Lines(output);
    ReplyRowSeparated();
    forall j | 0 <= j < |lines| ensures MatchLine(lines[j], ReplyRow).None? {
      MatchLineIff(lines[j], ReplyRow);
    }
  }

  /** Some line matches exactly when the scan finds a first matching line. */
  lemma FirstMatchIndexIff(lines: seq<string>, row: seq<Token>)
    requires WellSeparated(row)
    ensures (exists j :: 0 <= j < |lines| && Matches(lines[j], row)) <==> FirstMatchIndex(lines, row) < |lines|
  {
    var i := FirstMatchIndex(lines, row);
    if i < |lines| {
      MatchLineIff(lines[i], row);
    } else {
      forall j | 0 <= j < |lines| ensures !Matches(lines[j], row) {
        MatchLineIff(lines[j], row);
      }
    }
  }

  lemma ParseUpFound(output: string, duration: real)
    ensures ParsePingOutput(output, duration).up == 1 <==> FirstMatchIndex(Lines(output), ReplyRow) < |Lines(output)|
  {
  }

  /** The result is up exactly when some line of the output matches the pattern. */
  lemma ParseUpIff(output: string, duration: real)
    ensures ParsePingOutput(output, duration).up == 1 <==> exists j :: 0 <= j < |Lines(output)| && Matches(Lines(output)[j], ReplyRow)
  {
    ParseUpFound(output, duration);
    ReplyRowSeparated();
    FirstMatchIndexIff(Lines(output), ReplyRow);
  }

}
