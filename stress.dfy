/**
 * The load-test client's helpers: the interpolating percentile, the
 * success/failure summary of a run, the retry loop of one probe request
 * (with the HTTP exchanges given as inputs), and the target list.
 */
module Stress {
  import opened Wrappers
  import opened PyStr

  // ---------------- percentile ----------------

  ghost predicate Sorted(s: seq<real>) {
    forall i, j :: 0 <= i <= j < |s| ==> s[i] <= s[j]
  }

  /** `k = (len - 1) * (p / 100)`, the fractional rank of the p-th percentile. */
  function Rank(n: nat, p: real): real {
    (n - 1) as real * (p / 100.0)
  }

  /**
   * `percentile(sorted_list, p)`: 0.0 for an empty list; otherwise
   * interpolates linearly between the neighbours of rank `k`, or takes the
   * last element when `k` reaches the end.  `int(k)` truncates toward zero,
   * which is `Floor` for the non-negative `k` that `p >= 0` gives.
   */
  function Percentile(s: seq<real>, p: real): real
    requires 0.0 <= p
  {
    if |s| == 0 then 0.0
    else
      var k := Rank(|s|, p);
      var f := k.Floor;
      var c := f + 1;
      if c >= |s| then s[|s| - 1]
      else s[f] * (c as real - k) + s[c] * (k - f as real)
  }

  /** The empty list has percentile 0.0. */
  lemma PercentileOfEmpty(p: real)
    requires 0.0 <= p
    ensures Percentile([], p) == 0.0
  {
  }

  /**
   * In the interpolating case, the result is a weighted mean of the two
   * neighbours of rank `k`, with non-negative weights that sum to 1.
   */
  lemma PercentileInterpolates(s: seq<real>, p: real)
    requires 0.0 <= p && |s| > 0
    ensures var k := Rank(|s|, p);
            var f := k.Floor;
            0 <= f &&
            (f + 1 < |s| ==>
               && 0.0 <= (f + 1) as real - k <= 1.0
               && 0.0 <= k - f as real <= 1.0
               && ((f + 1) as real - k) + (k - f as real) == 1.0
               && Percentile(s, p) == s[f] * ((f + 1) as real - k) + s[f + 1] * (k - f as real))
  {
    var k := Rank(|s|, p);
    var f := k.Floor;
    MulNonNegative((|s| - 1) as real, p / 100.0);
    assert 0.0 <= k;
    assert f as real <= k < f as real + 1.0;
  }

  /** When the rank reaches the last index (p >= 100, or a single element) the result is the last element. */
  lemma PercentileAtTop(s: seq<real>, p: real)
    requires 0.0 <= p && |s| > 0 && (100.0 <= p || |s| == 1)
    ensures Percentile(s, p) == s[|s| - 1]
  {
    var k := Rank(|s|, p);
    if |s| > 1 {
      assert (|s| - 1) as real * (p / 100.0) >= (|s| - 1) as real;
      assert k.Floor >= |s| - 1;
    }
  }

  /** The 0th percentile of a non-empty list is its first element. */
  lemma PercentileAtZero(s: seq<real>)
    requires |s| > 0
    ensures Percentile(s, 0.0) == s[0]
  {
    assert Rank(|s|, 0.0) == 0.0;
  }

  /** The product of non-negative reals is non-negative. */
  lemma MulNonNegative(x: real, y: real)
    requires 0.0 <= x && 0.0 <= y
    ensures 0.0 <= x * y
  {
  }

  /** A higher p gives a higher rank. */
  lemma RankMonotonic(n: nat, p: real, q: real)
    requires p <= q
    ensures Rank(n, p) <= Rank(n, q) || n == 0
  {
    if n > 0 {
      MulNonNegative((n - 1) as real, (q - p) / 100.0);
      assert Rank(n, q) - Rank(n, p) == (n - 1) as real * ((q - p) / 100.0);
    }
  }

  /** A weighted mean of `a <= b` with weights in [0, 1] summing to 1 lies between them. */
  lemma BetweenNeighbours(a: real, b: real, wa: real, wb: real)
    requires a <= b && 0.0 <= wa && 0.0 <= wb && wa + wb == 1.0
    ensures a <= a * wa + b * wb <= b
  {
    MulNonNegative(b - a, wa);
    MulNonNegative(b - a, wb);
    assert a * wa + b * wb == a + (b - a) * wb;
    assert b - (a * wa + b * wb) == (b - a) * wa;
  }

  /** For sorted input the result lies between the two neighbours it interpolates. */
  lemma PercentileBetweenNeighbours(s: seq<real>, p: real)
    requires 0.0 <= p && |s| > 1 && Sorted(s)
    requires Rank(|s|, p).Floor + 1 < |s|
    ensures var f := Rank(|s|, p).Floor;
            s[f] <= Percentile(s, p) <= s[f + 1]
  {
    PercentileInterpolates(s, p);
    var k := Rank(|s|, p);
    var f := k.Floor;
    BetweenNeighbours(s[f], s[f + 1], (f + 1) as real - k, k - f as real);
  }

  /** For sorted non-empty input the result lies between the minimum and the maximum. */
  lemma PercentileWithinRange(s: seq<real>, p: real)
    requires 0.0 <= p && |s| > 0 && Sorted(s)
    ensures s[0] <= Percentile(s, p) <= s[|s| - 1]
  {
    PercentileInterpolates(s, p);
    var f := Rank(|s|, p).Floor;
    if f + 1 < |s| {
      PercentileBetweenNeighbours(s, p);
      assert s[0] <= s[f] && s[f + 1] <= s[|s| - 1];
    }
  }

  /** Between two fixed neighbours `a <= b`, interpolating at a higher rank gives a higher value. */
  lemma InterpolationMonotonic(a: real, b: real, f: real, kp: real, kq: real)
    requires a <= b && kp <= kq
    ensures a * ((f + 1.0) - kp) + b * (kp - f) <= a * ((f + 1.0) - kq) + b * (kq - f)
  {
    MulNonNegative(b - a, kq - kp);
    assert a * ((f + 1.0) - kq) + b * (kq - f) - (a * ((f + 1.0) - kp) + b * (kp - f)) == (b - a) * (kq - kp);
  }

  /** For sorted input a higher p never gives a lower percentile. */
  lemma PercentileMonotonic(s: seq<real>, p: real, q: real)
    requires 0.0 <= p <= q && |s| > 0 && Sorted(s)
    ensures Percentile(s, p) <= Percentile(s, q)
  {
    var n := |s|;
    var kp, kq := Rank(n, p), Rank(n, q);
    var fp, fq := kp.Floor, kq.Floor;
    RankMonotonic(n, p, q);
    assert fp <= fq;
    PercentileInterpolates(s, p);
    PercentileInterpolates(s, q);
    PercentileWithinRange(s, p);
    if fq + 1 < n {
      if fp == fq {
        InterpolationMonotonic(s[fp], s[fp + 1], fp as real, kp, kq);
      } else {
        PercentileBetweenNeighbours(s, p);
        PercentileBetweenNeighbours(s, q);
        assert s[fp + 1] <= s[fq];
      }
    }
  }

  // ---------------- summary ----------------

  /** What `probe_once` returns: (success, elapsed, status, error text). */
  datatype ProbeOutcome = ProbeOutcome(success: bool, elapsed: real, status: int, err: string)

  /** What one result adds to the latencies: its elapsed time when it succeeded. */
  function LatencyOf(r: ProbeOutcome): seq<real> {
    if r.success then [r.elapsed] else []
  }

  /** What one result adds to the failures: itself when it failed. */
  function FailureOf(r: ProbeOutcome): seq<ProbeOutcome> {
    if r.success then [] else [r]
  }

  /** `[r[1] for r in results if r[0]]` */
  function Latencies(results: seq<ProbeOutcome>): seq<real>
  {
    if results == [] then [] else LatencyOf(results[0]) + Latencies(results[1..])
  }

  /** `[r for r in results if not r[0]]` */
  function Failures(results: seq<ProbeOutcome>): seq<ProbeOutcome>
  {
    if results == [] then [] else FailureOf(results[0]) + Failures(results[1..])
  }

  /** The figures `run_stress_test` prints. */
  datatype Summary = Summary(latencies: seq<real>, failures: seq<ProbeOutcome>, successCount: int)

  /** The summary of `run_stress_test`: `success_count = len(results) - len(failures)`. */
  function Summarize(results: seq<ProbeOutcome>): (r: Summary)
  {
    var failures := Failures(results);
    Summary(Latencies(results), failures, |results| - |failures|)
  }

  /** The latency comprehension keeps its part of a concatenation in order. */
  lemma {:induction false} LatenciesOfConcat(a: seq<ProbeOutcome>, b: seq<ProbeOutcome>)
    ensures Latencies(a + b) == Latencies(a) + Latencies(b)
  {
    if a == [] {
      assert a + b == b;
    } else {
      assert (a + b)[0] == a[0] && (a + b)[1..] == a[1..] + b;
      LatenciesOfConcat(a[1..], b);
      var h := LatencyOf(a[0]);
      calc {
        Latencies(a + b);
        h + Latencies(a[1..] + b);
        h + (Latencies(a[1..]) + Latencies(b));
        (h + Latencies(a[1..])) + Latencies(b);
      }
    }
  }

  /** The failure comprehension keeps its part of a concatenation in order. */
  lemma {:induction false} FailuresOfConcat(a: seq<ProbeOutcome>, b: seq<ProbeOutcome>)
    ensures Failures(a + b) == Failures(a) + Failures(b)
  {
    if a == [] {
      assert a + b == b;
    } else {
      assert (a + b)[0] == a[0] && (a + b)[1..] == a[1..] + b;
      FailuresOfConcat(a[1..], b);
      var h := FailureOf(a[0]);
      calc {
        Failures(a + b);
        h + Failures(a[1..] + b);
        h + (Failures(a[1..]) + Failures(b));
        (h + Failures(a[1..])) + Failures(b);
      }
    }
  }

  /** Every result is a latency or a failure, never both. */
  lemma {:induction false} PartitionSizes(results: seq<ProbeOutcome>)
    ensures |Latencies(results)| + |Failures(results)| == |results|
  {
    if results != [] {
      PartitionSizes(results[1..]);
    }
  }

  /** Every failure is an unsuccessful result. */
  lemma {:induction false} FailuresUnsuccessful(results: seq<ProbeOutcome>)
    ensures forall i :: 0 <= i < |Failures(results)| ==> !Failures(results)[i].success
  {
    if results != [] {
      var h := FailureOf(results[0]);
      var rest := Failures(results[1..]);
      FailuresUnsuccessful(results[1..]);
      assert forall i :: 0 <= i < |h| ==> !h[i].success;
      assert Failures(results) == h + rest;
      assert forall i :: |h| <= i < |h + rest| ==> (h + rest)[i] == rest[i - |h|];
    }
  }

  lemma SubMultisetCons<T>(h: T, f: seq<T>, rest: seq<T>, tail: seq<T>)
    requires multiset(f) <= multiset{h} && multiset(rest) <= multiset(tail)
    ensures multiset(f + rest) <= multiset([h] + tail)
  {
    assert multiset(f + rest) == multiset(f) + multiset(rest);
    assert multiset([h] + tail) == multiset{h} + multiset(tail);
  }

  /** The failures are taken from `results`, each no more often than it occurs there. */
  lemma {:induction false} FailuresSubMultiset(results: seq<ProbeOutcome>)
    ensures multiset(Failures(results)) <= multiset(results)
  {
    if results != [] {
      var h := results[0];
      FailuresSubMultiset(results[1..]);
      assert multiset(FailureOf(h)) <= multiset{h};
      SubMultisetCons(h, FailureOf(h), Failures(results[1..]), results[1..]);
      assert [h] + results[1..] == results;
    }
  }

  /** Every unsuccessful result is a failure, as often as it occurs among the results. */
  lemma {:induction false} FailuresComplete(results: seq<ProbeOutcome>)
    ensures forall o: ProbeOutcome :: !o.success ==> multiset(Failures(results))[o] == multiset(results)[o]
  {
    if results != [] {
      var h := results[0];
      FailuresComplete(results[1..]);
      assert results == [h] + results[1..];
      assert Failures(results) == FailureOf(h) + Failures(results[1..]);
      forall o: ProbeOutcome | !o.success
        ensures multiset(Failures(results))[o] == multiset(results)[o]
      {
        assert multiset(FailureOf(h))[o] == multiset{h}[o];
        calc {
          multiset(Failures(results))[o];
          multiset(FailureOf(h))[o] + multiset(Failures(results[1..]))[o];
          multiset{h}[o] + multiset(results[1..])[o];
          multiset([h] + results[1..])[o];
        }
      }
    }
  }

  /**
   * The success count is the number of latencies, counts and failures
   * add up to the number of results, and the failures are exactly the
   * unsuccessful results, each as often as it occurs.
   */
  lemma SummaryCounts(results: seq<ProbeOutcome>)
    ensures var r := Summarize(results);
            && r.successCount + |r.failures| == |results|
            && r.successCount == |r.latencies|
            && (forall i :: 0 <= i < |r.failures| ==> !r.failures[i].success)
            && multiset(r.failures) <= multiset(results)
            && (forall o: ProbeOutcome :: !o.success ==> multiset(r.failures)[o] == multiset(results)[o])
  {
    PartitionSizes(results);
    FailuresUnsuccessful(results);
    FailuresSubMultiset(results);
    FailuresComplete(results);
  }

  /** Each successful result contributes its elapsed time to the latencies, each failed one itself to the failures. */
  lemma OneResult(r: ProbeOutcome)
    ensures Latencies([r]) == if r.success then [r.elapsed] else []
    ensures Failures([r]) == if r.success then [] else [r]
  {
    assert [r][1..] == [];
  }

  // ---------------- probe_once ----------------

  /**
   * The outcome of one HTTP attempt: a response (status, body, elapsed),
   * an `asyncio.TimeoutError`, or another exception with its message.
   */
  datatype Attempt = Response(status: int, text: string, elapsed: real)
                   | TimedOut(elapsed: real)
                   | Raised(message: string, elapsed: real)

  /** `200 <= resp.status < 400` */
  predicate IsSuccessStatus(status: int) {
    200 <= status < 400
  }

  /** The tuple returned for a response: failures carry the first 200 characters of the body. */
  function FromResponse(a: Attempt): (r: ProbeOutcome)
    requires a.Response?
    ensures r.success <==> IsSuccessStatus(a.status)
    ensures r.status == a.status && r.elapsed == a.elapsed
    ensures r.success ==> r.err == ""
    ensures !r.success ==> r.err == Prefix(a.text, 200)
  {
    var success := IsSuccessStatus(a.status);
    ProbeOutcome(success, a.elapsed, a.status, if !success then Prefix(a.text, 200) else "")
  }

  /** The error text of a failed attempt: "timeout" or the exception's message. */
  function ErrorText(a: Attempt): string
    requires !a.Response?
  {
    if a.TimedOut? then "timeout" else a.message
  }

  /**
   * `probe_once`: makes attempts until one completes with a response, at
   * most `retries + 1` of them, and returns the response's tuple or, after
   * the last failed attempt, `(False, elapsed, 0, err)`.  With
   * `retries < 0` the loop never runs and Python returns `None`.
   * `attempts[i]` is how the (i+1)-th request ends; `made` is the number
   * of requests sent.
   */
  method ProbeOnce(retries: int, attempts: seq<Attempt>) returns (r: Option<ProbeOutcome>, made: nat)
    requires retries < |attempts|
    ensures retries < 0 <==> r.None?
    ensures retries < 0 ==> made == 0
    ensures retries >= 0 ==> 1 <= made <= retries + 1
    ensures forall i :: 0 <= i < made - 1 ==> !attempts[i].Response?
    ensures made > 0 && attempts[made - 1].Response? ==> r == Some(FromResponse(attempts[made - 1]))
    ensures made > 0 && !attempts[made - 1].Response? ==>
              made == retries + 1 && r == Some(ProbeOutcome(false, attempts[made - 1].elapsed, 0, ErrorText(attempts[made - 1])))
  {
    var attempt := 0;
    while attempt <= retries
      invariant 0 <= attempt && (attempt == 0 || attempt <= retries)
      invariant forall i :: 0 <= i < attempt ==> !attempts[i].Response?
      decreases retries - attempt
    {
      attempt := attempt + 1;
      var a := attempts[attempt - 1];
      if a.Response? {
        return Some(FromResponse(a)), attempt;
      }
      var elapsed := a.elapsed;
      var err := ErrorText(a);
      if attempt > retries {
        return Some(ProbeOutcome(false, elapsed, 0, err)), attempt;
      }
      // the exponential backoff sleep before the next attempt is not modelled
    }
    return None, 0;
  }

  // ---------------- targets ----------------

  /** What one line adds to the targets: the line stripped, unless that leaves nothing. */
  function Kept(line: string): seq<string> {
    if Strip(line) != [] then [Strip(line)] else []
  }

  /** A kept line is non-empty and already stripped. */
  lemma KeptIsStripped(line: string)
    ensures forall t :: t in Kept(line) ==> t != [] && Strip(t) == t
  {
    StripIdempotent(line);
  }

  /** `[line.strip() for line in lines if line.strip()]` */
  function StripNonEmpty(lines: seq<string>): seq<string>
  {
    if lines == [] then [] else Kept(lines[0]) + StripNonEmpty(lines[1..])
  }

  /** No more targets than lines. */
  lemma {:induction false} StripNonEmptyLength(lines: seq<string>)
    ensures |StripNonEmpty(lines)| <= |lines|
  {
    if lines != [] {
      StripNonEmptyLength(lines[1..]);
    }
  }

  /** Every kept target is non-empty and already stripped. */
  lemma {:induction false} StripNonEmptyKept(lines: seq<string>)
    ensures forall t :: t in StripNonEmpty(lines) ==> t != [] && Strip(t) == t
  {
    if lines != [] {
      StripNonEmptyKept(lines[1..]);
      KeptIsStripped(lines[0]);
      assert StripNonEmpty(lines) == Kept(lines[0]) + StripNonEmpty(lines[1..]);
    }
  }

  /** The loader keeps file order: it works line by line over a concatenation. */
  lemma {:induction false} StripNonEmptyOfConcat(a: seq<string>, b: seq<string>)
    ensures StripNonEmpty(a + b) == StripNonEmpty(a) + StripNonEmpty(b)
  {
    if a == [] {
      assert a + b == b;
    } else {
      assert (a + b)[0] == a[0] && (a + b)[1..] == a[1..] + b;
      StripNonEmptyOfConcat(a[1..], b);
      var h := Kept(a[0]);
      calc {
        StripNonEmpty(a + b);
        h + StripNonEmpty(a[1..] + b);
        h + (StripNonEmpty(a[1..]) + StripNonEmpty(b));
        (h + StripNonEmpty(a[1..])) + StripNonEmpty(b);
      }
    }
  }

  /** A line is kept, stripped, exactly when it is not all whitespace. */
  lemma StripNonEmptyOneLine(line: string)
    ensures StripNonEmpty([line]) == if forall k :: 0 <= k < |line| ==> IsSpace(line[k]) then [] else [Strip(line)]
  {
    StripEmptyIff(line);
    assert [line][1..] == [];
  }

  /** Why `load_targets_from_file` exits with status 1. */
  datatype LoadError = FileNotFound | NoTargets

  /**
   * `load_targets_from_file(path)`: `file` is the lines the file iterator
   * yields, or `None` when the path does not exist.
   */
  function LoadTargetsFromFile(file: Option<seq<string>>): (r: Result<seq<string>, LoadError>)
    ensures file.None? ==> r == Failure(FileNotFound)
    ensures file.Some? ==> (r == Failure(NoTargets) <==> StripNonEmpty(file.value) == [])
    ensures r.Success? ==> r.value == StripNonEmpty(file.value) && r.value != []
  {
    match file
    case None => Failure(FileNotFound)
    case Some(lines) =>
      var targets := StripNonEmpty(lines);
      if targets == [] then Failure(NoTargets) else Success(targets)
  }

  /** Targets loaded from a file are non-empty and carry no surrounding whitespace. */
  lemma LoadedTargetsStripped(file: Option<seq<string>>)
    ensures var r := LoadTargetsFromFile(file);
            r.Success? ==> forall t :: t in r.value ==> t != [] && Strip(t) == t
  {
    if file.Some? {
      StripNonEmptyKept(file.value);
    }
  }

  /** `[base_target] * concurrency` */
  function DefaultTargets(baseTarget: string, concurrency: int): (r: seq<string>)
    ensures |r| == if concurrency < 0 then 0 else concurrency
    ensures forall i :: 0 <= i < |r| ==> r[i] == baseTarget
    decreases if concurrency < 0 then 0 else concurrency
  {
    if concurrency <= 0 then [] else DefaultTargets(baseTarget, concurrency - 1) + [baseTarget]
  }

  /**
   * The target list of `main`: the file's targets when a (non-empty)
   * `--targets-file` is given, the base target repeated otherwise.
   */
  function SelectTargets(targetsFile: Option<string>, file: Option<seq<string>>,
                         baseTarget: string, concurrency: int): (r: Result<seq<string>, LoadError>)
    ensures (targetsFile.None? || targetsFile == Some("")) ==> r == Success(DefaultTargets(baseTarget, concurrency))
    ensures targetsFile.Some? && targetsFile != Some("") ==> r == LoadTargetsFromFile(file)
  {
    if targetsFile.Some? && targetsFile.value != "" then LoadTargetsFromFile(file)
    else Success(DefaultTargets(baseTarget, concurrency))
  }
}
