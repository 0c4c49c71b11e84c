/**
 * One address's records as the scans of src/response_times.py read them:
 * sorted by time (`sorted(records.items())`), then either checked for the
 * no-response marker (the failure scan, lines 112-142) or averaged over a
 * trailing window (the high-load scan, lines 155-199).
 *
 * Timestamps are integers: the 14-digit YYYYMMDDHHMMSS value orders as the
 * `datetime` does.
 */
module Series {
  import opened Util
  import opened Numbers
  import opened Runs

  /** One record: its timestamp and its raw value token. */
  datatype Obs = Obs(time: int, value: string)

  predicate SortedByTime(s: seq<Obs>) {
    forall i, j :: 0 <= i < j < |s| ==> s[i].time < s[j].time
  }

  predicate IsLeast(m: int, ts: set<int>) {
    m in ts && forall t :: t in ts ==> m <= t
  }

  lemma {:induction false} LeastOf(ts: set<int>) returns (m: int)
    requires ts != {}
    ensures IsLeast(m, ts)
    decreases ts
  {
    if forall y :: y !in ts { assert false; }
    var x: int :| x in ts;
    var rest := ts - {x};
    if rest == {} {
      assert ts == {x};
      m := x;
    } else {
      var r := LeastOf(rest);
      m := if x < r then x else r;
      forall t | t in ts ensures m <= t {
        if t != x { assert t in rest; }
      }
    }
  }

  lemma LeastExists(ts: set<int>)
    requires ts != {}
    ensures exists m :: IsLeast(m, ts)
  {
    var m := LeastOf(ts);
  }

  /** The earliest of a non-empty set of timestamps. */
  function Least(ts: set<int>): (m: int)
    requires ts != {}
    ensures IsLeast(m, ts)
  {
    LeastExists(ts);
    var m :| IsLeast(m, ts);
    m
  }

  /** `sorted(records.items())`: the records of one address, earliest first. */
  function SeriesOf(records: map<int, string>): seq<Obs>
    decreases records.Keys
  {
    if records == map[] then []
    else
      assert records.Keys != {} by {
        if forall t :: t !in records { assert false; }
      }
      var m := Least(records.Keys);
      [Obs(m, records[m])] + SeriesOf(records - {m})
  }

  /** The series lists the records in time order, each timestamp of the map exactly
      once with its value. */
  lemma {:induction false} SeriesOfSorted(records: map<int, string>)
    ensures var s := SeriesOf(records);
      && SortedByTime(s)
      && (forall i :: 0 <= i < |s| ==> s[i].time in records && records[s[i].time] == s[i].value)
      && (forall t :: t in records ==> exists i :: 0 <= i < |s| && s[i].time == t)
    decreases records.Keys
  {
    if records != map[] {
      assert records.Keys != {} by {
        if forall t :: t !in records { assert false; }
      }
      var m := Least(records.Keys);
      SeriesOfSorted(records - {m});
      EarliestFirst(records, m, SeriesOf(records - {m}));
    }
  }

  /** Putting the earliest record in front of the sorted others sorts them all. */
  lemma EarliestFirst(records: map<int, string>, m: int, rest: seq<Obs>)
    requires IsLeast(m, records.Keys)
    requires SortedByTime(rest)
    requires forall i :: 0 <= i < |rest| ==> rest[i].time in records - {m} && (records - {m})[rest[i].time] == rest[i].value
    requires forall t :: t in records - {m} ==> exists i :: 0 <= i < |rest| && rest[i].time == t
    ensures var s := [Obs(m, records[m])] + rest;
      && SortedByTime(s)
      && (forall i :: 0 <= i < |s| ==> s[i].time in records && records[s[i].time] == s[i].value)
      && (forall t :: t in records ==> exists i :: 0 <= i < |s| && s[i].time == t)
  {
    var s := [Obs(m, records[m])] + rest;
    forall i | 0 <= i < |s| ensures s[i].time in records && records[s[i].time] == s[i].value {
      if i > 0 {
        assert s[i] == rest[i - 1];
      }
    }
    forall i, j | 0 <= i < j < |s| ensures s[i].time < s[j].time {
      assert s[j] == rest[j - 1];
      if i > 0 {
        assert s[i] == rest[i - 1];
      }
    }
    forall t | t in records ensures exists i :: 0 <= i < |s| && s[i].time == t {
      if t == m {
        assert s[0].time == t;
      } else {
        assert t in records - {m};
        var i :| 0 <= i < |rest| && rest[i].time == t;
        assert s[i + 1].time == t;
      }
    }
  }

  /** A non-empty record map gives a non-empty series. */
  lemma SeriesNonEmpty(records: map<int, string>)
    requires records != map[]
    ensures |SeriesOf(records)| > 0
  {
    if forall t :: t !in records { assert false; }
    var t :| t in records;
    SeriesOfSorted(records);
    var i :| 0 <= i < |SeriesOf(records)| && SeriesOf(records)[i].time == t;
  }

  // ---------------------------------------------------------------- failures

  /** The failure scan's view: a record belongs to a run when its value is the no-response marker. */
  function Outages(s: seq<Obs>): (m: seq<Sample>)
    ensures |m| == |s|
    ensures forall i :: 0 <= i < |s| ==> m[i] == Sample(s[i].time, s[i].value == NoResponse)
  {
    seq(|s|, i requires 0 <= i < |s| => Sample(s[i].time, s[i].value == NoResponse))
  }

  /** What the failure scan reports for one address with run-length threshold `th`:
      the period of every maximal no-response run of at least `th` records; and, when
      `th <= 0` and the last record is a response, one more period from the start of
      the last run (0 if there was none) to the last record, because the check after
      the loop compares the zero counter with the threshold. */
  function Failures(s: seq<Obs>, th: int): seq<Period> {
    Reported(Outages(s), 0, th) + OpenTail(s, th)
  }

  function OpenTail(s: seq<Obs>, th: int): seq<Period> {
    if th <= 0 && |s| > 0 && s[|s| - 1].value != NoResponse
    then [Period(LastRunStart(Outages(s), |s|), s[|s| - 1].time)]
    else []
  }

  /** For a threshold of at least 1, the failure periods are exactly the periods of the
      maximal no-response runs that have at least `th` records: a run closed by a response
      ends at that response's time, a run still open ends at the last record's time. */
  lemma FailuresAreRuns(s: seq<Obs>, th: int)
    requires th >= 1
    ensures forall p :: p in Failures(s, th) <==>
      exists i, j :: IsRun(Outages(s), i, j) && j - i >= th && p == RunPeriod(Outages(s), i, j)
  {
    assert Failures(s, th) == Reported(Outages(s), 0, th);
    RunsIff(Outages(s), th);
  }

  /** For a threshold of at least 1, one address's failure periods are in time order,
      each starts no later than it ends, and each ends before the next one starts. */
  lemma FailuresOrdered(s: seq<Obs>, th: int)
    requires th >= 1 && SortedByTime(s)
    ensures Ordered(Failures(s, th))
  {
    assert Failures(s, th) == Reported(Outages(s), 0, th);
    ReportedOrdered(Outages(s), 0, th);
  }

  /** Raising the threshold keeps a subsequence of the failure periods, for every pair of thresholds. */
  lemma FailuresMonotone(s: seq<Obs>, th1: int, th2: int)
    requires th1 <= th2
    ensures IsSubseq(Failures(s, th2), Failures(s, th1))
  {
    var m := Outages(s);
    ReportedMonotone(m, 0, th1, th2);
    if th2 >= 1 {
      assert OpenTail(s, th2) == [];
      SubseqConcat(Reported(m, 0, th2), Reported(m, 0, th1), [], OpenTail(s, th1));
      assert Failures(s, th2) == Reported(m, 0, th2) + [];
    } else {
      SubseqRefl(OpenTail(s, th1));
      SubseqConcat(Reported(m, 0, th2), Reported(m, 0, th1), OpenTail(s, th2), OpenTail(s, th1));
    }
  }

  lemma {:induction false} NoRunStartsAtZero(m: seq<Sample>, i: nat)
    requires i <= |m| && forall k :: 0 <= k < |m| ==> !m[k].hit
    ensures LastRunStart(m, i) == 0
  {
    if i > 0 {
      NoRunStartsAtZero(m, i - 1);
    }
  }

  /** With a threshold of 0 or less and no failure at all, the scan still reports one
      period, from time 0 to the last record. */
  lemma SpuriousOpenPeriod(s: seq<Obs>, th: int)
    requires th <= 0 && |s| > 0
    requires forall k :: 0 <= k < |s| ==> s[k].value != NoResponse
    ensures Failures(s, th) == [Period(0, s[|s| - 1].time)]
  {
    NoHitsNothingReported(Outages(s), 0, th);
    NoRunStartsAtZero(Outages(s), |s|);
  }

  /** With a threshold of 0 or less, a failure closed by the last record is reported
      twice: once when the response closes it, and once more by the check after the
      loop, which finds the zero counter at the threshold and reuses the run's start. */
  lemma ClosingPeriodTwice(s: seq<Obs>, th: int)
    requires th <= 0 && |s| >= 2
    requires s[|s| - 2].value == NoResponse && s[|s| - 1].value != NoResponse
    ensures var f := Failures(s, th);
      && |f| >= 2 && f[|f| - 2] == f[|f| - 1]
      && f[|f| - 1].end == s[|s| - 1].time
  {
    var m := Outages(s);
    var e := |s| - 1;
    var b := RunStart(m, e - 1);
    var pre := ReportedSplit(m, 0, b, th);
    ClosedRun(m, b, e, th);
    assert Reported(m, e + 1, th) == [];
    LastRunStartInRun(m, b, e);
    assert LastRunStart(m, |s|) == LastRunStart(m, e);
    var p := Period(m[b].time, s[e].time);
    assert Failures(s, th) == pre + [p] + [p];
  }

  /** The smallest such log: one failure, then a response, threshold 0. */
  lemma DuplicatedClosingPeriod()
    ensures Failures([Obs(5, NoResponse), Obs(6, "1")], 0) == [Period(5, 6), Period(5, 6)]
  {
    var s := [Obs(5, NoResponse), Obs(6, "1")];
    var m := Outages(s);
    assert m == [Sample(5, true), Sample(6, false)];
    assert RunEnd(m, 1) == 1;
    assert RunEnd(m, 0) == 1;
    assert Reported(m, 2, 0) == [];
    assert Reported(m, 1, 0) == [];
    assert LastRunStart(m, 2) == 5;
  }

  /** Two failures then a response, threshold 1: one period, first failure to the response. */
  lemma RecoveredRunScenario()
    ensures Failures([Obs(1, NoResponse), Obs(2, NoResponse), Obs(3, "5")], 1) == [Period(1, 3)]
  {
    var m := Outages([Obs(1, NoResponse), Obs(2, NoResponse), Obs(3, "5")]);
    assert m == [Sample(1, true), Sample(2, true), Sample(3, false)];
    assert RunEnd(m, 2) == 2;
    assert RunEnd(m, 0) == 2;
    assert Reported(m, 3, 1) == [];
    assert Reported(m, 2, 1) == [];
  }

  // --------------------------------------------------------------- high load

  function Min(a: int, b: int): int {
    if a <= b then a else b
  }

  /** The values of a series, in order. */
  function Values(s: seq<Obs>): (v: seq<string>)
    ensures |v| == |s|
    ensures forall i :: 0 <= i < |s| ==> v[i] == s[i].value
  {
    seq(|s|, i requires 0 <= i < |s| => s[i].value)
  }

  /** The trailing window after record `i` was appended and the oldest entry dropped:
      the last `n` values up to and including record `i` (fewer at the start; none
      when `n <= 0`, since the only entry is dropped at once). */
  function Window(vals: seq<string>, i: nat, n: int): (w: seq<string>)
    requires i < |vals|
    ensures n <= 0 ==> w == []
    ensures n > 0 ==> |w| == Min(i + 1, n) && w[|w| - 1] == vals[i]
  {
    if n <= 0 then [] else vals[i + 1 - Min(i + 1, n)..i + 1]
  }

  /** One step of the cache: after appending value `i` to the window of the previous
      record, the cache exceeds `n` entries exactly when at least `n` records came
      before, and dropping its oldest entry then (and only then) gives the window of
      record `i`: at most `n` entries, the most recent ones, ending with value `i`. */
  lemma WindowSlide(vals: seq<string>, i: nat, n: int)
    requires i < |vals|
    ensures var grown := (if i == 0 then [] else Window(vals, i - 1, n)) + [vals[i]];
      && (|grown| > n <==> i >= n)
      && (if |grown| > n then grown[1..] else grown) == Window(vals, i, n)
  {
    if i > 0 && n > 0 {
      var prev := Window(vals, i - 1, n);
      assert prev == vals[i - Min(i, n)..i];
      assert prev + [vals[i]] == vals[i - Min(i, n)..i + 1];
    }
  }

  /** The cache the loop keeps once `i` records have been appended: empty at first,
      then the window of the last record appended. */
  ghost function Cache(vals: seq<string>, i: nat, n: int): seq<string>
    requires i <= |vals|
  {
    if i == 0 then [] else Window(vals, i - 1, n)
  }

  /** The same step stated on the cache the loop keeps, with `v` the value of record `i`. */
  lemma CacheStep(vals: seq<string>, i: nat, n: int, v: string)
    requires i < |vals| && v == vals[i]
    ensures Cache(vals, i + 1, n) == Window(vals, i, n)
    ensures |Cache(vals, i, n) + [v]| > n <==> i >= n
    ensures |Cache(vals, i, n) + [v]| > n ==> (Cache(vals, i, n) + [v])[1..] == Cache(vals, i + 1, n)
    ensures |Cache(vals, i, n) + [v]| <= n ==> Cache(vals, i, n) + [v] == Cache(vals, i + 1, n)
  {
    WindowSlide(vals, i, n);
  }

  /** The entries of a window that `is_natural_number` accepts, as numbers. */
  function Numeric(w: seq<string>): (r: seq<nat>)
    ensures |r| <= |w|
  {
    if w == [] then []
    else (if IsNaturalNumber(w[0]) then [NaturalValue(w[0])] else []) + Numeric(w[1..])
  }

  function Sum(xs: seq<nat>): nat {
    if xs == [] then 0 else xs[0] + Sum(xs[1..])
  }

  /** The mean of the numbers of `nums` and `count` numbers read before them that add
      up to `total`, as `average` computes it: the running total of `reduce`, then one
      division; `None` when there are no numbers at all. */
  function MeanAfter(nums: seq<nat>, total: nat, count: nat): (a: Option<real>)
    ensures a.None? <==> nums == [] && count == 0
    decreases |nums|
  {
    if nums == [] then (if count == 0 then None else Some(total as real / count as real))
    else MeanAfter(nums[1..], total + nums[0], count + 1)
  }

  /** The mean of a list of numbers, `None` for an empty list. */
  function Mean(nums: seq<nat>): (a: Option<real>)
    ensures a.None? <==> nums == []
  {
    MeanAfter(nums, 0, 0)
  }

  /** The running total ends at the sum: the mean is the sum over the count. */
  lemma {:induction false} MeanAfterValue(nums: seq<nat>, total: nat, count: nat)
    requires count + |nums| > 0
    ensures MeanAfter(nums, total, count) == Some((total + Sum(nums)) as real / (count + |nums|) as real)
    decreases |nums|
  {
    if nums != [] {
      MeanAfterValue(nums[1..], total + nums[0], count + 1);
    }
  }

  /** The mean times the count gives the sum back. */
  lemma MeanTimesCount(nums: seq<nat>)
    requires nums != []
    ensures Mean(nums).value * |nums| as real == Sum(nums) as real
  {
    MeanAfterValue(nums, 0, 0);
    DivBack(Sum(nums) as real, |nums| as real);
  }

  /** `average`: the mean of the entries `is_natural_number` accepts, `None` when there are none. */
  function Average(w: seq<string>): Option<real> {
    Mean(Numeric(w))
  }

  /** A mean reaches a threshold exactly when the sum reaches threshold times the count. */
  lemma MeanReaches(nums: seq<nat>, threshold: real)
    ensures (Mean(nums).Some? && Mean(nums).value >= threshold) <==>
      |nums| > 0 && Sum(nums) as real >= threshold * |nums| as real
  {
    if nums != [] {
      MeanTimesCount(nums);
      MeanCompare(Mean(nums).value, |nums| as real, Sum(nums) as real, threshold);
    }
  }

  lemma DivBack(x: real, c: real)
    requires c > 0.0
    ensures (x / c) * c == x
  {
  }

  lemma MeanCompare(a: real, c: real, total: real, t: real)
    requires c > 0.0 && a * c == total
    ensures a >= t <==> total >= t * c
  {
    if a >= t {
      assert (a - t) * c >= 0.0;
    } else {
      assert (t - a) * c > 0.0;
    }
  }

  /** A window shows high load when its average exists and reaches the threshold. */
  predicate IsHighLoad(w: seq<string>, threshold: real) {
    var a := Average(w);
    a.Some? && a.value >= threshold
  }

  /** Record `i` shows high load: more than `n` records have been appended up to it
      (it is the `(n+1)`-th or later) and its window shows high load. */
  predicate HighAt(s: seq<Obs>, i: nat, n: int, threshold: real)
    requires i < |s|
  {
    i >= n && IsHighLoad(Window(Values(s), i, n), threshold)
  }

  /** The high-load scan's view: record `i` belongs to a run when it shows high load. */
  function Loads(s: seq<Obs>, n: int, threshold: real): (m: seq<Sample>)
    ensures |m| == |s|
    ensures forall i :: 0 <= i < |s| ==> m[i].time == s[i].time
    ensures forall i {:trigger HighAt(s, i, n, threshold)} :: 0 <= i < |s| ==>
      (m[i].hit <==> HighAt(s, i, n, threshold))
  {
    LoadsFrom(s, n, threshold, 0)
  }

  /** The view of records `k` onwards. */
  function LoadsFrom(s: seq<Obs>, n: int, threshold: real, k: nat): (m: seq<Sample>)
    requires k <= |s|
    ensures |m| == |s| - k
    ensures forall j :: k <= j < |s| ==> m[j - k].time == s[j].time
    ensures forall j {:trigger HighAt(s, j, n, threshold)} :: k <= j < |s| ==>
      (m[j - k].hit <==> HighAt(s, j, n, threshold))
    decreases |s| - k
  {
    if k == |s| then [] else [Sample(s[k].time, HighAt(s, k, n, threshold))] + LoadsFrom(s, n, threshold, k + 1)
  }

  /** What the high-load scan reports for one address: every maximal run of high-load
      records, with no length threshold. */
  function HighLoads(s: seq<Obs>, n: int, threshold: real): seq<Period> {
    Reported(Loads(s, n, threshold), 0, 1)
  }

  /** A high-load period starts at a record whose window shows high load after its
      predecessor did not, and ends at the first later evaluated record whose window
      does not, or at the last record. */
  lemma HighLoadsAreRuns(s: seq<Obs>, n: int, threshold: real)
    ensures forall p :: p in HighLoads(s, n, threshold) <==>
      exists i, j :: IsRun(Loads(s, n, threshold), i, j) && p == RunPeriod(Loads(s, n, threshold), i, j)
  {
    RunsIff(Loads(s, n, threshold), 1);
  }

  /** With a window size of 0 or less the window is always empty, so nothing is reported. */
  lemma NoWindowNoHighLoad(s: seq<Obs>, n: int, threshold: real)
    requires n <= 0
    ensures HighLoads(s, n, threshold) == []
  {
    var m := Loads(s, n, threshold);
    forall k | 0 <= k < |m| ensures !m[k].hit {
      assert !HighAt(s, k, n, threshold);
    }
    NoHitsNothingReported(m, 0, 1);
  }

  /** One address's high-load periods are in time order and disjoint. */
  lemma HighLoadsOrdered(s: seq<Obs>, n: int, threshold: real)
    requires SortedByTime(s)
    ensures Ordered(HighLoads(s, n, threshold))
  {
    ReportedOrdered(Loads(s, n, threshold), 0, 1);
  }

  /** Raising the average threshold only shrinks or splits periods: every period found
      with the higher threshold lies within one found with the lower. */
  lemma HighLoadsNested(s: seq<Obs>, n: int, t1: real, t2: real)
    requires t1 <= t2 && SortedByTime(s)
    ensures forall p2 :: p2 in HighLoads(s, n, t2) ==>
      exists p1 :: p1 in HighLoads(s, n, t1) && p1.start <= p2.start && p2.end <= p1.end
  {
    var m1, m2 := Loads(s, n, t1), Loads(s, n, t2);
    forall k | 0 <= k < |m1| ensures m2[k].hit ==> m1[k].hit {
      assert HighAt(s, k, n, t2) ==> HighAt(s, k, n, t1);
    }
    RunsNested(m1, m2);
  }

  // ---------------------------------------------------- the scan loops' states

  /** The failure scan after `i` records: `count` no-response records end the prefix,
      `start` is the time of the last run's first record (0 before any run), and
      `emitted` holds the periods appended so far. */
  ghost predicate FailureScan(s: seq<Obs>, th: int, i: nat, count: int, start: int, emitted: seq<Period>) {
    var m := Outages(s);
    && 0 <= count <= i <= |s|
    && Scanning(m, th, i, i - count, emitted)
    && start == LastRunStart(m, i)
    && (count > 0 ==> start == s[i - count].time)
  }

  lemma FailureScanStart(s: seq<Obs>, th: int)
    ensures FailureScan(s, th, 0, 0, 0, [])
  {
    ScanStart(Outages(s), th);
  }

  /** A no-response record: a run opens at it when none is open, and the counter grows. */
  lemma FailureScanNoResponse(s: seq<Obs>, th: int, i: nat, count: int, start: int, emitted: seq<Period>)
    requires FailureScan(s, th, i, count, start, emitted) && i < |s| && s[i].value == NoResponse
    ensures FailureScan(s, th, i + 1, count + 1, if count <= 0 then s[i].time else start, emitted)
  {
    ScanHit(Outages(s), th, i, i - count, emitted);
  }

  /** A response after a run closes it, emitting it when it has at least `th` records. */
  lemma FailureScanRecovered(s: seq<Obs>, th: int, i: nat, count: int, start: int, emitted: seq<Period>)
    requires FailureScan(s, th, i, count, start, emitted) && i < |s| && s[i].value != NoResponse
    requires count >= 1
    ensures FailureScan(s, th, i + 1, 0, start,
      emitted + (if count >= th then [Period(start, s[i].time)] else []))
  {
    ScanClose(Outages(s), th, i, i - count, emitted);
  }

  /** A response with no run open changes nothing. */
  lemma FailureScanResponse(s: seq<Obs>, th: int, i: nat, count: int, start: int, emitted: seq<Period>)
    requires FailureScan(s, th, i, count, start, emitted) && i < |s| && s[i].value != NoResponse
    requires count < 1
    ensures FailureScan(s, th, i + 1, count, start, emitted)
  {
    ScanMiss(Outages(s), th, i, emitted);
  }

  /** The check after the loop completes the failure periods; it reads the last record
      only when the counter reaches the threshold, which on no records needs a threshold
      of 0 or less. */
  lemma FailureScanEnd(s: seq<Obs>, th: int, count: int, start: int, emitted: seq<Period>)
    requires (|s| > 0 || th >= 1) && FailureScan(s, th, |s|, count, start, emitted)
    ensures count >= th ==> |s| > 0
    ensures emitted + (if count >= th then [Period(start, s[|s| - 1].time)] else []) == Failures(s, th)
  {
    var m := Outages(s);
    ScanEnd(m, th, |s| - count, emitted);
    if count > 0 {
      assert m[|s| - 1].hit;
      assert OpenTail(s, th) == [];
    } else if |s| > 0 {
      assert !m[|s| - 1].hit;
    }
  }

  /** The high-load scan after `i` records: the open run, if any, starts at record `from`
      and `loadStart` holds its time; `emitted` holds the periods appended so far. */
  ghost predicate HighLoadScan(s: seq<Obs>, n: int, threshold: real, i: nat, from: nat,
                               loadStart: Option<int>, emitted: seq<Period>) {
    && Scanning(Loads(s, n, threshold), 1, i, from, emitted)
    && (loadStart.None? <==> from == i)
    && (loadStart.Some? ==> from < |s| && loadStart.value == s[from].time)
  }

  lemma HighLoadScanStart(s: seq<Obs>, n: int, threshold: real)
    ensures HighLoadScan(s, n, threshold, 0, 0, None, [])
  {
    ScanStart(Loads(s, n, threshold), 1);
  }

  /** While fewer than `n + 1` records have been appended no run can be open. */
  lemma HighLoadScanEarly(s: seq<Obs>, n: int, threshold: real, i: nat, from: nat,
                          loadStart: Option<int>, emitted: seq<Period>)
    requires HighLoadScan(s, n, threshold, i, from, loadStart, emitted) && i < |s| && i < n
    ensures loadStart.None? && HighLoadScan(s, n, threshold, i + 1, i + 1, None, emitted)
  {
    var m := Loads(s, n, threshold);
    assert from < i ==> HighAt(s, from, n, threshold);
    assert !HighAt(s, i, n, threshold);
    ScanMiss(m, 1, i, emitted);
  }

  /** A record whose window shows high load opens a run when none is open. */
  lemma HighLoadScanOpen(s: seq<Obs>, n: int, threshold: real, i: nat, emitted: seq<Period>)
    requires HighLoadScan(s, n, threshold, i, i, None, emitted) && i < |s|
    requires HighAt(s, i, n, threshold)
    ensures HighLoadScan(s, n, threshold, i + 1, i, Some(s[i].time), emitted)
  {
    ScanHit(Loads(s, n, threshold), 1, i, i, emitted);
  }

  /** A record whose window shows high load extends the open run. */
  lemma HighLoadScanHigh(s: seq<Obs>, n: int, threshold: real, i: nat, from: nat,
                         start: int, emitted: seq<Period>)
    requires HighLoadScan(s, n, threshold, i, from, Some(start), emitted) && i < |s|
    requires HighAt(s, i, n, threshold)
    ensures HighLoadScan(s, n, threshold, i + 1, from, Some(start), emitted)
  {
    ScanHit(Loads(s, n, threshold), 1, i, from, emitted);
  }

  /** A record whose window does not show high load closes the open run, emitting
      its period. */
  lemma HighLoadScanClose(s: seq<Obs>, n: int, threshold: real, i: nat, from: nat,
                          start: int, emitted: seq<Period>)
    requires HighLoadScan(s, n, threshold, i, from, Some(start), emitted) && i < |s|
    requires i >= n && !HighAt(s, i, n, threshold)
    ensures HighLoadScan(s, n, threshold, i + 1, i + 1, None, emitted + [Period(start, s[i].time)])
  {
    ScanClose(Loads(s, n, threshold), 1, i, from, emitted);
  }

  /** A record whose window does not show high load, with no run open, is skipped. */
  lemma HighLoadScanLow(s: seq<Obs>, n: int, threshold: real, i: nat, emitted: seq<Period>)
    requires HighLoadScan(s, n, threshold, i, i, None, emitted) && i < |s|
    requires i >= n && !HighAt(s, i, n, threshold)
    ensures HighLoadScan(s, n, threshold, i + 1, i + 1, None, emitted)
  {
    ScanMiss(Loads(s, n, threshold), 1, i, emitted);
  }

  /** Where the open run starts after record `i`: where it started while the load
      stays high, and nowhere (after `i`) otherwise. */
  ghost function NextFrom(s: seq<Obs>, n: int, threshold: real, i: nat, from: nat): nat
    requires i < |s|
  {
    if HighAt(s, i, n, threshold) then from else i + 1
  }

  /** `load_start_time` after record `i`. */
  ghost function NextStart(s: seq<Obs>, n: int, threshold: real, i: nat, loadStart: Option<int>): Option<int>
    requires i < |s|
  {
    if !HighAt(s, i, n, threshold) then None
    else if loadStart.None? then Some(s[i].time)
    else loadStart
  }

  /** The periods reported after record `i`: one more when record `i` closes a run. */
  ghost function NextEmitted(s: seq<Obs>, n: int, threshold: real, i: nat, loadStart: Option<int>,
                             emitted: seq<Period>): seq<Period>
    requires i < |s|
  {
    if !HighAt(s, i, n, threshold) && loadStart.Some? then emitted + [Period(loadStart.value, s[i].time)]
    else emitted
  }

  /** One record of the high-load scan, whichever way its window goes. */
  lemma HighLoadScanStep(s: seq<Obs>, n: int, threshold: real, i: nat, from: nat,
                         loadStart: Option<int>, emitted: seq<Period>)
    requires HighLoadScan(s, n, threshold, i, from, loadStart, emitted) && i < |s|
    ensures i < n ==> loadStart.None?
    ensures HighLoadScan(s, n, threshold, i + 1, NextFrom(s, n, threshold, i, from),
      NextStart(s, n, threshold, i, loadStart), NextEmitted(s, n, threshold, i, loadStart, emitted))
  {
    if i < n {
      HighLoadScanEarly(s, n, threshold, i, from, loadStart, emitted);
    } else if HighAt(s, i, n, threshold) {
      if loadStart.None? {
        HighLoadScanOpen(s, n, threshold, i, emitted);
      } else {
        HighLoadScanHigh(s, n, threshold, i, from, loadStart.value, emitted);
      }
    } else if loadStart.Some? {
      HighLoadScanClose(s, n, threshold, i, from, loadStart.value, emitted);
    } else {
      HighLoadScanLow(s, n, threshold, i, emitted);
    }
  }

  /** The check after the loop completes the high-load periods. */
  lemma HighLoadScanEnd(s: seq<Obs>, n: int, threshold: real, from: nat,
                        loadStart: Option<int>, emitted: seq<Period>)
    requires HighLoadScan(s, n, threshold, |s|, from, loadStart, emitted)
    ensures emitted + (if loadStart.Some? then [Period(loadStart.value, s[|s| - 1].time)] else [])
      == HighLoads(s, n, threshold)
  {
    ScanEnd(Loads(s, n, threshold), 1, from, emitted);
  }
}
