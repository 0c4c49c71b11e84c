/**
 * The interval detector shared by the failure scan and the high-load scan
 * of src/response_times.py: over one address's records in time order, a
 * run is a maximal stretch of consecutive records that satisfy the scan's
 * predicate. A run closed by a later record is reported as (time of its
 * first record, time of the record that closed it); a run still open at
 * the end is reported as (time of its first record, time of the last record).
 *
 * `Reported` defines the reported periods by splitting the records into
 * runs; the scans of the source are loops with counters, proved equal to
 * it in module Scans.
 */
module Runs {
  import opened Util

  /** One record as a scan sees it: its time, and whether it satisfies the predicate. */
  datatype Sample = Sample(time: int, hit: bool)

  /** A reported period. */
  datatype Period = Period(start: int, end: int)

  /** Records in time order with no time repeated, as `sorted(records.items())` yields them. */
  predicate StrictlyIncreasing(s: seq<Sample>) {
    forall i, j :: 0 <= i < j < |s| ==> s[i].time < s[j].time
  }

  /** `[i, j)` is a maximal run: every record in it satisfies the predicate and
      neither neighbour does. */
  predicate IsRun(s: seq<Sample>, i: int, j: int) {
    && 0 <= i < j <= |s|
    && (forall k :: i <= k < j ==> s[k].hit)
    && (i == 0 || !s[i - 1].hit)
    && (j == |s| || !s[j].hit)
  }

  /** The first record at or after `i` that does not satisfy the predicate (or the end). */
  function RunEnd(s: seq<Sample>, i: nat): (j: nat)
    requires i <= |s|
    ensures i <= j <= |s|
    ensures forall k :: i <= k < j ==> s[k].hit
    ensures j < |s| ==> !s[j].hit
    decreases |s| - i
  {
    if i == |s| || !s[i].hit then i else RunEnd(s, i + 1)
  }

  /** The period reported for the run `[i, j)`: closed by record `j`, or open to the last record. */
  function RunPeriod(s: seq<Sample>, i: nat, j: nat): Period
    requires i < j <= |s|
  {
    Period(s[i].time, if j < |s| then s[j].time else s[|s| - 1].time)
  }

  /** The periods of the runs that start at or after `from` and have at least `th` records. */
  function Reported(s: seq<Sample>, from: nat, th: int): seq<Period>
    requires from <= |s|
    decreases |s| - from
  {
    if from == |s| then []
    else if !s[from].hit then Reported(s, from + 1, th)
    else
      var j := RunEnd(s, from);
      (if j - from >= th then [RunPeriod(s, from, j)] else []) + Reported(s, j, th)
  }

  /** The time of the first record of the last run among the first `i` records, 0 if there is none. */
  function LastRunStart(s: seq<Sample>, i: nat): int
    requires i <= |s|
  {
    if i == 0 then 0
    else if s[i - 1].hit && (i == 1 || !s[i - 2].hit) then s[i - 1].time
    else LastRunStart(s, i - 1)
  }

  /** Periods in time order: each starts no later than it ends, and ends strictly
      before any later period starts (so they are pairwise disjoint). */
  predicate Ordered(ps: seq<Period>) {
    && (forall k :: 0 <= k < |ps| ==> ps[k].start <= ps[k].end)
    && (forall k, l :: 0 <= k < l < |ps| ==> ps[k].end < ps[l].start)
  }

  lemma RunEndOfRun(s: seq<Sample>, i: nat, j: nat)
    requires IsRun(s, i, j)
    ensures RunEnd(s, i) == j
  {
  }

  /** A record that does not satisfy the predicate contributes nothing. */
  lemma SkipMiss(s: seq<Sample>, from: nat, th: int)
    requires from < |s| && !s[from].hit
    ensures Reported(s, from, th) == Reported(s, from + 1, th)
  {
  }

  /** A run that starts at `b` and is closed by record `e` is reported as the period
      from record `b` to record `e` when long enough; the scan then resumes after `e`. */
  lemma ClosedRun(s: seq<Sample>, b: nat, e: nat, th: int)
    requires b < e < |s|
    requires forall k :: b <= k < e ==> s[k].hit
    requires !s[e].hit
    ensures Reported(s, b, th) ==
      (if e - b >= th then [Period(s[b].time, s[e].time)] else []) + Reported(s, e + 1, th)
  {
    assert RunEnd(s, b) == e by {
      RunEndFrom(s, b, e);
    }
    SkipMiss(s, e, th);
  }

  /** A run that starts at `b` and lasts to the end is reported as the period from
      record `b` to the last record when long enough. */
  lemma OpenRun(s: seq<Sample>, b: nat, th: int)
    requires b < |s|
    requires forall k :: b <= k < |s| ==> s[k].hit
    ensures Reported(s, b, th) ==
      (if |s| - b >= th then [Period(s[b].time, s[|s| - 1].time)] else [])
  {
    RunEndFrom(s, b, |s|);
    assert Reported(s, |s|, th) == [];
  }

  lemma {:induction false} RunEndFrom(s: seq<Sample>, b: nat, e: nat)
    requires b <= e <= |s|
    requires forall k :: b <= k < e ==> s[k].hit
    requires e == |s| || !s[e].hit
    ensures RunEnd(s, b) == e
    decreases e - b
  {
    if b < e {
      RunEndFrom(s, b + 1, e);
    }
  }

  /** Every reported period is the period of a run of at least `th` records. */
  lemma {:induction false} ReportedSound(s: seq<Sample>, from: nat, th: int, p: Period) returns (i: nat, j: nat)
    requires from <= |s| && (from == 0 || !s[from - 1].hit)
    requires p in Reported(s, from, th)
    ensures from <= i && IsRun(s, i, j) && j - i >= th && p == RunPeriod(s, i, j)
    decreases |s| - from
  {
    if !s[from].hit {
      i, j := ReportedSound(s, from + 1, th, p);
    } else {
      var e := RunEnd(s, from);
      var head := if e - from >= th then [RunPeriod(s, from, e)] else [];
      assert Reported(s, from, th) == head + Reported(s, e, th);
      if p in head {
        i, j := from, e;
      } else {
        SkipMiss(s, e, th);
        i, j := ReportedSound(s, e + 1, th, p);
      }
    }
  }

  /** Every run of at least `th` records that starts at or after `from` is reported. */
  lemma {:induction false} ReportedComplete(s: seq<Sample>, from: nat, th: int, i: nat, j: nat)
    requires from <= i && IsRun(s, i, j) && j - i >= th
    ensures RunPeriod(s, i, j) in Reported(s, from, th)
    decreases |s| - from
  {
    if from < i {
      if !s[from].hit {
        ReportedComplete(s, from + 1, th, i, j);
      } else {
        var e := RunEnd(s, from);
        assert e <= i;
        ReportedComplete(s, e, th, i, j);
        assert Reported(s, from, th) == (if e - from >= th then [RunPeriod(s, from, e)] else []) + Reported(s, e, th);
      }
    } else {
      RunEndOfRun(s, i, j);
    }
  }

  /** The reported periods are exactly the periods of the runs of at least `th` records. */
  lemma RunsIff(s: seq<Sample>, th: int)
    ensures forall p :: p in Reported(s, 0, th) <==>
      exists i, j :: IsRun(s, i, j) && j - i >= th && p == RunPeriod(s, i, j)
  {
    forall p | p in Reported(s, 0, th)
      ensures exists i, j :: IsRun(s, i, j) && j - i >= th && p == RunPeriod(s, i, j)
    {
      var i, j := ReportedSound(s, 0, th, p);
    }
    forall i, j | IsRun(s, i, j) && j - i >= th
      ensures RunPeriod(s, i, j) in Reported(s, 0, th)
    {
      ReportedComplete(s, 0, th, i, j);
    }
  }

  /** A scan with no record satisfying its predicate reports nothing. */
  lemma {:induction false} NoHitsNothingReported(s: seq<Sample>, from: nat, th: int)
    requires from <= |s|
    requires forall k :: from <= k < |s| ==> !s[k].hit
    ensures Reported(s, from, th) == []
    decreases |s| - from
  {
    if from < |s| {
      NoHitsNothingReported(s, from + 1, th);
    }
  }

  /** Every reported period starts at or after the time of record `from`. */
  lemma {:induction false} ReportedStartsFrom(s: seq<Sample>, from: nat, th: int)
    requires from <= |s| && StrictlyIncreasing(s)
    ensures forall p :: p in Reported(s, from, th) ==> from < |s| && s[from].time <= p.start
    decreases |s| - from
  {
    if from < |s| {
      if !s[from].hit {
        ReportedStartsFrom(s, from + 1, th);
      } else {
        ReportedStartsFrom(s, RunEnd(s, from), th);
      }
    }
  }

  /** With the records in time order, the reported periods are in order and disjoint. */
  lemma {:induction false} ReportedOrdered(s: seq<Sample>, from: nat, th: int)
    requires from <= |s| && StrictlyIncreasing(s)
    ensures Ordered(Reported(s, from, th))
    decreases |s| - from
  {
    if from < |s| {
      if !s[from].hit {
        ReportedOrdered(s, from + 1, th);
      } else {
        var e := RunEnd(s, from);
        var tail := Reported(s, e, th);
        ReportedOrdered(s, e, th);
        if e - from >= th {
          var head := RunPeriod(s, from, e);
          if e < |s| {
            SkipMiss(s, e, th);
            ReportedStartsFrom(s, e + 1, th);
            assert forall p :: p in tail ==> head.end < p.start;
          } else {
            assert tail == [];
          }
          OrderedCons(head, tail);
        }
      }
    }
  }

  lemma OrderedCons(head: Period, tail: seq<Period>)
    requires head.start <= head.end && Ordered(tail)
    requires forall p :: p in tail ==> head.end < p.start
    ensures Ordered([head] + tail)
  {
    var ps := [head] + tail;
    forall k, l | 0 <= k < l < |ps| ensures ps[k].end < ps[l].start {
      if k == 0 {
        assert ps[l] in tail;
      } else {
        assert ps[k] == tail[k - 1] && ps[l] == tail[l - 1];
      }
    }
  }

  /** Dropping periods from an ordered list leaves it ordered. */
  lemma {:induction false} OrderedSubseq(a: seq<Period>, b: seq<Period>)
    requires IsSubseq(a, b) && Ordered(b)
    ensures Ordered(a)
    decreases |b|
  {
    if a != [] {
      assert Ordered(b[1..]) by {
        assert forall k :: 0 <= k < |b| - 1 ==> b[1..][k] == b[k + 1];
      }
      if a[0] == b[0] && IsSubseq(a[1..], b[1..]) {
        OrderedSubseq(a[1..], b[1..]);
        SubseqMembers(a[1..], b[1..]);
        forall p | p in a[1..] ensures a[0].end < p.start {
          var l :| 0 <= l < |b| - 1 && b[1..][l] == p;
          assert b[l + 1] == p;
        }
        OrderedCons(a[0], a[1..]);
        assert [a[0]] + a[1..] == a;
      } else {
        OrderedSubseq(a, b[1..]);
      }
    }
  }

  /** Raising the run-length threshold keeps a subsequence of the reported periods. */
  lemma {:induction false} ReportedMonotone(s: seq<Sample>, from: nat, th1: int, th2: int)
    requires from <= |s| && th1 <= th2
    ensures IsSubseq(Reported(s, from, th2), Reported(s, from, th1))
    decreases |s| - from
  {
    if from < |s| {
      if !s[from].hit {
        ReportedMonotone(s, from + 1, th1, th2);
      } else {
        var e := RunEnd(s, from);
        ReportedMonotone(s, e, th1, th2);
        var h1 := if e - from >= th1 then [RunPeriod(s, from, e)] else [];
        var h2 := if e - from >= th2 then [RunPeriod(s, from, e)] else [];
        assert IsSubseq(h2, h1) by {
          if h2 != [] {
            SubseqRefl(h1);
          }
        }
        SubseqConcat(h2, h1, Reported(s, e, th2), Reported(s, e, th1));
      }
    }
  }

  /** What is reported from `from` on is some periods followed by what is reported from
      a later run start `b` on: a run that starts before `b` ends before it. */
  lemma {:induction false} ReportedSplit(s: seq<Sample>, from: nat, b: nat, th: int) returns (pre: seq<Period>)
    requires from <= b <= |s| && (b == 0 || !s[b - 1].hit)
    ensures Reported(s, from, th) == pre + Reported(s, b, th)
    decreases b - from
  {
    if from == b {
      pre := [];
    } else if !s[from].hit {
      pre := ReportedSplit(s, from + 1, b, th);
    } else {
      var j := RunEnd(s, from);
      assert j < b;
      var rest := ReportedSplit(s, j, b, th);
      var head := if j - from >= th then [RunPeriod(s, from, j)] else [];
      pre := head + rest;
      assert head + (rest + Reported(s, b, th)) == pre + Reported(s, b, th);
    }
  }

  /** Inside a run that starts at `b`, the last run start seen is `b`'s time. */
  lemma {:induction false} LastRunStartInRun(s: seq<Sample>, b: nat, i: nat)
    requires b < i <= |s| && (b == 0 || !s[b - 1].hit)
    requires forall k :: b <= k < i ==> s[k].hit
    ensures LastRunStart(s, i) == s[b].time
    decreases i
  {
    if i - 1 > b {
      LastRunStartInRun(s, b, i - 1);
    }
  }

  /** The first record of the run that contains record `i`. */
  function RunStart(s: seq<Sample>, i: nat): (b: nat)
    requires i < |s| && s[i].hit
    ensures b <= i && (b == 0 || !s[b - 1].hit)
    ensures forall k :: b <= k <= i ==> s[k].hit
  {
    if i == 0 || !s[i - 1].hit then i else RunStart(s, i - 1)
  }

  /** The run of the first scan around a period of the second scan contains it. */
  lemma NestedPeriod(s1: seq<Sample>, s2: seq<Sample>, p2: Period) returns (p1: Period)
    requires |s1| == |s2| && StrictlyIncreasing(s1)
    requires forall k :: 0 <= k < |s1| ==> s1[k].time == s2[k].time && (s2[k].hit ==> s1[k].hit)
    requires p2 in Reported(s2, 0, 1)
    ensures p1 in Reported(s1, 0, 1) && p1.start <= p2.start && p2.end <= p1.end
  {
    var i2, j2 := ReportedSound(s2, 0, 1, p2);
    assert s1[i2].hit;
    var i1 := RunStart(s1, i2);
    var j1 := RunEnd(s1, i2);
    assert j2 <= j1;
    ReportedComplete(s1, 0, 1, i1, j1);
    p1 := RunPeriod(s1, i1, j1);
  }

  /** Two scans over the same records where the second predicate implies the first:
      every period of the second lies within a period of the first. */
  lemma RunsNested(s1: seq<Sample>, s2: seq<Sample>)
    requires |s1| == |s2| && StrictlyIncreasing(s1)
    requires forall k :: 0 <= k < |s1| ==> s1[k].time == s2[k].time && (s2[k].hit ==> s1[k].hit)
    ensures forall p2 :: p2 in Reported(s2, 0, 1) ==>
      exists p1 :: p1 in Reported(s1, 0, 1) && p1.start <= p2.start && p2.end <= p1.end
  {
    forall p2 | p2 in Reported(s2, 0, 1)
      ensures exists p1 :: p1 in Reported(s1, 0, 1) && p1.start <= p2.start && p2.end <= p1.end
    {
      var p1 := NestedPeriod(s1, s2, p2);
    }
  }

  // ------------------------------------------------------------- the scan loop

  /** The state of a left-to-right scan after `i` records: the run it has open, if any,
      starts at `from` (`from == i` when none is open), and the periods emitted so far
      followed by what is reported from `from` on give everything reported. */
  ghost predicate Scanning(s: seq<Sample>, th: int, i: nat, from: nat, emitted: seq<Period>) {
    && from <= i <= |s|
    && (forall k :: from <= k < i ==> s[k].hit)
    && (from == 0 || !s[from - 1].hit)
    && emitted + Reported(s, from, th) == Reported(s, 0, th)
  }

  lemma ScanStart(s: seq<Sample>, th: int)
    ensures Scanning(s, th, 0, 0, [])
  {
  }

  /** A record in a run extends the open run (or opens one at `from == i`). */
  lemma ScanHit(s: seq<Sample>, th: int, i: nat, from: nat, emitted: seq<Period>)
    requires Scanning(s, th, i, from, emitted) && i < |s| && s[i].hit
    ensures Scanning(s, th, i + 1, from, emitted)
  {
  }

  /** A record outside any run, with no run open, is skipped. */
  lemma ScanMiss(s: seq<Sample>, th: int, i: nat, emitted: seq<Period>)
    requires Scanning(s, th, i, i, emitted) && i < |s| && !s[i].hit
    ensures Scanning(s, th, i + 1, i + 1, emitted)
  {
    SkipMiss(s, i, th);
  }

  /** A record outside any run closes the open run, which is emitted when long enough. */
  lemma ScanClose(s: seq<Sample>, th: int, i: nat, from: nat, emitted: seq<Period>)
    requires Scanning(s, th, i, from, emitted) && from < i < |s| && !s[i].hit
    ensures Scanning(s, th, i + 1, i + 1,
      emitted + (if i - from >= th then [Period(s[from].time, s[i].time)] else []))
  {
    ClosedRun(s, from, i, th);
    var head := if i - from >= th then [Period(s[from].time, s[i].time)] else [];
    assert emitted + (head + Reported(s, i + 1, th)) == (emitted + head) + Reported(s, i + 1, th);
  }

  /** At the end, a run still open is emitted when long enough, ending at the last record. */
  lemma ScanEnd(s: seq<Sample>, th: int, from: nat, emitted: seq<Period>)
    requires Scanning(s, th, |s|, from, emitted)
    ensures Reported(s, 0, th) ==
      emitted + (if from < |s| && |s| - from >= th then [Period(s[from].time, s[|s| - 1].time)] else [])
  {
    if from < |s| {
      OpenRun(s, from, th);
    } else {
      assert emitted + [] == emitted;
    }
  }
}
