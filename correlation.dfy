/**
 * The report entries and the subnet correlator of src/response_times.py:
 * `includes` (lines 205-209) and the filter that `_find_subnet_failure`
 * applies once per member (line 219). Periods are compared exactly, as the
 * formatted period strings are.
 */
module Correlation {
  import opened Util
  import opened Addresses
  import opened Runs

  /** A `{"address": ..., "period": ...}` entry. */
  datatype AddressPeriod = AddressPeriod(address: Address, period: Period)

  /** A `{"subnet": ..., "period": ...}` entry. */
  datatype SubnetPeriod = SubnetPeriod(subnet: Network, period: Period)

  /** The entries an address scan appends, one per period, in order. */
  function AddressPeriods(a: Address, ps: seq<Period>): (r: seq<AddressPeriod>)
    ensures |r| == |ps|
    ensures forall i :: 0 <= i < |ps| ==> r[i] == AddressPeriod(a, ps[i])
  {
    seq(|ps|, i requires 0 <= i < |ps| => AddressPeriod(a, ps[i]))
  }

  /** Tagging one more period appends one more entry. */
  lemma AddressPeriodsSnoc(a: Address, ps: seq<Period>, p: Period)
    ensures AddressPeriods(a, ps + [p]) == AddressPeriods(a, ps) + [AddressPeriod(a, p)]
  {
  }

  /** The entries of a subnet, one per period, in order. */
  function SubnetPeriods(n: Network, ps: seq<Period>): (r: seq<SubnetPeriod>)
    ensures |r| == |ps|
    ensures forall i :: 0 <= i < |ps| ==> r[i] == SubnetPeriod(n, ps[i])
  {
    seq(|ps|, i requires 0 <= i < |ps| => SubnetPeriod(n, ps[i]))
  }

  /** The periods of a list of address entries, in order. */
  function PeriodsOf(fs: seq<AddressPeriod>): (r: seq<Period>)
    ensures |r| == |fs|
    ensures forall i :: 0 <= i < |fs| ==> r[i] == fs[i].period
  {
    seq(|fs|, i requires 0 <= i < |fs| => fs[i].period)
  }

  /** Tagging and then taking the periods gives the periods back. */
  lemma PeriodsOfTagged(a: Address, ps: seq<Period>)
    ensures PeriodsOf(AddressPeriods(a, ps)) == ps
  {
  }

  /** `includes`: some entry of the list has exactly this period. */
  function Includes(fs: seq<AddressPeriod>, p: Period): (r: bool)
    ensures r <==> p in PeriodsOf(fs)
  {
    if fs == [] then false
    else
      assert PeriodsOf(fs) == [fs[0].period] + PeriodsOf(fs[1..]);
      fs[0].period == p || Includes(fs[1..], p)
  }

  /** `list(filter(lambda r: includes(fs, r["period"]), rs))`. */
  function KeepIncluded(rs: seq<SubnetPeriod>, fs: seq<AddressPeriod>): seq<SubnetPeriod> {
    if rs == [] then []
    else (if Includes(fs, rs[0].period) then [rs[0]] else []) + KeepIncluded(rs[1..], fs)
  }

  /** `p` occurs in every list of `lists`. */
  predicate InAll(p: Period, lists: seq<seq<Period>>) {
    forall k :: 0 <= k < |lists| ==> p in lists[k]
  }

  /** The periods of `ps` that occur in every list of `lists`, in the order of `ps`. */
  function Common(ps: seq<Period>, lists: seq<seq<Period>>): seq<Period> {
    if ps == [] then []
    else (if InAll(ps[0], lists) then [ps[0]] else []) + Common(ps[1..], lists)
  }

  /** The periods of `ps` that occur in `l`, in order. */
  function OccurIn(ps: seq<Period>, l: seq<Period>): seq<Period> {
    if ps == [] then []
    else (if ps[0] in l then [ps[0]] else []) + OccurIn(ps[1..], l)
  }

  /** Filtering subnet entries against an address's entries keeps the entries whose
      period the address reported, in order. */
  lemma {:induction false} KeepIncludedPeriods(n: Network, ps: seq<Period>, a: Address, l: seq<Period>)
    ensures KeepIncluded(SubnetPeriods(n, ps), AddressPeriods(a, l)) == SubnetPeriods(n, OccurIn(ps, l))
    decreases |ps|
  {
    assert PeriodsOf(AddressPeriods(a, l)) == l;
    if ps != [] {
      KeepIncludedPeriods(n, ps[1..], a, l);
      assert SubnetPeriods(n, ps)[1..] == SubnetPeriods(n, ps[1..]);
      var head := if ps[0] in l then [ps[0]] else [];
      assert SubnetPeriods(n, head + OccurIn(ps[1..], l)) == SubnetPeriods(n, head) + SubnetPeriods(n, OccurIn(ps[1..], l));
    }
  }

  /** No list to match against keeps everything. */
  lemma {:induction false} CommonNone(ps: seq<Period>)
    ensures Common(ps, []) == ps
    decreases |ps|
  {
    if ps != [] {
      CommonNone(ps[1..]);
    }
  }

  /** One more list filters the common periods once more. */
  lemma {:induction false} CommonSnoc(ps: seq<Period>, lists: seq<seq<Period>>, l: seq<Period>)
    ensures Common(ps, lists + [l]) == OccurIn(Common(ps, lists), l)
    decreases |ps|
  {
    if ps != [] {
      CommonSnoc(ps[1..], lists, l);
      var p := ps[0];
      assert InAll(p, lists + [l]) <==> InAll(p, lists) && p in l by {
        assert (lists + [l])[|lists|] == l;
        assert forall k :: 0 <= k < |lists| ==> (lists + [l])[k] == lists[k];
      }
      var rest := Common(ps[1..], lists);
      if InAll(p, lists) {
        assert Common(ps, lists) == [p] + rest;
        assert ([p] + rest)[1..] == rest;
      } else {
        assert Common(ps, lists) == rest;
      }
    }
  }

  /** A period is common exactly when it is in `ps` and in every list. */
  lemma {:induction false} CommonIff(ps: seq<Period>, lists: seq<seq<Period>>, p: Period)
    ensures p in Common(ps, lists) <==> p in ps && InAll(p, lists)
    decreases |ps|
  {
    if ps != [] {
      CommonIff(ps[1..], lists, p);
      assert p in ps <==> p == ps[0] || p in ps[1..];
    }
  }

  /** The common periods keep the order of `ps`. */
  lemma {:induction false} CommonInOrder(ps: seq<Period>, lists: seq<seq<Period>>)
    ensures IsSubseq(Common(ps, lists), ps)
    decreases |ps|
  {
    if ps != [] {
      CommonInOrder(ps[1..], lists);
      var rest := Common(ps[1..], lists);
      if InAll(ps[0], lists) {
        assert Common(ps, lists) == [ps[0]] + rest;
        assert ([ps[0]] + rest)[1..] == rest;
      } else {
        assert Common(ps, lists) == rest;
        if rest != [] {
          assert IsSubseq(rest, ps[1..]);
        }
      }
    }
  }

  /** Matching a list against itself keeps all of it. */
  lemma CommonSelf(ps: seq<Period>)
    ensures Common(ps, [ps]) == ps
  {
    CommonSnoc(ps, [], ps);
    CommonNone(ps);
    OccurInSelf(ps, ps);
    assert [] + [ps] == [ps];
  }

  lemma {:induction false} OccurInSelf(ps: seq<Period>, l: seq<Period>)
    requires forall p :: p in ps ==> p in l
    ensures OccurIn(ps, l) == ps
    decreases |ps|
  {
    if ps != [] {
      OccurInSelf(ps[1..], l);
    }
  }

  /** A member with no period leaves nothing in common. */
  lemma {:induction false} CommonEmptyMember(ps: seq<Period>, lists: seq<seq<Period>>, k: nat)
    requires k < |lists| && lists[k] == []
    ensures Common(ps, lists) == []
    decreases |ps|
  {
    if ps != [] {
      CommonEmptyMember(ps[1..], lists, k);
      assert !InAll(ps[0], lists);
    }
  }
}
