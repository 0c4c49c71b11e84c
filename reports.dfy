/**
 * What the public scans of src/response_times.py return for a whole store,
 * stated over the store's contents: `find_all_failure` (lines 144-153),
 * `find_high_load` (lines 155-199), `_find_subnet_failure` (lines 201-220)
 * and `find_all_subnet_failure` (lines 222-229). The methods of
 * `ResponseTimes` are proved to return exactly these.
 */
module Reports {
  import opened Util
  import opened Addresses
  import opened Runs
  import opened Series
  import opened Correlation

  type Records = map<Address, map<int, string>>

  /** `find_all_failure` replaces a threshold of 0 or less by 1. */
  function Normalize(threshold: int): (th: int)
    ensures th >= 1
    ensures threshold >= 1 ==> th == threshold
  {
    if threshold <= 0 then 1 else threshold
  }

  /** The failure periods of one address of the store. */
  function AddressFailures(records: Records, a: Address, th: int): seq<Period>
    requires a in records
  {
    Failures(SeriesOf(records[a]), th)
  }

  /** Every listed address's failure entries, address by address in list order. */
  function AllFailures(records: Records, addrs: seq<Address>, th: int): seq<AddressPeriod>
    requires forall a :: a in addrs ==> a in records
  {
    if addrs == [] then []
    else AddressPeriods(addrs[0], AddressFailures(records, addrs[0], th)) + AllFailures(records, addrs[1..], th)
  }

  /** One step of `find_all_failure`'s loop: when the entries gathered so far followed
      by those of the addresses from `i` on make up all the entries, adding the entries
      of address `i` leaves those of the addresses after it. */
  lemma AllFailuresStep(records: Records, addrs: seq<Address>, i: nat, th: int,
                        done: seq<AddressPeriod>, found: seq<AddressPeriod>)
    requires forall a :: a in addrs ==> a in records
    requires i < |addrs|
    requires forall a :: a in addrs[i..] ==> a in records
    requires done + AllFailures(records, addrs[i..], th) == AllFailures(records, addrs, th)
    requires found == AddressPeriods(addrs[i], AddressFailures(records, addrs[i], th))
    ensures forall a :: a in addrs[i + 1..] ==> a in records
    ensures (done + found) + AllFailures(records, addrs[i + 1..], th) == AllFailures(records, addrs, th)
  {
    assert addrs[i..][1..] == addrs[i + 1..];
    ConcatAssoc(done, found, AllFailures(records, addrs[i + 1..], th));
  }

  /** Every listed address's high-load entries, address by address in list order. */
  function AllHighLoads(records: Records, addrs: seq<Address>, n: int, threshold: real): seq<AddressPeriod>
    requires forall a :: a in addrs ==> a in records
  {
    if addrs == [] then []
    else
      var head := AddressPeriods(addrs[0], HighLoads(SeriesOf(records[addrs[0]]), n, threshold));
      head + AllHighLoads(records, addrs[1..], n, threshold)
  }

  /** One step of `find_high_load`'s loop over the addresses, as for failures. */
  lemma AllHighLoadsStep(records: Records, addrs: seq<Address>, i: nat, n: int, threshold: real,
                         done: seq<AddressPeriod>, found: seq<AddressPeriod>)
    requires forall a :: a in addrs ==> a in records
    requires i < |addrs|
    requires forall a :: a in addrs[i..] ==> a in records
    requires done + AllHighLoads(records, addrs[i..], n, threshold) == AllHighLoads(records, addrs, n, threshold)
    requires found == AddressPeriods(addrs[i], HighLoads(SeriesOf(records[addrs[i]]), n, threshold))
    ensures forall a :: a in addrs[i + 1..] ==> a in records
    ensures (done + found) + AllHighLoads(records, addrs[i + 1..], n, threshold)
      == AllHighLoads(records, addrs, n, threshold)
  {
    assert addrs[i..][1..] == addrs[i + 1..];
    ConcatAssoc(done, found, AllHighLoads(records, addrs[i + 1..], n, threshold));
  }

  /** The failure periods of each member, in member order. */
  function MemberFailures(records: Records, members: seq<Address>, th: int): (r: seq<seq<Period>>)
    requires forall a :: a in members ==> a in records
    ensures |r| == |members|
    ensures forall i :: 0 <= i < |members| ==> r[i] == AddressFailures(records, members[i], th)
  {
    seq(|members|, i requires 0 <= i < |members| => AddressFailures(records, members[i], th))
  }

  /** Taking one more member appends that member's failure periods. */
  lemma MemberFailuresSnoc(records: Records, members: seq<Address>, k: nat, th: int)
    requires forall a :: a in members ==> a in records
    requires k < |members|
    ensures forall a :: a in members[..k] ==> a in records
    ensures forall a :: a in members[..k + 1] ==> a in records
    ensures MemberFailures(records, members[..k + 1], th)
      == MemberFailures(records, members[..k], th) + [AddressFailures(records, members[k], th)]
  {
    assert forall a :: a in members[..k + 1] ==> a in members;
    assert forall a :: a in members[..k] ==> a in members;
  }

  /** The failure periods of a subnet: those of its first member that every member
      reported, in the first member's order. */
  function SubnetFailures(records: Records, members: seq<Address>, th: int): seq<Period>
    requires |members| > 0 && forall a :: a in members ==> a in records
  {
    Common(AddressFailures(records, members[0], th), MemberFailures(records, members, th))
  }

  /** The index's member lists are non-empty lists of addresses of the store. */
  ghost predicate Indexed(records: Records, subnets: map<Network, seq<Address>>, networks: seq<Network>) {
    forall n :: n in networks ==>
      n in subnets && |subnets[n]| > 0 && forall a :: a in subnets[n] ==> a in records
  }

  /** Every listed subnet's entries, subnet by subnet in list order. */
  function AllSubnetFailures(records: Records, subnets: map<Network, seq<Address>>, networks: seq<Network>, th: int): seq<SubnetPeriod>
    requires Indexed(records, subnets, networks)
  {
    if networks == [] then []
    else
      assert Indexed(records, subnets, networks[1..]) by {
        forall n | n in networks[1..] ensures n in networks {
        }
      }
      SubnetPeriods(networks[0], SubnetFailures(records, subnets[networks[0]], th))
        + AllSubnetFailures(records, subnets, networks[1..], th)
  }

  // ------------------------------------------------------------------ lemmas

  /** An entry is reported exactly when its address is listed and the period is one of
      that address's failure periods. */
  lemma {:induction false} AllFailuresIff(records: Records, addrs: seq<Address>, th: int, r: AddressPeriod)
    requires forall a :: a in addrs ==> a in records
    ensures r in AllFailures(records, addrs, th) <==>
      r.address in addrs && r.period in AddressFailures(records, r.address, th)
    decreases |addrs|
  {
    if addrs != [] {
      AllFailuresIff(records, addrs[1..], th, r);
      TaggedMember(addrs[0], AddressFailures(records, addrs[0], th), r);
      assert r.address in addrs <==> r.address == addrs[0] || r.address in addrs[1..];
    }
  }

  /** An address entry is among a tagged list exactly when its address is the tag
      and its period is in the list. */
  lemma TaggedMember(a: Address, ps: seq<Period>, r: AddressPeriod)
    ensures r in AddressPeriods(a, ps) <==> r.address == a && r.period in ps
  {
    var head := AddressPeriods(a, ps);
    if r in head {
      var i :| 0 <= i < |head| && head[i] == r;
    }
    if r.address == a && r.period in ps {
      var i :| 0 <= i < |ps| && ps[i] == r.period;
      assert head[i] == r;
    }
  }

  /** Tagging keeps subsequences. */
  lemma {:induction false} TagSubseq(a: Address, ps: seq<Period>, qs: seq<Period>)
    requires IsSubseq(ps, qs)
    ensures IsSubseq(AddressPeriods(a, ps), AddressPeriods(a, qs))
    decreases |qs|
  {
    if ps != [] {
      assert AddressPeriods(a, qs)[1..] == AddressPeriods(a, qs[1..]);
      if ps[0] == qs[0] && IsSubseq(ps[1..], qs[1..]) {
        TagSubseq(a, ps[1..], qs[1..]);
        assert AddressPeriods(a, ps)[1..] == AddressPeriods(a, ps[1..]);
      } else {
        TagSubseq(a, ps, qs[1..]);
      }
    }
  }

  /** Raising the threshold keeps a subsequence of all the failure entries. */
  lemma {:induction false} AllFailuresMonotone(records: Records, addrs: seq<Address>, th1: int, th2: int)
    requires forall a :: a in addrs ==> a in records
    requires th1 <= th2
    ensures IsSubseq(AllFailures(records, addrs, th2), AllFailures(records, addrs, th1))
    decreases |addrs|
  {
    if addrs != [] {
      AllFailuresMonotone(records, addrs[1..], th1, th2);
      FailuresMonotone(SeriesOf(records[addrs[0]]), th1, th2);
      TagSubseq(addrs[0], AddressFailures(records, addrs[0], th2), AddressFailures(records, addrs[0], th1));
      SubseqConcat(AddressPeriods(addrs[0], AddressFailures(records, addrs[0], th2)),
                   AddressPeriods(addrs[0], AddressFailures(records, addrs[0], th1)),
                   AllFailures(records, addrs[1..], th2), AllFailures(records, addrs[1..], th1));
    }
  }

  /** `find_all_failure` with a higher threshold returns a subsequence of its result
      with a lower one; thresholds of 0 or less all act as 1. */
  lemma FindAllFailureMonotone(records: Records, addrs: seq<Address>, th1: int, th2: int)
    requires forall a :: a in addrs ==> a in records
    requires th1 <= th2
    ensures IsSubseq(AllFailures(records, addrs, Normalize(th2)), AllFailures(records, addrs, Normalize(th1)))
  {
    AllFailuresMonotone(records, addrs, Normalize(th1), Normalize(th2));
  }

  /** A high-load entry is reported exactly when its address is listed and the period
      is one of that address's high-load periods. */
  lemma {:induction false} AllHighLoadsIff(records: Records, addrs: seq<Address>, n: int, threshold: real, r: AddressPeriod)
    requires forall a :: a in addrs ==> a in records
    ensures r in AllHighLoads(records, addrs, n, threshold) <==>
      r.address in addrs && r.period in HighLoads(SeriesOf(records[r.address]), n, threshold)
    decreases |addrs|
  {
    if addrs != [] {
      AllHighLoadsIff(records, addrs[1..], n, threshold, r);
      TaggedMember(addrs[0], HighLoads(SeriesOf(records[addrs[0]]), n, threshold), r);
      assert r.address in addrs <==> r.address == addrs[0] || r.address in addrs[1..];
    }
  }

  /** A subnet's failure periods are exactly the periods that every member reported. */
  lemma SubnetFailuresIff(records: Records, members: seq<Address>, th: int, p: Period)
    requires |members| > 0 && forall a :: a in members ==> a in records
    ensures p in SubnetFailures(records, members, th) <==>
      forall a :: a in members ==> p in AddressFailures(records, a, th)
  {
    var lists := MemberFailures(records, members, th);
    CommonIff(AddressFailures(records, members[0], th), lists, p);
    if forall a :: a in members ==> p in AddressFailures(records, a, th) {
      forall k | 0 <= k < |lists| ensures p in lists[k] {
        assert members[k] in members;
      }
    }
    if p in SubnetFailures(records, members, th) {
      forall a | a in members ensures p in AddressFailures(records, a, th) {
        var k :| 0 <= k < |members| && members[k] == a;
        assert p in lists[k];
      }
    }
  }

  /** A subnet's failure periods keep the first member's order; with a threshold of at
      least 1 they are in time order and disjoint. */
  lemma SubnetFailuresOrdered(records: Records, members: seq<Address>, th: int)
    requires |members| > 0 && forall a :: a in members ==> a in records
    ensures IsSubseq(SubnetFailures(records, members, th), AddressFailures(records, members[0], th))
    ensures th >= 1 ==> Ordered(SubnetFailures(records, members, th))
  {
    var first := AddressFailures(records, members[0], th);
    CommonInOrder(first, MemberFailures(records, members, th));
    if th >= 1 {
      SeriesOfSorted(records[members[0]]);
      FailuresOrdered(SeriesOf(records[members[0]]), th);
      OrderedSubseq(SubnetFailures(records, members, th), first);
    }
  }

  /** With the size guard commented out, a subnet with a single member reports that
      member's own failure periods. */
  lemma SingleMemberSubnet(records: Records, a: Address, th: int)
    requires a in records
    ensures SubnetFailures(records, [a], th) == AddressFailures(records, a, th)
  {
    assert MemberFailures(records, [a], th) == [AddressFailures(records, a, th)];
    CommonSelf(AddressFailures(records, a, th));
  }

  /** A member without failure periods leaves its subnet without any. */
  lemma QuietMemberSilencesSubnet(records: Records, members: seq<Address>, th: int, k: nat)
    requires |members| > 0 && forall a :: a in members ==> a in records
    requires k < |members| && AddressFailures(records, members[k], th) == []
    ensures SubnetFailures(records, members, th) == []
  {
    CommonEmptyMember(AddressFailures(records, members[0], th), MemberFailures(records, members, th), k);
  }

  /** A subnet entry is reported exactly when its subnet is listed and the period is
      one of that subnet's failure periods. */
  lemma {:induction false} AllSubnetFailuresIff(records: Records, subnets: map<Network, seq<Address>>,
                                                networks: seq<Network>, th: int, r: SubnetPeriod)
    requires Indexed(records, subnets, networks)
    ensures r in AllSubnetFailures(records, subnets, networks, th) <==>
      r.subnet in networks && r.period in SubnetFailures(records, subnets[r.subnet], th)
    decreases |networks|
  {
    if networks != [] {
      assert Indexed(records, subnets, networks[1..]) by {
        forall n | n in networks[1..] ensures n in networks {
        }
      }
      AllSubnetFailuresIff(records, subnets, networks[1..], th, r);
      var ps := SubnetFailures(records, subnets[networks[0]], th);
      var head := SubnetPeriods(networks[0], ps);
      assert r in head <==> r.subnet == networks[0] && r.period in ps by {
        if r in head {
          var i :| 0 <= i < |head| && head[i] == r;
        }
        if r.subnet == networks[0] && r.period in ps {
          var i :| 0 <= i < |ps| && ps[i] == r.period;
          assert head[i] == r;
        }
      }
      assert r.subnet in networks <==> r.subnet == networks[0] || r.subnet in networks[1..];
    }
  }
}
