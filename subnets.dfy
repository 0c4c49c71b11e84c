/**
 * The subnet index that `_parse_subnet` builds (src/response_times.py:99-110):
 * for each network, the addresses of the store that belong to it, in the order
 * the store lists them; the networks themselves in the order in which they
 * were first met.
 */
module Subnets {
  import opened Util
  import opened Addresses

  /** `subnets` maps a network to its member list; `networks` lists its keys in
      insertion order, as a dict iterates them. */
  datatype Index = Index(subnets: map<Network, seq<Address>>, networks: seq<Network>)

  const EmptyIndex := Index(map[], [])

  /** One iteration of the loop: append the address to its network's list, opening
      the list when the network is new. */
  function AddMember(ix: Index, a: Address): Index {
    var n := NetworkOf(a);
    if n in ix.subnets then Index(ix.subnets[n := ix.subnets[n] + [a]], ix.networks)
    else Index(ix.subnets[n := [a]], ix.networks + [n])
  }

  /** The index after every address of `addrs` has been added in order. */
  function BuildIndex(ix: Index, addrs: seq<Address>): Index
    decreases |addrs|
  {
    if addrs == [] then ix else BuildIndex(AddMember(ix, addrs[0]), addrs[1..])
  }

  /** The addresses of `addrs` that lie in network `n`, in order. */
  function Members(addrs: seq<Address>, n: Network): seq<Address> {
    if addrs == [] then []
    else (if NetworkOf(addrs[0]) == n then [addrs[0]] else []) + Members(addrs[1..], n)
  }

  /** The network of each address, in order. */
  function NetworksOf(addrs: seq<Address>): (r: seq<Network>)
    ensures |r| == |addrs|
    ensures forall i :: 0 <= i < |addrs| ==> r[i] == NetworkOf(addrs[i])
  {
    seq(|addrs|, i requires 0 <= i < |addrs| => NetworkOf(addrs[i]))
  }

  /** The index keys and the network list agree. */
  ghost predicate KeysListed(ix: Index) {
    forall n :: n in ix.subnets <==> n in ix.networks
  }

  /** The index is well formed with respect to the addresses in `known`: networks listed
      once, each with a non-empty member list of known addresses of that network. */
  ghost predicate IndexValid(ix: Index, known: set<Address>) {
    && KeysListed(ix)
    && Distinct(ix.networks)
    && (forall n :: n in ix.subnets ==> ix.subnets[n] != [])
    && (forall n, a :: n in ix.subnets && a in ix.subnets[n] ==> a in known && NetworkOf(a) == n)
  }

  /** An address is a member exactly when it is in the list and lies in the network. */
  lemma {:induction false} MembersIff(addrs: seq<Address>, n: Network, a: Address)
    ensures a in Members(addrs, n) <==> a in addrs && NetworkOf(a) == n
    decreases |addrs|
  {
    if addrs != [] {
      MembersIff(addrs[1..], n, a);
      assert a in addrs <==> a == addrs[0] || a in addrs[1..];
    }
  }

  /** Members keep the order of the address list. */
  lemma {:induction false} MembersInOrder(addrs: seq<Address>, n: Network)
    ensures IsSubseq(Members(addrs, n), addrs)
    decreases |addrs|
  {
    if addrs != [] {
      MembersInOrder(addrs[1..], n);
      var rest := Members(addrs[1..], n);
      if NetworkOf(addrs[0]) == n {
        assert Members(addrs, n) == [addrs[0]] + rest;
        assert ([addrs[0]] + rest)[1..] == rest;
      } else {
        assert Members(addrs, n) == rest;
        if rest != [] {
          assert IsSubseq(rest, addrs[1..]);
        }
      }
    }
  }

  /** Each address of a list without repetitions is a member of its own network exactly once. */
  lemma {:induction false} MemberOnce(addrs: seq<Address>, a: Address)
    requires Distinct(addrs) && a in addrs
    ensures Count(Members(addrs, NetworkOf(a)), a) == 1
    decreases |addrs|
  {
    var n := NetworkOf(a);
    var head := if NetworkOf(addrs[0]) == n then [addrs[0]] else [];
    assert Members(addrs, n) == head + Members(addrs[1..], n);
    CountConcat(head, Members(addrs[1..], n), a);
    if addrs[0] == a {
      assert a !in addrs[1..];
      MembersIff(addrs[1..], n, a);
      assert Count(head, a) == 1;
    } else {
      assert a in addrs[1..];
      MemberOnce(addrs[1..], a);
      assert Count(head, a) == 0;
    }
  }

  /** Building from any index: the network list grows as a dict's keys do. */
  lemma {:induction false} BuildIndexNetworks(ix: Index, addrs: seq<Address>)
    requires KeysListed(ix)
    ensures BuildIndex(ix, addrs).networks == AppendNew(ix.networks, NetworksOf(addrs))
    decreases |addrs|
  {
    if addrs != [] {
      var next := AddMember(ix, addrs[0]);
      assert KeysListed(next);
      assert next.networks == if NetworkOf(addrs[0]) in ix.networks then ix.networks else ix.networks + [NetworkOf(addrs[0])];
      BuildIndexNetworks(next, addrs[1..]);
      assert NetworksOf(addrs)[1..] == NetworksOf(addrs[1..]);
    }
  }

  /** Building from any index: each network's list gains the new members, in order,
      after its old members. */
  lemma {:induction false} BuildIndexMembers(ix: Index, addrs: seq<Address>, n: Network)
    requires n in BuildIndex(ix, addrs).subnets
    ensures BuildIndex(ix, addrs).subnets[n] == (if n in ix.subnets then ix.subnets[n] else []) + Members(addrs, n)
    decreases |addrs|
  {
    if addrs != [] {
      var next := AddMember(ix, addrs[0]);
      BuildIndexMembers(next, addrs[1..], n);
      var head := if NetworkOf(addrs[0]) == n then [addrs[0]] else [];
      assert Members(addrs, n) == head + Members(addrs[1..], n);
      assert (if n in next.subnets then next.subnets[n] else []) == (if n in ix.subnets then ix.subnets[n] else []) + head;
    }
  }

  /** Adding known addresses keeps the index well formed. */
  lemma {:induction false} BuildIndexValid(ix: Index, addrs: seq<Address>, known: set<Address>)
    requires IndexValid(ix, known)
    requires forall a :: a in addrs ==> a in known
    ensures IndexValid(BuildIndex(ix, addrs), known)
    decreases |addrs|
  {
    if addrs != [] {
      var next := AddMember(ix, addrs[0]);
      var n0 := NetworkOf(addrs[0]);
      assert Distinct(next.networks) by {
        if n0 !in ix.subnets {
          assert n0 !in ix.networks;
        }
      }
      forall n, a | n in next.subnets && a in next.subnets[n]
        ensures a in known && NetworkOf(a) == n
      {
        if n == n0 && n0 in ix.subnets {
          assert a in ix.subnets[n] || a == addrs[0];
        }
      }
      assert IndexValid(next, known);
      BuildIndexValid(next, addrs[1..], known);
    }
  }

  /** One iteration of the indexing loop: the index stays well formed and adding the
      rest of the addresses to the new index ends where adding them to the old one does. */
  lemma BuildIndexStep(ix: Index, addrs: seq<Address>, i: nat, known: set<Address>)
    requires IndexValid(ix, known)
    requires i < |addrs| && addrs[i] in known
    ensures IndexValid(AddMember(ix, addrs[i]), known)
    ensures BuildIndex(AddMember(ix, addrs[i]), addrs[i + 1..]) == BuildIndex(ix, addrs[i..])
  {
    assert BuildIndex(ix, [addrs[i]]) == AddMember(ix, addrs[i]);
    BuildIndexValid(ix, [addrs[i]], known);
    assert addrs[i..][0] == addrs[i] && addrs[i..][1..] == addrs[i + 1..];
  }

  /** Built from nothing, each network maps to exactly its members. */
  lemma IndexMembers(addrs: seq<Address>)
    ensures var r := BuildIndex(EmptyIndex, addrs);
      forall n :: n in r.subnets ==> r.subnets[n] == Members(addrs, n)
  {
    var r := BuildIndex(EmptyIndex, addrs);
    forall n | n in r.subnets ensures r.subnets[n] == Members(addrs, n) {
      BuildIndexMembers(EmptyIndex, addrs, n);
      assert [] + Members(addrs, n) == Members(addrs, n);
    }
  }

  /** The index built once from the store's address list: its networks are those of
      the addresses, each listed once in the order first met, and each maps to exactly
      the addresses in it, in list order, each address once. */
  lemma IndexFromAddresses(addrs: seq<Address>)
    requires Distinct(addrs)
    ensures var r := BuildIndex(EmptyIndex, addrs);
      && IndexValid(r, set a | a in addrs)
      && (forall n :: n in r.networks <==> n in NetworksOf(addrs))
      && (forall n :: n in r.subnets ==> r.subnets[n] == Members(addrs, n))
      && (forall a :: a in addrs ==> NetworkOf(a) in r.subnets && Count(r.subnets[NetworkOf(a)], a) == 1)
  {
    var r := BuildIndex(EmptyIndex, addrs);
    BuildIndexValid(EmptyIndex, addrs, set a | a in addrs);
    BuildIndexNetworks(EmptyIndex, addrs);
    AppendNewMembers([], NetworksOf(addrs));
    IndexMembers(addrs);
    IndexEachOnce(addrs);
  }

  /** Built from a list without repetitions, each address is listed once, under its
      own network. */
  lemma IndexEachOnce(addrs: seq<Address>)
    requires Distinct(addrs)
    requires var r := BuildIndex(EmptyIndex, addrs);
      && (forall n :: n in r.networks <==> n in NetworksOf(addrs))
      && (forall n :: n in r.subnets ==> r.subnets[n] == Members(addrs, n))
      && KeysListed(r)
    ensures var r := BuildIndex(EmptyIndex, addrs);
      forall a :: a in addrs ==> NetworkOf(a) in r.subnets && Count(r.subnets[NetworkOf(a)], a) == 1
  {
    var r := BuildIndex(EmptyIndex, addrs);
    forall a | a in addrs
      ensures NetworkOf(a) in r.subnets && Count(r.subnets[NetworkOf(a)], a) == 1
    {
      var i :| 0 <= i < |addrs| && addrs[i] == a;
      assert NetworksOf(addrs)[i] == NetworkOf(a);
      MemberOnce(addrs, a);
    }
  }

  /** The networks are listed in the order in which the address list first reaches them. */
  lemma NetworksFirstSeen(addrs: seq<Address>)
    ensures InFirstSeenOrder(BuildIndex(EmptyIndex, addrs).networks, NetworksOf(addrs))
  {
    BuildIndexNetworks(EmptyIndex, addrs);
    FirstSeenOrder(NetworksOf(addrs));
  }
}
