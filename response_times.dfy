/**
 * The `ResponseTimes` class of src/response_times.py. Its two dicts are kept
 * as maps plus the order in which their keys were inserted, which is the
 * order in which Python iterates them: `records`/`addresses` for `_records`,
 * `subnets`/`networks` for `_subnets`.
 *
 * Every scan is a loop over the sorted records, proved to return what the
 * specification functions of modules Series and Reports describe.
 */
module ResponseTimesModel {
  import opened Util
  import opened Addresses
  import opened Series
  import opened Store
  import opened Subnets
  import opened Correlation
  import opened Reports
  import opened Scans

  class ResponseTimes {
    var records: map<Address, map<int, string>>
    var addresses: seq<Address>
    var subnets: map<Network, seq<Address>>
    var networks: seq<Network>

    /** The store lists each address once and gives each at least one record; the
        index lists each network once with a non-empty list of stored addresses of
        that network. */
    ghost predicate Valid()
      reads this
    {
      LogValid(Log(records, addresses)) && IndexValid(Index(subnets, networks), records.Keys)
    }

    /** `__init__`: an empty store, then `read_csv`. */
    constructor (lines: seq<Line>)
      ensures Valid()
      ensures Log(records, addresses) == Ingest(EmptyLog, lines)
      ensures Index(subnets, networks) == BuildIndex(EmptyIndex, addresses)
    {
      records := map[];
      addresses := [];
      subnets := map[];
      networks := [];
      new;
      ReadCsv(lines);
    }

    /** `read_csv`: store every valid line, then index the addresses once more. */
    method ReadCsv(lines: seq<Line>)
      requires Valid()
      modifies this
      ensures Valid()
      ensures Log(records, addresses) == Ingest(old(Log(records, addresses)), lines)
      ensures Index(subnets, networks) == BuildIndex(old(Index(subnets, networks)), addresses)
    {
      for i := 0 to |lines|
        invariant LogValid(Log(records, addresses))
        invariant Ingest(Log(records, addresses), lines[i..]) == Ingest(old(Log(records, addresses)), lines)
        invariant subnets == old(subnets) && networks == old(networks)
        invariant old(records).Keys <= records.Keys
      {
        ghost var before := Log(records, addresses);
        StoreLine(lines[i]);
        IngestStep(before, lines, i);
      }
      assert lines[|lines|..] == [];
      ParseSubnet();
    }

    /** The body of `read_csv`'s loop: a valid line stores its value under its address
        and timestamp, opening the address's dict when the address is new. */
    method StoreLine(line: Line)
      modifies this
      ensures Log(records, addresses) == Insert(old(Log(records, addresses)), line)
      ensures subnets == old(subnets) && networks == old(networks)
    {
      if IsValidLine(line) {
        var logTime := TimeOf(line);
        if line.address !in records {
          records := records[line.address := map[]];
          addresses := addresses + [line.address];
        }
        records := records[line.address := records[line.address][logTime := line.value]];
      }
    }

    /** `_parse_subnet`: append every stored address to its network's list. */
    method ParseSubnet()
      requires LogValid(Log(records, addresses))
      requires IndexValid(Index(subnets, networks), records.Keys)
      modifies this
      ensures records == old(records) && addresses == old(addresses)
      ensures Index(subnets, networks) == BuildIndex(old(Index(subnets, networks)), addresses)
      ensures Valid()
    {
      ghost var known := records.Keys;
      assert forall a :: a in addresses ==> a in known;
      for i := 0 to |addresses|
        invariant records == old(records) && addresses == old(addresses)
        invariant BuildIndex(Index(subnets, networks), addresses[i..]) == BuildIndex(old(Index(subnets, networks)), addresses)
        invariant IndexValid(Index(subnets, networks), known)
      {
        ghost var before := Index(subnets, networks);
        AddToSubnet(addresses[i]);
        BuildIndexStep(before, addresses, i, known);
      }
      assert addresses[|addresses|..] == [];
    }

    /** The body of `_parse_subnet`'s loop: append the address to its network's list,
        opening the list when the network is new. */
    method AddToSubnet(address: Address)
      modifies this
      ensures records == old(records) && addresses == old(addresses)
      ensures Index(subnets, networks) == AddMember(old(Index(subnets, networks)), address)
    {
      var subnet := NetworkOf(address);
      if subnet !in subnets {
        subnets := subnets[subnet := []];
        networks := networks + [subnet];
        assert subnets[subnet] + [address] == [address];
      }
      subnets := subnets[subnet := subnets[subnet] + [address]];
    }

    /** A well-formed store and index meet what each query asks of them, whatever the threshold. */
    lemma ValidQueries()
      requires Valid()
      ensures forall a :: a in addresses ==> a in records && records[a] != map[]
      ensures Indexed(records, subnets, networks)
      ensures forall a :: a in records ==> records[a] != map[]
      ensures forall n :: n in subnets ==>
        subnets[n] != [] && forall a :: a in subnets[n] ==> a in records && records[a] != map[]
    {
    }

    /** `_find_address_failure`: sort the address's records by time, then scan them. */
    method FindAddressFailure(address: Address, threshold: int) returns (result: seq<AddressPeriod>)
      requires address in records && (records[address] != map[] || threshold >= 1)
      ensures result == AddressPeriods(address, AddressFailures(records, address, threshold))
    {
      var series := SeriesOf(records[address]);
      if records[address] != map[] {
        SeriesNonEmpty(records[address]);
      }
      result := ScanFailures(address, series, threshold);
    }

    /** `find_all_failure`: every address's failure entries, in address order, with a
        threshold of 0 or less replaced by 1. */
    method FindAllFailure(threshold: int := 1) returns (result: seq<AddressPeriod>)
      requires forall a :: a in addresses ==> a in records
      ensures result == AllFailures(records, addresses, Normalize(threshold))
    {
      var th := threshold;
      if th <= 0 {
        th := 1;
      }
      result := [];
      assert addresses[0..] == addresses;
      ghost var all := AllFailures(records, addresses, th);
      assert [] + all == all;
      for i := 0 to |addresses|
        invariant forall a :: a in addresses[i..] ==> a in records
        invariant result + AllFailures(records, addresses[i..], th) == AllFailures(records, addresses, th)
      {
        var found := FindAddressFailure(addresses[i], th);
        AllFailuresStep(records, addresses, i, th, result, found);
        result := result + found;
      }
      assert addresses[|addresses|..] == [];
    }

    /** `find_high_load`: every address's high-load entries, in address order. */
    method FindHighLoad(thresholdCount: int, thresholdAverage: real) returns (result: seq<AddressPeriod>)
      requires forall a :: a in addresses ==> a in records
      ensures result == AllHighLoads(records, addresses, thresholdCount, thresholdAverage)
    {
      result := [];
      assert addresses[0..] == addresses;
      ghost var all := AllHighLoads(records, addresses, thresholdCount, thresholdAverage);
      assert [] + all == all;
      for i := 0 to |addresses|
        invariant forall a :: a in addresses[i..] ==> a in records
        invariant result + AllHighLoads(records, addresses[i..], thresholdCount, thresholdAverage)
          == AllHighLoads(records, addresses, thresholdCount, thresholdAverage)
      {
        var series := SeriesOf(records[addresses[i]]);
        var found := ScanHighLoad(addresses[i], series, thresholdCount, thresholdAverage);
        AllHighLoadsStep(records, addresses, i, thresholdCount, thresholdAverage, result, found);
        result := result + found;
      }
      assert addresses[|addresses|..] == [];
    }

    /** `_find_subnet_failure`: start from the first member's failure periods and keep,
        member by member, those the member also reported. */
    method FindSubnetFailure(subnet: Network, threshold: int := 1) returns (result: seq<SubnetPeriod>)
      requires subnet in subnets && subnets[subnet] != []
      requires forall a :: a in subnets[subnet] ==> a in records && (records[a] != map[] || threshold >= 1)
      ensures result == SubnetPeriods(subnet, SubnetFailures(records, subnets[subnet], threshold))
    {
      var members := subnets[subnet];
      var firstAddressFailures := FindAddressFailure(members[0], threshold);
      ghost var first := AddressFailures(records, members[0], threshold);
      result := SubnetPeriods(subnet, PeriodsOf(firstAddressFailures));
      PeriodsOfTagged(members[0], first);
      CommonNone(first);
      assert MemberFailures(records, members[..0], threshold) == [];
      for k := 0 to |members|
        invariant forall a :: a in members[..k] ==> a in records
        invariant result == SubnetPeriods(subnet, Common(first, MemberFailures(records, members[..k], threshold)))
      {
        var addressFailure := FindAddressFailure(members[k], threshold);
        MemberFailuresSnoc(records, members, k, threshold);
        ghost var lists := MemberFailures(records, members[..k], threshold);
        ghost var own := AddressFailures(records, members[k], threshold);
        CommonSnoc(first, lists, own);
        KeepIncludedPeriods(subnet, Common(first, lists), members[k], own);
        result := KeepIncluded(result, addressFailure);
      }
      assert members[..|members|] == members;
    }

    /** `find_all_subnet_failure`: every subnet's entries, in subnet order, with the
        threshold passed on as given. */
    method FindAllSubnetFailure(threshold: int := 1) returns (result: seq<SubnetPeriod>)
      requires Indexed(records, subnets, networks)
      requires forall a :: a in records ==> records[a] != map[] || threshold >= 1
      ensures result == AllSubnetFailures(records, subnets, networks, threshold)
    {
      result := [];
      assert networks[0..] == networks;
      ghost var all := AllSubnetFailures(records, subnets, networks, threshold);
      assert [] + all == all;
      for i := 0 to |networks|
        invariant Indexed(records, subnets, networks[i..])
        invariant result + AllSubnetFailures(records, subnets, networks[i..], threshold)
          == AllSubnetFailures(records, subnets, networks, threshold)
      {
        var found := FindSubnetFailure(networks[i], threshold);
        assert networks[i..][1..] == networks[i + 1..];
        ConcatAssoc(result, found, AllSubnetFailures(records, subnets, networks[i + 1..], threshold));
        result := result + found;
      }
      assert networks[|networks|..] == [];
    }
  }
}
