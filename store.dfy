/**
 * The record store that `read_csv` fills (src/response_times.py:53-97): for
 * each address, a map from timestamp to the raw value token, with the
 * addresses kept in the order in which they were first seen.
 *
 * A log line arrives split at commas: the number of fields, the timestamp
 * field, the address field already read as an interface, and the value
 * field, all trimmed.
 */
module Store {
  import opened Util
  import opened Numbers
  import opened Addresses

  /** One line of the log, split at commas. */
  datatype Line = Line(fields: nat, stamp: string, address: Address, value: string)

  /** `is_valid_line`: at least three fields and a timestamp `is_datetime` accepts. */
  predicate IsValidLine(l: Line) {
    l.fields >= 3 && IsNaturalNumber(l.stamp)
  }

  /** The timestamp of a valid line, as the integer YYYYMMDDHHMMSS it spells. */
  function TimeOf(l: Line): int
    requires IsValidLine(l)
  {
    NaturalValue(l.stamp)
  }

  /** The store: `records` maps each address to its timestamped values; `addresses`
      lists the keys of `records` in insertion order, as a dict iterates them. */
  datatype Log = Log(records: map<Address, map<int, string>>, addresses: seq<Address>)

  const EmptyLog := Log(map[], [])

  /** The store is well formed: each address listed once, the list and the map agree,
      and every address has at least one record. */
  ghost predicate LogValid(log: Log) {
    && Distinct(log.addresses)
    && (forall a :: a in log.records <==> a in log.addresses)
    && (forall a :: a in log.records ==> log.records[a] != map[])
  }

  /** One iteration of the read loop: a valid line stores its value under its address
      and timestamp, replacing any earlier value; an invalid line is skipped. */
  function Insert(log: Log, l: Line): Log {
    if !IsValidLine(l) then log
    else
      var known := l.address in log.records;
      var series := if known then log.records[l.address] else map[];
      Log(log.records[l.address := series[TimeOf(l) := l.value]],
          if known then log.addresses else log.addresses + [l.address])
  }

  /** The store after the lines are read in order. */
  function Ingest(log: Log, lines: seq<Line>): Log
    decreases |lines|
  {
    if lines == [] then log else Ingest(Insert(log, lines[0]), lines[1..])
  }

  /** The value stored for `a` at time `t`, if any. */
  function Lookup(log: Log, a: Address, t: int): Option<string> {
    if a in log.records && t in log.records[a] then Some(log.records[a][t]) else None
  }

  /** Line `l` is a valid line for address `a` at time `t`. */
  predicate Writes(l: Line, a: Address, t: int) {
    IsValidLine(l) && l.address == a && TimeOf(l) == t
  }

  /** Some valid line is for address `a`. */
  ghost predicate Mentions(lines: seq<Line>, a: Address) {
    exists k :: 0 <= k < |lines| && IsValidLine(lines[k]) && lines[k].address == a
  }

  /** The addresses of the valid lines, in order. */
  function ValidAddresses(lines: seq<Line>): seq<Address> {
    if lines == [] then []
    else (if IsValidLine(lines[0]) then [lines[0].address] else []) + ValidAddresses(lines[1..])
  }

  lemma {:induction false} ValidAddressesIff(lines: seq<Line>, a: Address)
    ensures a in ValidAddresses(lines) <==> Mentions(lines, a)
    decreases |lines|
  {
    if lines != [] {
      ValidAddressesIff(lines[1..], a);
      if Mentions(lines[1..], a) {
        var k :| 0 <= k < |lines| - 1 && IsValidLine(lines[1..][k]) && lines[1..][k].address == a;
        assert lines[k + 1] == lines[1..][k];
      }
      if Mentions(lines, a) {
        var k :| 0 <= k < |lines| && IsValidLine(lines[k]) && lines[k].address == a;
        if k > 0 {
          assert lines[1..][k - 1] == lines[k];
        }
      }
    }
  }

  lemma InsertValid(log: Log, l: Line)
    requires LogValid(log)
    ensures LogValid(Insert(log, l))
  {
    if IsValidLine(l) {
      var r := Insert(log, l).records;
      assert TimeOf(l) in r[l.address];
      forall a | a in r ensures r[a] != map[] {
        if a != l.address {
          assert r[a] == log.records[a];
        }
      }
    }
  }

  /** Reading lines keeps the store well formed. */
  lemma {:induction false} IngestValid(log: Log, lines: seq<Line>)
    requires LogValid(log)
    ensures LogValid(Ingest(log, lines))
    decreases |lines|
  {
    if lines != [] {
      InsertValid(log, lines[0]);
      IngestValid(Insert(log, lines[0]), lines[1..]);
    }
  }

  /** One iteration of the read loop: the store stays well formed and reading the
      rest of the lines from the new store ends where reading from the old one does. */
  lemma IngestStep(log: Log, lines: seq<Line>, i: nat)
    requires LogValid(log) && i < |lines|
    ensures LogValid(Insert(log, lines[i]))
    ensures log.records.Keys <= Insert(log, lines[i]).records.Keys
    ensures Ingest(Insert(log, lines[i]), lines[i + 1..]) == Ingest(log, lines[i..])
  {
    InsertValid(log, lines[i]);
    assert lines[i..][0] == lines[i] && lines[i..][1..] == lines[i + 1..];
  }

  /** Lines that do not write `(a, t)` leave its value as it was. */
  lemma {:induction false} IngestUntouched(log: Log, lines: seq<Line>, a: Address, t: int)
    requires forall k :: 0 <= k < |lines| ==> !Writes(lines[k], a, t)
    ensures Lookup(Ingest(log, lines), a, t) == Lookup(log, a, t)
    decreases |lines|
  {
    if lines != [] {
      assert !Writes(lines[0], a, t);
      var next := Insert(log, lines[0]);
      assert Lookup(next, a, t) == Lookup(log, a, t);
      assert forall k :: 0 <= k < |lines| - 1 ==> lines[1..][k] == lines[k + 1];
      IngestUntouched(next, lines[1..], a, t);
    }
  }

  /** The value of `(a, t)` is that of the last line that writes it. */
  lemma {:induction false} IngestLastWrite(log: Log, lines: seq<Line>, k: nat)
    requires k < |lines| && IsValidLine(lines[k])
    requires forall k' :: k < k' < |lines| ==> !Writes(lines[k'], lines[k].address, TimeOf(lines[k]))
    ensures Lookup(Ingest(log, lines), lines[k].address, TimeOf(lines[k])) == Some(lines[k].value)
    decreases |lines|
  {
    var next := Insert(log, lines[0]);
    assert forall k' :: 0 <= k' < |lines| - 1 ==> lines[1..][k'] == lines[k' + 1];
    if k == 0 {
      assert Lookup(next, lines[0].address, TimeOf(lines[0])) == Some(lines[0].value);
      IngestUntouched(next, lines[1..], lines[0].address, TimeOf(lines[0]));
    } else {
      IngestLastWrite(next, lines[1..], k - 1);
    }
  }

  /** Last write wins: the stored value of an address at a time is the value of the
      last valid line for that address and time. */
  lemma LastWriteWins(lines: seq<Line>, k: nat)
    requires k < |lines| && IsValidLine(lines[k])
    requires forall k' :: k < k' < |lines| ==> !Writes(lines[k'], lines[k].address, TimeOf(lines[k]))
    ensures Lookup(Ingest(EmptyLog, lines), lines[k].address, TimeOf(lines[k])) == Some(lines[k].value)
  {
    IngestLastWrite(EmptyLog, lines, k);
  }

  /** Nothing is stored for an address and time that no valid line mentions. */
  lemma NoLineNoRecord(lines: seq<Line>, a: Address, t: int)
    requires forall k :: 0 <= k < |lines| ==> !Writes(lines[k], a, t)
    ensures Lookup(Ingest(EmptyLog, lines), a, t) == None
  {
    IngestUntouched(EmptyLog, lines, a, t);
  }

  /** The address list grows as a dict's keys do: new addresses are appended in the
      order of their first valid line. */
  lemma {:induction false} IngestAddresses(log: Log, lines: seq<Line>)
    requires forall a :: a in log.records <==> a in log.addresses
    ensures Ingest(log, lines).addresses == AppendNew(log.addresses, ValidAddresses(lines))
    decreases |lines|
  {
    if lines != [] {
      var next := Insert(log, lines[0]);
      IngestAddresses(next, lines[1..]);
      var va := ValidAddresses(lines);
      if IsValidLine(lines[0]) {
        assert va[0] == lines[0].address && va[1..] == ValidAddresses(lines[1..]);
      } else {
        assert va == ValidAddresses(lines[1..]);
      }
    }
  }

  /** From an empty store: the addresses are those of the valid lines, each once, listed
      in the order of their first valid line, and each has at least one record. */
  lemma AddressesFirstSeen(lines: seq<Line>)
    ensures LogValid(Ingest(EmptyLog, lines))
    ensures forall a :: a in Ingest(EmptyLog, lines).addresses <==> Mentions(lines, a)
    ensures InFirstSeenOrder(Ingest(EmptyLog, lines).addresses, ValidAddresses(lines))
  {
    IngestValid(EmptyLog, lines);
    IngestAddresses(EmptyLog, lines);
    AppendNewMembers([], ValidAddresses(lines));
    FirstSeenOrder(ValidAddresses(lines));
    forall a ensures a in Ingest(EmptyLog, lines).addresses <==> Mentions(lines, a) {
      ValidAddressesIff(lines, a);
    }
  }
}
