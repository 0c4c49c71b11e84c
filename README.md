# Response-time log analysis: a Dafny model of `ResponseTimes`

This project models the `ResponseTimes` class of `src/response_times.py`.
The class reads a log of ping probes. Each line holds a timestamp, a server
address with prefix length, and a response time, or `-` when the server did
not answer. The class keeps, for each address, the values by timestamp. It
also indexes the addresses by the IPv4 network they belong to. On that store
it answers four queries:

- `find_all_failure`: the periods in which an address did not answer for at
  least `threshold` consecutive probes;
- `find_high_load`: the periods in which the mean of the last
  `threshold_count` response times reached `threshold_average`;
- `_find_subnet_failure` and `find_all_subnet_failure`: the failure periods
  that every member of a subnet reported.

The class is a Dafny `class` with the two dicts as fields. A Python dict
iterates in insertion order, so each dict is a `map` plus a `seq` of its keys
in that order: `records`/`addresses` and `subnets`/`networks`. Each method
that loops in the source is a method with the same loop. Each is proved
against a specification function:

| module | what it specifies |
|---|---|
| `Store` | what the log turns into |
| `Subnets` | the subnet index |
| `Runs` | the run detector that both scans share |
| `Series` | one address's failure and high-load periods |
| `Reports` | the results of the whole-store queries |
| `Correlation` | the subnet filter |

The lemmas beside those functions state what the queries promise.

The class invariant `Valid()` holds after the constructor and after
`read_csv`. It says:

- each address is listed once and has at least one record;
- each network is listed once;
- each network has a non-empty list of stored addresses of that network.

Each query requires only the part of that invariant it reads.
`ResponseTimes.ValidQueries` shows that `Valid()` implies all of them.

Timestamps are integers (`YYYYMMDDHHMMSS`). A period is the pair of the
times it starts and ends. An entry pairs a period with an address or a
network. The code compares the formatted period strings exactly (line
207), so two entries are equal exactly when their fields are.

The model keeps two behaviours of the code that look unintended:

- `_find_address_failure` called with a threshold of 0 or less reports a
  spurious period from the last run's start (or 0) to the last record when
  the last record answered (`Series.SpuriousOpenPeriod`). When the last record closes a failure, that
  failure is reported twice (`Series.ClosingPeriodTwice`).
  `find_all_failure` replaces such thresholds by 1. `find_all_subnet_failure`
  passes them through unchanged, so its results show both effects.
- Raising `threshold_average` can split one high-load period into two. So
  the number of periods is not monotone in the threshold. What holds is
  nesting: every period found with the higher threshold lies inside one
  found with the lower (`Series.HighLoadsNested`).

## Model

| member | source | states |
|---|---|---|
| Numbers.NaturalNumberCases | src/response_times.py:18-28 | `is_natural_number` rejects `-`, letters, decimals, negatives, the empty string and misplaced underscores; it accepts `0`, `+7`, `-0` and `1_000`, as Python's `int()` does |
| Numbers.ParseInt | src/response_times.py:22-27 | definition: Python's base-10 `int()` on ASCII, an optional sign and digits with single underscores between them; `None` where `int()` raises `ValueError` |
| Numbers.IsNaturalNumber | src/response_times.py:18-28 | definition: `int()` succeeds and the value is not negative |
| Numbers.IntRoundTrip | src/response_times.py:22-27 | parsing the decimal text of any integer gives it back; that text is a natural number exactly when the integer is not negative |
| Numbers.NatRoundTrip | src/response_times.py:22-28 | the decimal text of any natural number parses back to it and is accepted |
| Addresses.SameNetworkIff | src/response_times.py:103-104 | two interfaces are in the same network exactly when their prefix lengths agree and so do their leading prefix-length bits |
| Addresses.NetworkOf | src/response_times.py:103-104 | `get_subnet`: the network has the interface's prefix length, its base is a multiple of the host span, and the address lies between the base and the base plus the span |
| Addresses.NetworkOfBase | src/response_times.py:103-104 | the network of a network's own base address is that network |
| Addresses.NetworkExtremes | src/response_times.py:103-104 | a /32 interface is its own network; a /0 interface belongs to 0.0.0.0/0 |
| Store.InsertValid | src/response_times.py:88-95 | storing one line keeps the store well formed: each address listed once, list and map agree, every address has a record |
| Store.Insert | src/response_times.py:88-95 | definition: one iteration of the read loop; an invalid line changes nothing |
| Store.IsValidLine | src/response_times.py:62-71 | definition: `is_valid_line`, at least three fields and a timestamp that `is_datetime` (that is, `is_natural_number`) accepts; `is_address` accepts every address |
| Store.TimeOf | src/response_times.py:90 | definition: the dict key of a valid line, the integer its timestamp spells, standing for `conv_to_datetime` |
| Store.Ingest | src/response_times.py:84-95 | definition: the read loop over all lines, in order |
| Store.IngestValid | src/response_times.py:84-95 | storing any sequence of lines keeps the store well formed |
| Store.IngestStep | src/response_times.py:84-95 | one more line stored keeps the store well formed and never drops an address; the rest of the lines finish the same store |
| Store.LastWriteWins | src/response_times.py:95 | the value stored for an address and timestamp is the one of the last valid line that wrote them |
| Store.NoLineNoRecord | src/response_times.py:88-95 | an address and timestamp that no valid line wrote have no value |
| Store.AddressesFirstSeen | src/response_times.py:93-94 | the stored addresses are exactly those of valid lines, each once, in the order first seen |
| Store.ValidAddressesIff | src/response_times.py:88-94 | an address is among the valid lines' addresses exactly when some valid line names it |
| ResponseTimesModel.ResponseTimes.constructor | src/response_times.py:48-51 | a new object holds the store of the log's lines and the index built from its addresses, and is well formed |
| ResponseTimesModel.ResponseTimes.ReadCsv | src/response_times.py:53-97 | the store becomes the old store with every line ingested; the index gets every stored address appended; the object stays well formed |
| ResponseTimesModel.ResponseTimes.StoreLine | src/response_times.py:88-95 | the store becomes the old store with the line inserted; the index is unchanged |
| ResponseTimesModel.ResponseTimes.ParseSubnet | src/response_times.py:99-110 | the store is unchanged; the index becomes the old index with every stored address appended under its network; the object ends well formed |
| ResponseTimesModel.ResponseTimes.AddToSubnet | src/response_times.py:107-110 | the index becomes the old index with the address appended to its network's list, the list opened when new |
| Subnets.BuildIndexStep | src/response_times.py:106-110 | appending one more stored address keeps the index well formed; the rest of the addresses finish the same index |
| Subnets.AddMember | src/response_times.py:107-110 | definition: one iteration of `_parse_subnet`'s loop |
| Subnets.BuildIndex | src/response_times.py:106-110 | definition: `_parse_subnet`'s loop over the addresses, in order |
| Subnets.BuildIndexValid | src/response_times.py:106-110 | appending stored addresses keeps each network listed once with a non-empty list of stored addresses of that network |
| Subnets.IndexFromAddresses | src/response_times.py:99-110 | built from the store's addresses, the index lists exactly their networks; each network maps to exactly its addresses, in store order, each once |
| Subnets.NetworksFirstSeen | src/response_times.py:106-109 | the networks are listed in the order in which the addresses first reach them |
| Subnets.MembersIff | src/response_times.py:106-110 | an address is in a network's list exactly when it is stored and belongs to that network |
| Subnets.MembersInOrder | src/response_times.py:106-110 | a network's list keeps the store's address order |
| Series.SeriesOfSorted | src/response_times.py:120-121 | the sorted records list every timestamp once, with its value, in increasing time |
| Series.SeriesOf | src/response_times.py:120-121 | definition: `sorted(records.items())`, earliest timestamp first; its properties are stated by `Series.SeriesOfSorted` |
| ResponseTimesModel.ResponseTimes.FindAddressFailure | src/response_times.py:112-142 | the result is the address's failure periods, tagged with the address |
| Scans.ScanFailures | src/response_times.py:118-141 | the counter loop and the check after it return exactly the failure periods of the series |
| Series.Failures | src/response_times.py:118-141 | definition: the periods of the no-response runs of at least `threshold` records, then the extra period of the check after the loop |
| Series.OpenTail | src/response_times.py:135-141 | definition: the extra period that the check after the loop adds when the threshold is 0 or less and the last record answered |
| Series.Outages | src/response_times.py:122 | the test `response_time == '-'`: one sample per record, with the record's time, marked exactly when its value is the no-response marker |
| Runs.LastRunStart | src/response_times.py:119-124 | definition: the value `fail_start_time` holds after a prefix of the records, the time of the last run's first record, 0 before any run |
| Series.FailuresAreRuns | src/response_times.py:120-141 | for a threshold of at least 1, a period is reported exactly when it is the span of a maximal no-response run of at least `threshold` probes, ended by the answering probe or the last probe |
| Series.FailuresOrdered | src/response_times.py:120-141 | for a threshold of at least 1, failure periods are in time order, each well formed, each ending before the next starts |
| Series.FailuresMonotone | src/response_times.py:128-137 | raising the threshold keeps a subsequence of the failure periods |
| Series.SpuriousOpenPeriod | src/response_times.py:119-137 | with a threshold of 0 or less and no failure, one period from 0 to the last probe is reported |
| Series.ClosingPeriodTwice | src/response_times.py:119-137 | for every log and every threshold of 0 or less, when the second-to-last probe failed and the last one answered, the result ends with the same period twice, ending at the last probe |
| Series.DuplicatedClosingPeriod | src/response_times.py:126-137 | one example of the above: a failure then an answer, threshold 0, give the period from the failure to the answer twice |
| Series.RecoveredRunScenario | src/response_times.py:120-134 | two failures then an answer, threshold 1, give one period from the first failure to the answer |
| Runs.RunsIff | src/response_times.py:120-141 | the run detector reports a period exactly when it is the span of a maximal run at least as long as the threshold |
| Runs.ReportedOrdered | src/response_times.py:120-141 | over records in increasing time, the reported periods are in order and disjoint |
| Runs.ReportedMonotone | src/response_times.py:128-137 | a higher run-length threshold reports a subsequence |
| ResponseTimesModel.ResponseTimes.FindAllFailure | src/response_times.py:144-153 | the result is every address's failure entries in store order, with a threshold of 0 or less replaced by 1; the threshold defaults to 1 |
| Reports.Normalize | src/response_times.py:149-150 | the threshold used is at least 1, and a threshold of at least 1 is kept |
| Reports.AllFailuresIff | src/response_times.py:148-153 | an entry is reported exactly when its address is stored and the period is one of that address's failure periods |
| Reports.AddressFailures | src/response_times.py:117-142 | definition: the failure periods of the address's sorted records |
| Reports.AllFailures | src/response_times.py:148-153 | definition: each listed address's tagged failure periods, in list order |
| Reports.FindAllFailureMonotone | src/response_times.py:149-152 | raising the requested threshold keeps a subsequence of the result |
| ResponseTimesModel.ResponseTimes.FindHighLoad | src/response_times.py:155-199 | the result is every address's high-load entries in store order |
| Scans.ScanHighLoad | src/response_times.py:170-198 | the sliding-window loop and the check after it return exactly the high-load periods of the series |
| Series.MeanAfterValue | src/response_times.py:164-166 | the accumulated mean is the total over the count |
| Series.Numeric | src/response_times.py:161 | `filter(is_natural_number, ...)` read as numbers: never more entries than the window |
| Series.Mean | src/response_times.py:162-166 | `None` exactly when there is no number |
| Series.Average | src/response_times.py:160-166 | definition: the mean of the window's numeric entries |
| Series.Window | src/response_times.py:176-178 | the cached list after record `i`: empty when `threshold_count` is 0 or less, otherwise the last `threshold_count` values (fewer at the start) ending with record `i`'s value |
| Series.HighAt | src/response_times.py:177-181 | definition: the record is the `(threshold_count+1)`-th or later and its window's average exists and reaches `threshold_average` |
| Series.HighLoads | src/response_times.py:170-198 | definition: the periods of the maximal runs of high-load records |
| Series.MeanTimesCount | src/response_times.py:160-166 | the mean of a non-empty list times its length is its sum |
| Series.MeanReaches | src/response_times.py:160-181 | a mean exists and reaches the threshold exactly when the list is non-empty and its sum reaches threshold times its length |
| Series.WindowSlide | src/response_times.py:176-178 | appending a value and dropping the oldest beyond `threshold_count` gives the window of the last `threshold_count` values |
| Series.CacheStep | src/response_times.py:176-178 | the cached list after a step is the window at that record; the pop happens exactly from the `(threshold_count+1)`-th record on |
| Series.HighLoadScanStep | src/response_times.py:176-191 | each record moves the scan state as the loop body does: before the window is full nothing opens; a high window opens or extends a period; a low window closes it |
| Series.HighLoadsAreRuns | src/response_times.py:175-198 | a period is reported exactly when it spans a maximal run of high-load records, ended by the first later record whose window is low or by the last record |
| Series.HighLoadsOrdered | src/response_times.py:170-198 | high-load periods are in time order and disjoint |
| Series.HighLoadsNested | src/response_times.py:180-181 | every period found with a higher average threshold lies within one found with a lower |
| Series.NoWindowNoHighLoad | src/response_times.py:176-178 | with `threshold_count` 0 or less the window is always empty, so nothing is reported |
| Reports.AllHighLoadsIff | src/response_times.py:168-199 | an entry is reported exactly when its address is stored and the period is one of that address's high-load periods |
| Reports.AllHighLoads | src/response_times.py:168-199 | definition: each listed address's tagged high-load periods, in list order |
| ResponseTimesModel.ResponseTimes.FindSubnetFailure | src/response_times.py:201-220 | the result is the subnet's failure periods (those every member reported), tagged with the subnet; the threshold defaults to 1 |
| Correlation.Includes | src/response_times.py:205-209 | `includes` holds exactly when the period is one of the entries' periods |
| Correlation.KeepIncluded | src/response_times.py:219 | definition: the filter of one loop iteration; its effect on periods is stated by `Correlation.KeepIncludedPeriods` |
| Correlation.KeepIncludedPeriods | src/response_times.py:219 | filtering subnet entries by a member's entries keeps the periods that occur in that member's list, in order |
| Correlation.CommonIff | src/response_times.py:215-219 | a period survives all filters exactly when it is one of the first member's and occurs in every list |
| Correlation.CommonInOrder | src/response_times.py:215-219 | the survivors are a subsequence of the first member's periods |
| Reports.SubnetFailuresIff | src/response_times.py:215-220 | a subnet period is reported exactly when every member reported it |
| Reports.SubnetFailures | src/response_times.py:215-220 | definition: the first member's failure periods that occur in every member's list, in the first member's order |
| Reports.SubnetFailuresOrdered | src/response_times.py:215-220 | subnet periods keep the first member's order; with a threshold of at least 1 they are in time order and disjoint |
| Reports.SingleMemberSubnet | src/response_times.py:211-213 | with the size guard commented out, a one-member subnet reports its member's failure periods |
| Reports.QuietMemberSilencesSubnet | src/response_times.py:217-219 | a member without failures leaves its subnet without any |
| ResponseTimesModel.ResponseTimes.FindAllSubnetFailure | src/response_times.py:222-229 | the result is every subnet's entries in network order, with the threshold (default 1) passed on as given |
| Reports.AllSubnetFailuresIff | src/response_times.py:226-229 | an entry is reported exactly when its network is indexed and the period is one of that subnet's failure periods |
| Reports.AllSubnetFailures | src/response_times.py:226-229 | definition: each listed network's tagged subnet failure periods, in list order |

## Left out

- File access: `is_valid_csv` and the reading loop over an open file are replaced by a sequence of lines already read.
- Comma splitting and `strip`: a line arrives as its field count and its trimmed fields.
- `conv_to_datetime` and `datetime`: a timestamp is the integer its digits spell. `YYYYMMDDHHMMSS` integers order as the datetimes do. Calendar validity and the `ValueError` for malformed dates are not modelled.
- `conv_to_datetime` reads only the first 14 characters, in fixed slices. A longer token loses its extra digits, so `"20221019133324"` and `"202210191333245"` are one key in the source and the later line overwrites the earlier; a 13-character token gets a one-digit second (`"2022101913332"` is 13:33:02). The model keys on the whole integer, so it keeps such tokens apart and orders them by their value.
- `is_datetime` and `is_address` are modelled as the source has them: `is_datetime` is `is_natural_number`, and `is_address` accepts everything.
- `ipaddress.IPv4Interface` parsing: the address field arrives as an address and prefix length.
- `with_prefixlen` and the `"{0}-{1}"` period strings: entries hold the address or network and the period's two times. Two entries are equal exactly when their strings are.
- Python's `int()` is modelled on ASCII only. Surrounding whitespace and non-ASCII digits are not accepted by the model.
- `average` divides in floating point; the model divides exactly, over reals. Rounding at the threshold is not modelled.
- Series.HighLoadsNested: the model proves nesting of periods, not a bound on their number. The number can grow when the threshold rises.
- `_find_address_failure` raises `UnboundLocalError` on an address with no records and a threshold of 0 or less. The store never holds such an address. The model's scan and queries require either a record or a threshold of at least 1.
- A missing address or network raises `KeyError` in the source. The queries require their keys to be present.
- The loop bodies of `read_csv` and `_parse_subnet` are factored into the methods `StoreLine` and `AddToSubnet`. The scans of `_find_address_failure` and `find_high_load` are the methods `ScanFailures` and `ScanHighLoad`. They take the sorted series as a value.
- `sorted(records.items())` is the function `SeriesOf`, specified by `Series.SeriesOfSorted`, not a sorting algorithm.
