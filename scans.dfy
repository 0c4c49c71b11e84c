/**
 * The two scans of src/response_times.py over one address's records sorted by
 * time: the loop of `_find_address_failure` (lines 121-141) and the inner loop
 * of `find_high_load` (lines 169-198), each proved to return the entries of the
 * periods that module Series specifies.
 */
module Scans {
  import opened Util
  import opened Numbers
  import opened Addresses
  import opened Runs
  import opened Series
  import opened Correlation

  /** The loop of `_find_address_failure` over one address's sorted records, with
      the check after it: the entries of the failure periods. */
  method ScanFailures(address: Address, series: seq<Obs>, threshold: int) returns (result: seq<AddressPeriod>)
    requires |series| > 0 || threshold >= 1
    ensures result == AddressPeriods(address, Failures(series, threshold))
  {
    ghost var periods: seq<Period> := [];
    result := [];
    var failedCount := 0;
    var failStartTime := 0;
    FailureScanStart(series, threshold);
    for i := 0 to |series|
      invariant FailureScan(series, threshold, i, failedCount, failStartTime, periods)
      invariant result == AddressPeriods(address, periods)
    {
      var logTime := series[i].time;
      if series[i].value == NoResponse {
        FailureScanNoResponse(series, threshold, i, failedCount, failStartTime, periods);
        if failedCount <= 0 {
          failStartTime := logTime;
        }
        failedCount := failedCount + 1;
      } else if failedCount >= 1 {
        FailureScanRecovered(series, threshold, i, failedCount, failStartTime, periods);
        var failEndTime := logTime;
        if failedCount >= threshold {
          var p := Period(failStartTime, failEndTime);
          AddressPeriodsSnoc(address, periods, p);
          result := result + [AddressPeriod(address, p)];
          periods := periods + [p];
        } else {
          assert periods + [] == periods;
        }
        failedCount := 0;
      } else {
        FailureScanResponse(series, threshold, i, failedCount, failStartTime, periods);
      }
    }
    // The check after the loop runs even when no run is open.
    FailureScanEnd(series, threshold, failedCount, failStartTime, periods);
    if failedCount >= threshold {
      var p := Period(failStartTime, series[|series| - 1].time);
      AddressPeriodsSnoc(address, periods, p);
      result := result + [AddressPeriod(address, p)];
      periods := periods + [p];
    } else {
      assert periods + [] == periods;
    }
  }

  /** The inner loop of `find_high_load` over one address's sorted records, with the
      check after it: slide the window and report each high-load period. */
  method ScanHighLoad(address: Address, series: seq<Obs>, thresholdCount: int, thresholdAverage: real)
    returns (result: seq<AddressPeriod>)
    ensures result == AddressPeriods(address, HighLoads(series, thresholdCount, thresholdAverage))
  {
    ghost var vals := Values(series);
    ghost var runFrom: nat := 0;
    ghost var periods: seq<Period> := [];
    var cachedResponses: seq<string> := [];
    var loadStartTime: Option<int> := None;
    result := [];
    HighLoadScanStart(series, thresholdCount, thresholdAverage);
    for i := 0 to |series|
      invariant cachedResponses == Cache(vals, i, thresholdCount)
      invariant HighLoadScan(series, thresholdCount, thresholdAverage, i, runFrom, loadStartTime, periods)
      invariant result == AddressPeriods(address, periods)
    {
      var logTime := series[i].time;
      var response := series[i].value;
      CacheStep(vals, i, thresholdCount, response);
      HighLoadScanStep(series, thresholdCount, thresholdAverage, i, runFrom, loadStartTime, periods);
      ghost var nextFrom := NextFrom(series, thresholdCount, thresholdAverage, i, runFrom);
      ghost var nextPeriods := NextEmitted(series, thresholdCount, thresholdAverage, i, loadStartTime, periods);
      cachedResponses := cachedResponses + [response];
      if |cachedResponses| > thresholdCount {
        cachedResponses := cachedResponses[1..];
        var recentAverage := Average(cachedResponses);
        if recentAverage.Some? && recentAverage.value >= thresholdAverage {
          if loadStartTime.None? {
            loadStartTime := Some(logTime);
          }
        } else {
          if loadStartTime.Some? {
            var loadEndTime := logTime;
            var p := Period(loadStartTime.value, loadEndTime);
            AddressPeriodsSnoc(address, periods, p);
            result := result + [AddressPeriod(address, p)];
            loadStartTime := None;
          }
        }
      }
      runFrom := nextFrom;
      periods := nextPeriods;
    }
    HighLoadScanEnd(series, thresholdCount, thresholdAverage, runFrom, loadStartTime, periods);
    if loadStartTime.Some? {
      var p := Period(loadStartTime.value, series[|series| - 1].time);
      AddressPeriodsSnoc(address, periods, p);
      result := result + [AddressPeriod(address, p)];
      periods := periods + [p];
    } else {
      assert periods + [] == periods;
    }
  }
}
