/** The throttled transfer-rate measurement of `update_speed_metrics`.
    Time is in integer milliseconds; the source's half-second threshold is
    `ThrottleMs`. */
module SpeedMeter {
  import opened Wrappers
  import opened Events

  const ThrottleMs: int := 500

  /** `NoBaseline` until the worker first reports progress (the attributes
      `_last_update_time` and `_last_downloaded` do not exist yet), then the
      time and byte count at which the rate was last measured. */
  datatype Meter = NoBaseline | Baseline(time: int, downloaded: int)

  /** Bytes per second over a window of `elapsedMs` milliseconds. */
  function Rate(bytes: int, elapsedMs: int): real
    requires elapsedMs > 0
  {
    (bytes as real) * 1000.0 / (elapsedMs as real)
  }

  /** One call of `update_speed_metrics(downloaded, now)`: the meter after it
      and the rate it emits, if any. */
  function Measure(m: Meter, downloaded: int, now: int): (r: (Meter, Option<real>))
    ensures r.0.Baseline?
    ensures r.1.Some? ==> r.0 == Baseline(now, downloaded)
    ensures r.1.None? && m.Baseline? ==> r.0 == m
  {
    var base := if m.NoBaseline? then Baseline(now, downloaded) else m;
    var elapsed := now - base.time;
    if elapsed > ThrottleMs
    then (Baseline(now, downloaded), Some(Rate(downloaded - base.downloaded, elapsed)))
    else (base, None)
  }

  /** The signals one call emits: the byte count always, then the rate when measured. */
  function MeasureEvents(m: Meter, downloaded: nat, now: int): (r: seq<Event>)
    ensures 1 <= |r| <= 2 && r[0] == FileProgress(downloaded)
    ensures |r| == 2 <==> Measure(m, downloaded, now).1.Some?
    ensures |r| == 2 ==> r[1] == Speed(Measure(m, downloaded, now).1.value)
  {
    var (_, rate) := Measure(m, downloaded, now);
    [FileProgress(downloaded)] + (if rate.Some? then [Speed(rate.value)] else [])
  }

  /** The first call only records the baseline; it never emits a rate. */
  lemma FirstCallSetsBaseline(downloaded: int, now: int)
    ensures Measure(NoBaseline, downloaded, now) == (Baseline(now, downloaded), None)
  {
  }

  /** With a baseline, a rate is emitted iff strictly more than 500 ms have
      passed; it is the byte delta over the window, and the baseline moves
      to the current values. Otherwise the meter is unchanged. */
  lemma ThrottleRule(time: int, last: int, downloaded: int, now: int)
    ensures var (m, rate) := Measure(Baseline(time, last), downloaded, now);
      (rate.Some? <==> now - time > 500) &&
      (rate.Some? ==> m == Baseline(now, downloaded) &&
                      rate.value * ((now - time) as real) == ((downloaded - last) as real) * 1000.0) &&
      (rate.None? ==> m == Baseline(time, last))
  {
    if now - time > 500 {
      var e := (now - time) as real;
      assert Rate(downloaded - last, now - time) * e == ((downloaded - last) as real) * 1000.0;
    }
  }

  /** A rate measured while the byte count did not go down is not negative. */
  lemma RateNonNegativeWhenGrowing(m: Meter, downloaded: int, now: int)
    requires m.Baseline? ==> m.downloaded <= downloaded
    ensures Measure(m, downloaded, now).1.Some? ==> Measure(m, downloaded, now).1.value >= 0.0
  {
  }

  /** The meter keeps its baseline from one download to the next, and every
      download counts its bytes from 0, so the first rate measured for a
      later file can be negative. */
  lemma BaselineCarriesAcrossFiles()
    ensures Measure(Baseline(0, 10 * 1024 * 1024), 4096, 600).1.Some?
    ensures Measure(Baseline(0, 10 * 1024 * 1024), 4096, 600).1.value < 0.0
  {
  }

  /** A stream of `(downloaded, now)` progress reports. */
  datatype Report = Report(downloaded: nat, now: int)

  /** The meter after a stream of reports. */
  function MeterAfter(m: Meter, reports: seq<Report>): Meter
    decreases |reports|
  {
    if reports == [] then m
    else MeterAfter(Measure(m, reports[0].downloaded, reports[0].now).0, reports[1..])
  }

  /** The times at which a stream of reports makes the meter emit a rate. */
  function EmissionTimes(m: Meter, reports: seq<Report>): seq<int>
    decreases |reports|
  {
    if reports == [] then []
    else
      var (m', rate) := Measure(m, reports[0].downloaded, reports[0].now);
      (if rate.Some? then [reports[0].now] else []) + EmissionTimes(m', reports[1..])
  }

  /** What one report does to the time of the baseline: a rate is emitted
      only more than 500 ms after an existing baseline and then moves it to
      the report's time; otherwise an existing baseline stays. */
  lemma MeasureMovesBaseline(m: Meter, r: Report)
    ensures Measure(m, r.downloaded, r.now).0.Baseline?
    ensures Measure(m, r.downloaded, r.now).1.Some? ==>
      Measure(m, r.downloaded, r.now).0.time == r.now && (m.Baseline? ==> r.now - m.time > 500)
    ensures Measure(m, r.downloaded, r.now).1.None? && m.Baseline? ==>
      Measure(m, r.downloaded, r.now).0.time == m.time
  {
  }

  /** However often progress is reported, consecutive rate emissions are more
      than 500 ms apart, and the first one comes more than 500 ms after the
      baseline in force at the start. */
  lemma {:induction false} EmissionsAreThrottled(m: Meter, reports: seq<Report>)
    ensures forall k :: 0 <= k < |EmissionTimes(m, reports)| - 1 ==>
      EmissionTimes(m, reports)[k + 1] - EmissionTimes(m, reports)[k] > 500
    ensures m.Baseline? && |EmissionTimes(m, reports)| > 0 ==> EmissionTimes(m, reports)[0] - m.time > 500
    decreases |reports|
  {
    if reports != [] {
      var r := reports[0];
      var step := Measure(m, r.downloaded, r.now);
      var rest := EmissionTimes(step.0, reports[1..]);
      var e := EmissionTimes(m, reports);
      assert e == (if step.1.Some? then [r.now] else []) + rest;
      MeasureMovesBaseline(m, r);
      EmissionsAreThrottled(step.0, reports[1..]);
      if step.1.Some? {
        forall k | 0 <= k < |e| - 1
          ensures e[k + 1] - e[k] > 500
        {
          if k > 0 {
            assert e[k] == rest[k - 1] && e[k + 1] == rest[k];
          }
        }
      }
    }
  }
}
