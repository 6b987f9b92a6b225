/**
 * The per-exporter cache and freshness policy of Collect
 * (cmd/custom-exporter/main.go:94-141). For each configured exporter, in
 * order, the collector either re-emits the metric it cached less than the
 * exporter's interval ago, or fetches once, builds a new metric (with value 0
 * when the fetch failed), caches it with a new fetch time and emits it.
 *
 * Times are readings of Go's monotonic clock in nanoseconds. Collect reads
 * the clock twice per exporter: once for the freshness test (time.Since at
 * line 103) and once, after the fetch, for the time it stores (time.Now at
 * line 137); both readings are inputs here.
 */
module Collection {
  import Int64
  import Parsing
  import Fetching

  datatype MetricKind = Gauge | Counter

  /** A constant metric: the exporter's descriptor (name, help text, labels), its kind and its value. */
  datatype Metric = Metric(
    name: string,
    help: string,
    labels: map<string, string>,
    kind: MetricKind,
    value: real)

  /**
   * The metric Collect builds for an exporter: a counter exactly when the
   * configured metric type is "counter", a gauge for every other text.
   */
  function NewConstMetric(e: Fetching.Exporter, value: real): (m: Metric)
    ensures m.name == e.name && m.help == e.description && m.labels == e.labels
    ensures m.value == value
    ensures m.kind == Counter <==> e.metricType == "counter"
  {
    var kind := if e.metricType == "counter" then Counter else Gauge;
    Metric(e.name, e.description, e.labels, kind, value)
  }

  const Second: int := 1_000_000_000

  /**
   * time.Duration(interval) * time.Second: the interval in nanoseconds, with
   * int64 wrap-around, as Go computes it.
   */
  function IntervalDuration(interval: int): (d: int)
    ensures Int64.InRange(d)
    ensures Int64.InRange(interval * Second) ==> d == interval * Second
  {
    Int64.Wrap(interval * Second)
  }

  /** time.Since(earlier) read at `now`: the difference, saturated to the int64 range. */
  function Since(now: int, earlier: int): (d: int)
    ensures Int64.InRange(d)
    ensures earlier <= now ==> d >= 0
    ensures Int64.InRange(now - earlier) ==> d == now - earlier
    ensures now - earlier > Int64.MaxInt64 ==> d == Int64.MaxInt64
    ensures now - earlier < Int64.MinInt64 ==> d == Int64.MinInt64
  {
    Int64.Saturate(now - earlier)
  }

  /** The two clock readings Collect takes for one exporter. */
  datatype Readings = Readings(check: int, store: int)

  /** The collector's two tables, keyed by exporter name. */
  datatype Cache = Cache(metrics: map<string, Metric>, lastFetch: map<string, int>)

  /**
   * The two tables always hold the same names, since Collect writes them
   * together, and every cached metric carries the name it is cached under.
   */
  ghost predicate Consistent(c: Cache) {
    c.metrics.Keys == c.lastFetch.Keys
    && forall n :: n in c.metrics ==> c.metrics[n].name == n
  }

  /** The entry for e was fetched less than e's interval before `now`. */
  predicate Fresh(c: Cache, e: Fetching.Exporter, now: int): (b: bool)
    ensures b ==> e.name in c.lastFetch
    ensures b && c.lastFetch[e.name] <= now ==> IntervalDuration(e.interval) > 0
  {
    e.name in c.lastFetch && Since(now, c.lastFetch[e.name]) < IntervalDuration(e.interval)
  }

  /** The cached metric is re-emitted: the entry is fresh and a metric is cached. */
  predicate Hit(c: Cache, e: Fetching.Exporter, now: int): (b: bool)
    ensures b ==> e.name in c.metrics && e.name in c.lastFetch
    ensures Consistent(c) ==> (b <==> Fresh(c, e, now))
  {
    Fresh(c, e, now) && e.name in c.metrics
  }

  /**
   * The value fetchData yields for each exporter, given the sources and the
   * library calls (on an error, the value 0 that comes with it).
   */
  function Fetcher(src: Fetching.Sources, lib: Parsing.Library): Fetching.Exporter -> real {
    e => Fetching.FetchData(e, src, lib).value
  }

  /**
   * One fetcher per exporter of a scrape: every fetch runs its command, GET
   * or file read anew, so two exporters with the same locator may see
   * different payloads within one scrape.
   */
  function Fetchers(srcs: seq<Fetching.Sources>, lib: Parsing.Library): seq<Fetching.Exporter -> real> {
    seq(|srcs|, i requires 0 <= i < |srcs| => Fetcher(srcs[i], lib))
  }

  /**
   * One iteration of Collect's loop: the tables afterwards and the metric
   * emitted. `fetch` gives the value a fetch of the exporter would yield.
   */
  function Step(c: Cache, e: Fetching.Exporter, t: Readings, fetch: Fetching.Exporter -> real)
    : (r: (Cache, Metric))
    ensures Consistent(c) ==> Consistent(r.0) && r.1.name == e.name
    ensures e.name in r.0.metrics && e.name in r.0.lastFetch && r.0.metrics[e.name] == r.1
  {
    if Hit(c, e, t.check) then (c, c.metrics[e.name])
    else
      var m := NewConstMetric(e, fetch(e));
      (Cache(c.metrics[e.name := m], c.lastFetch[e.name := t.store]), m)
  }

  /**
   * One call of Collect over the exporters `es` (with their clock readings
   * `ts` and what a fetch of each would yield, `fetches`): the tables
   * afterwards and the metrics emitted. Exactly one metric is emitted per
   * exporter, in configuration order, named after it.
   */
  function Scrape(c: Cache, es: seq<Fetching.Exporter>, ts: seq<Readings>, fetches: seq<Fetching.Exporter -> real>)
    : (r: (Cache, seq<Metric>))
    requires |ts| == |es| && |fetches| == |es|
    ensures |r.1| == |es|
    ensures Consistent(c) ==> Consistent(r.0) && forall i :: 0 <= i < |es| ==> r.1[i].name == es[i].name
    decreases |es|
  {
    if es == [] then (c, [])
    else
      var k := |es| - 1;
      var (before, out) := Scrape(c, es[..k], ts[..k], fetches[..k]);
      var (after, m) := Step(before, es[k], ts[k], fetches[k]);
      (after, out + [m])
  }

  /** The collector: the configured exporters and the two tables Collect keeps between scrapes. */
  class CustomCollector {
    const exporters: seq<Fetching.Exporter>
    var metrics: map<string, Metric>
    var lastFetch: map<string, int>

    ghost predicate Valid()
      reads this
    {
      Consistent(Cache(metrics, lastFetch))
    }

    /** NewCustomCollector: both tables start empty. */
    constructor (exporters: seq<Fetching.Exporter>)
      ensures this.exporters == exporters
      ensures metrics == map[] && lastFetch == map[]
      ensures Valid()
    {
      this.exporters := exporters;
      metrics := map[];
      lastFetch := map[];
    }

    /**
     * Collect: emits one metric per exporter, in order, and leaves the tables
     * as Scrape describes. `clock[i]` holds the readings taken for exporter i
     * and `srcs[i]` the sources as a fetch for exporter i would find them.
     */
    method Collect(clock: seq<Readings>, srcs: seq<Fetching.Sources>, lib: Parsing.Library)
      returns (out: seq<Metric>)
      requires Valid() && |clock| == |exporters| && |srcs| == |exporters|
      modifies this
      ensures Valid()
      ensures (Cache(metrics, lastFetch), out)
              == Scrape(Cache(old(metrics), old(lastFetch)), exporters, clock, Fetchers(srcs, lib))
    {
      out := [];
      var i := 0;
      ghost var start := Cache(metrics, lastFetch);
      ghost var fetches := Fetchers(srcs, lib);
      while i < |exporters|
        invariant 0 <= i <= |exporters|
        invariant (Cache(metrics, lastFetch), out) == Scrape(start, exporters[..i], clock[..i], fetches[..i])
        invariant Valid()
      {
        var e := exporters[i];
        ghost var before := Cache(metrics, lastFetch);
        ghost var outBefore := out;
        ghost var step := Step(before, e, clock[i], fetches[i]);
        ScrapeExtend(start, exporters, clock, fetches, i);
        assert Scrape(start, exporters[..i + 1], clock[..i + 1], fetches[..i + 1]) == (step.0, out + [step.1]);
        var found := e.name in lastFetch;
        var hasCached := e.name in metrics;
        var emitted := false;
        if found && Since(clock[i].check, lastFetch[e.name]) < IntervalDuration(e.interval) {
          if hasCached {
            assert Hit(before, e, clock[i].check);
            assert step == (before, metrics[e.name]);
            out := out + [metrics[e.name]];
            emitted := true;
          }
        }
        if !emitted {
          assert !Hit(before, e, clock[i].check);
          var fetched := Fetching.FetchData(e, srcs[i], lib);
          var metric := NewConstMetric(e, fetched.value);
          assert fetches[i](e) == fetched.value;
          assert step == (Cache(metrics[e.name := metric], lastFetch[e.name := clock[i].store]), metric);
          metrics := metrics[e.name := metric];
          lastFetch := lastFetch[e.name := clock[i].store];
          out := out + [metric];
        }
        assert Cache(metrics, lastFetch) == step.0 && out == outBefore + [step.1];
        i := i + 1;
      }
      assert exporters[..i] == exporters && clock[..i] == clock && fetches[..i] == fetches;
    }
  }

  /** Scraping one more exporter is one more step after the scrape of the ones before it. */
  lemma ScrapeExtend(c: Cache, es: seq<Fetching.Exporter>, ts: seq<Readings>,
                     fetches: seq<Fetching.Exporter -> real>, i: int)
    requires |ts| == |es| && |fetches| == |es| && 0 <= i < |es|
    ensures var before := Scrape(c, es[..i], ts[..i], fetches[..i]);
            Scrape(c, es[..i + 1], ts[..i + 1], fetches[..i + 1])
            == (Step(before.0, es[i], ts[i], fetches[i]).0, before.1 + [Step(before.0, es[i], ts[i], fetches[i]).1])
  {
    assert es[..i + 1][..i] == es[..i] && ts[..i + 1][..i] == ts[..i] && fetches[..i + 1][..i] == fetches[..i];
  }

  // ---------------------------------------------------------------- hits

  /**
   * On a hit the cached metric is emitted unchanged, neither table changes,
   * and no source is consulted: any other sources give the same step.
   */
  lemma HitReusesCache(c: Cache, e: Fetching.Exporter, t: Readings, fetch: Fetching.Exporter -> real, other: Fetching.Exporter -> real)
    requires Hit(c, e, t.check)
    ensures Step(c, e, t, fetch) == (c, c.metrics[e.name])
    ensures Step(c, e, t, other) == Step(c, e, t, fetch)
  {
  }

  /**
   * The next step for the same exporter, within its interval after a step,
   * fetches nothing: it re-emits what the first step left in the cache,
   * whatever its sources would now return. For exporters with distinct
   * names this carries over to whole scrapes, since a scrape leaves the
   * entries of other names as they were (ScrapeLeavesOthers).
   */
  lemma SecondScrapeWithinInterval(c: Cache, e: Fetching.Exporter, t1: Readings, t2: Readings,
                                   fetch1: Fetching.Exporter -> real, fetch2: Fetching.Exporter -> real)
    requires Since(t2.check, Step(c, e, t1, fetch1).0.lastFetch[e.name]) < IntervalDuration(e.interval)
    ensures Step(Step(c, e, t1, fetch1).0, e, t2, fetch2) == Step(c, e, t1, fetch1)
  {
  }

  /** With a non-positive interval duration nothing is ever fresh, on a clock that does not run backwards. */
  lemma NonPositiveIntervalNeverFresh(c: Cache, e: Fetching.Exporter, now: int)
    requires IntervalDuration(e.interval) <= 0
    requires e.name in c.lastFetch ==> c.lastFetch[e.name] <= now
    ensures !Fresh(c, e, now)
  {
  }

  /** In particular an interval of zero or fewer seconds (short of int64 wrap-around) never caches. */
  lemma NonPositiveSecondsNeverFresh(c: Cache, e: Fetching.Exporter, now: int)
    requires -9_223_372_036 <= e.interval <= 0
    requires e.name in c.lastFetch ==> c.lastFetch[e.name] <= now
    ensures !Fresh(c, e, now)
  {
    assert Int64.InRange(e.interval * Second);
    NonPositiveIntervalNeverFresh(c, e, now);
  }

  /**
   * time.Duration(interval) * time.Second wraps for intervals beyond about
   * 292 years. From 9 223 372 037 up to 18 446 744 073 seconds the duration
   * reads as negative, so the entry never counts as fresh and every scrape
   * fetches.
   */
  lemma HugeIntervalWraps(interval: int)
    requires 9_223_372_037 <= interval <= 18_446_744_073
    ensures IntervalDuration(interval) < 0
  {
  }

  /** Larger intervals cycle through positive durations again: 18 446 744 074 seconds reads as about 0.29 seconds. */
  lemma HugeIntervalCycles()
    ensures IntervalDuration(18_446_744_074) == 290_448_384
  {
  }

  /**
   * For intervals and clock readings within int64, the freshness test is the
   * plain comparison of the elapsed nanoseconds with the interval in
   * nanoseconds.
   */
  lemma FreshWithinInterval(c: Cache, e: Fetching.Exporter, now: int)
    requires e.name in c.lastFetch
    requires Int64.InRange(now - c.lastFetch[e.name]) && Int64.InRange(e.interval * Second)
    ensures Fresh(c, e, now) <==> now - c.lastFetch[e.name] < e.interval * Second
    ensures Hit(c, e, now) <==> now - c.lastFetch[e.name] < e.interval * Second && e.name in c.metrics
  {
  }

  // -------------------------------------------------------------- misses

  /**
   * On a miss (no entry, a stale entry, or no cached metric) the step fetches
   * once and overwrites both table entries for that name, the metric with the
   * fetched value and the fetch time with the second clock reading; other
   * names keep their entries.
   */
  lemma MissRefetches(c: Cache, e: Fetching.Exporter, t: Readings, fetch: Fetching.Exporter -> real)
    requires !Hit(c, e, t.check)
    ensures var m := NewConstMetric(e, fetch(e));
            Step(c, e, t, fetch) == (Cache(c.metrics[e.name := m], c.lastFetch[e.name := t.store]), m)
    ensures forall n :: n != e.name ==>
              (n in Step(c, e, t, fetch).0.metrics <==> n in c.metrics)
              && (n in c.metrics ==> Step(c, e, t, fetch).0.metrics[n] == c.metrics[n])
              && (n in Step(c, e, t, fetch).0.lastFetch <==> n in c.lastFetch)
              && (n in c.lastFetch ==> Step(c, e, t, fetch).0.lastFetch[n] == c.lastFetch[n])
  {
  }

  /** Once the interval has passed since the last fetch, the next step fetches again. */
  lemma StaleEntryRefetches(c: Cache, e: Fetching.Exporter, t: Readings, fetch: Fetching.Exporter -> real)
    requires e.name in c.lastFetch && Since(t.check, c.lastFetch[e.name]) >= IntervalDuration(e.interval)
    ensures Step(c, e, t, fetch).1 == NewConstMetric(e, fetch(e))
    ensures Step(c, e, t, fetch).0.lastFetch[e.name] == t.store
  {
  }

  /** A failed fetch still emits a metric for the exporter, with value 0, and caches it. */
  lemma FailedFetchEmitsZero(c: Cache, e: Fetching.Exporter, t: Readings, src: Fetching.Sources, lib: Parsing.Library)
    requires !Hit(c, e, t.check) && Fetching.FetchData(e, src, lib).err.Some?
    ensures Step(c, e, t, Fetcher(src, lib)).1.name == e.name
    ensures Step(c, e, t, Fetcher(src, lib)).1.value == 0.0
    ensures Step(c, e, t, Fetcher(src, lib)).0.metrics[e.name].value == 0.0
  {
  }

  // ------------------------------------------------------------ a scrape

  /** A scrape leaves the entries of names that no exporter in it carries untouched. */
  lemma {:induction false} ScrapeLeavesOthers(c: Cache, es: seq<Fetching.Exporter>, ts: seq<Readings>,
                                               fetches: seq<Fetching.Exporter -> real>, n: string)
    requires |ts| == |es| && |fetches| == |es|
    requires forall i :: 0 <= i < |es| ==> es[i].name != n
    ensures var after := Scrape(c, es, ts, fetches).0;
            (n in after.metrics <==> n in c.metrics)
            && (n in c.metrics ==> after.metrics[n] == c.metrics[n])
            && (n in after.lastFetch <==> n in c.lastFetch)
            && (n in c.lastFetch ==> after.lastFetch[n] == c.lastFetch[n])
    decreases |es|
  {
    if es != [] {
      var k := |es| - 1;
      ScrapeLeavesOthers(c, es[..k], ts[..k], fetches[..k], n);
    }
  }

  /** After a scrape every configured exporter has an entry in both tables. */
  lemma {:induction false} ScrapeCachesAll(c: Cache, es: seq<Fetching.Exporter>, ts: seq<Readings>,
                                           fetches: seq<Fetching.Exporter -> real>)
    requires |ts| == |es| && |fetches| == |es|
    ensures forall i :: 0 <= i < |es| ==>
              es[i].name in Scrape(c, es, ts, fetches).0.metrics
              && es[i].name in Scrape(c, es, ts, fetches).0.lastFetch
    decreases |es|
  {
    if es != [] {
      var k := |es| - 1;
      ScrapeCachesAll(c, es[..k], ts[..k], fetches[..k]);
      var before := Scrape(c, es[..k], ts[..k], fetches[..k]).0;
      var after := Step(before, es[k], ts[k], fetches[k]).0;
      assert Scrape(c, es, ts, fetches).0 == after;
      StepKeepsNames(before, es[k], ts[k], fetches[k]);
      forall i | 0 <= i < |es|
        ensures es[i].name in after.metrics && es[i].name in after.lastFetch
      {
        if i < k {
          assert es[i] == es[..k][i];
        }
      }
    }
  }

  /** A step never removes a name from either table. */
  lemma StepKeepsNames(c: Cache, e: Fetching.Exporter, t: Readings, fetch: Fetching.Exporter -> real)
    ensures c.metrics.Keys <= Step(c, e, t, fetch).0.metrics.Keys
    ensures c.lastFetch.Keys <= Step(c, e, t, fetch).0.lastFetch.Keys
  {
  }
}
