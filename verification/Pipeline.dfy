/** Startup end to end: generator, validation, merge, poller and the freshness that clients see. */
module Pipeline {
  import opened Base
  import opened Metrics
  import opened KernelRegistry
  import opened LiveRead
  import opened Poller
  import opened PollerRuns
  import opened ServerSystem
  import opened Generator
  import opened Decode
  import MibCache

  function GeneratedRegistry(known: seq<Info>): Registry {
    Registry("darwin-arm64", "Darwin 24.6.0 / xnu-11417", Generated(known))
  }

  /** The registry that buildFullRegistry leaves in the server. */
  function FullMetrics(known: seq<Info>, kernelRegistry: Option<Registry>): seq<KernelMetric> {
    seq(|known|, i requires 0 <= i < |known| => Merged(known[i], KernelOf(kernelRegistry)))
  }

  // ---------------------------------------------------------------- the generated registry is consistent

  lemma GeneratedNames(known: seq<Info>)
    ensures KernelNames(Generated(known)) == Names(known)
  {
  }

  /** The generated records pass validation exactly when no name occurs twice in Known. */
  lemma GeneratedIsConsistent(known: seq<Info>)
    ensures Consistent(known, Generated(known)) <==> Distinct(Names(known))
  {
    GeneratedNames(known);
    forall km | km in Generated(known)
      ensures km.kernelAccess.Some? && km.recommended.Some?
      ensures NeedsTtl(km.recommended.value.pattern) ==> km.recommended.value.ttl.Some?
    {
      var i :| 0 <= i < |known| && Generated(known)[i] == km;
      ClassificationIsConfigured(known[i].name, known[i].category);
    }
  }

  // ---------------------------------------------------------------- what each metric becomes

  /** Whatever Known holds, a merged metric carries the classification of some entry of its name. */
  lemma MergedIsClassified(known: seq<Info>, i: nat)
    requires i < |known|
    ensures exists j :: 0 <= j < |known| && known[j].name == known[i].name
                        && FullMetrics(known, Some(GeneratedRegistry(known)))[i].recommended
                           == Some(ClassifyRecommended(known[j].name, known[j].category))
  {
    var records, name := Generated(known), known[i].name;
    GeneratedNames(known);
    KernelIndexIsLast(records, name);
    assert Names(known)[i] == name;
    var j :| 0 <= j < |records| && records[j].name == name && KernelIndex(records)[name] == records[j];
    assert known[j].name == name;
  }

  /** With distinct names it is the metric's own classification. */
  lemma MergedIsOwnClassification(known: seq<Info>, i: nat)
    requires i < |known| && Distinct(Names(known))
    ensures FullMetrics(known, Some(GeneratedRegistry(known)))[i].recommended
            == Some(ClassifyRecommended(known[i].name, known[i].category))
    ensures FullMetrics(known, Some(GeneratedRegistry(known)))[i].kernelAccess
            == Some(AccessConfig(ClassifyKernel(known[i].name, known[i].category), None))
  {
    GeneratedNames(known);
    KernelIndexOfDistinct(Generated(known), i);
  }

  const SECOND: int := NANOS_PER_SECOND

  /** Every metric is stored once, scheduled every 10, 30 or 60 seconds, or read live. */
  lemma GeneratedTreatment(known: seq<Info>, i: nat)
    requires i < |known|
    ensures TreatmentOf(FullMetrics(known, Some(GeneratedRegistry(known)))[i])
            in {ReadLive, StoredOnce, Scheduled(10 * SECOND), Scheduled(30 * SECOND), Scheduled(60 * SECOND)}
  {
    MergedIsClassified(known, i);
    var j :| 0 <= j < |known| && known[j].name == known[i].name
             && FullMetrics(known, Some(GeneratedRegistry(known)))[i].recommended
                == Some(ClassifyRecommended(known[j].name, known[j].category));
    var rec := ClassifyRecommended(known[j].name, known[j].category);
    ClassificationIsConfigured(known[j].name, known[j].category);
    if NeedsTtl(rec.pattern) { WholeSeconds(rec.ttl.value); }
  }

  lemma WholeSeconds(d: Duration)
    requires d.seconds in {10, 30, 60} && d.nanos == 0
    ensures Nanos(d) == d.seconds * SECOND
  {
  }

  lemma GeneratedTtlIsLong(known: seq<Info>, ttl: int)
    ensures HasTtl(FullMetrics(known, Some(GeneratedRegistry(known))), ttl) ==> ttl > HUNDRED_MS
  {
    var metrics := FullMetrics(known, Some(GeneratedRegistry(known)));
    if HasTtl(metrics, ttl) {
      var i :| 0 <= i < |metrics| && TtlOf(metrics[i]) == Some(ttl);
      MergedIsClassified(known, i);
      var j :| 0 <= j < |known| && known[j].name == known[i].name
               && metrics[i].recommended == Some(ClassifyRecommended(known[j].name, known[j].category));
      ClassificationIsConfigured(known[j].name, known[j].category);
      WholeSeconds(metrics[i].recommended.value.ttl.value);
    }
  }

  /** The fastest interval that a generated server advertises is exactly 100ms. */
  lemma GeneratedIntervalIs100ms(known: seq<Info>, min: int)
    ensures FastestInterval(FullMetrics(known, Some(GeneratedRegistry(known))), min) <==> min == 100_000_000
  {
    forall ttl { GeneratedTtlIsLong(known, ttl); }
  }

  /** In a merged registry no name is both stored once and scheduled, duplicates in Known or not. */
  lemma FrozenNamesAreNotScheduled(known: seq<Info>, kernelRegistry: Option<Registry>, i: nat)
    requires i < |known| && TreatmentOf(FullMetrics(known, kernelRegistry)[i]).StoredOnce?
    ensures StoredName(FullMetrics(known, kernelRegistry), known[i].name)
    ensures !ScheduledName(FullMetrics(known, kernelRegistry), known[i].name)
  {
    var metrics := FullMetrics(known, kernelRegistry);
    assert metrics[i].name == known[i].name;
    assert Recommends(metrics[i], Static);
    forall j | 0 <= j < |metrics| && metrics[j].name == known[i].name ensures !Repeats(metrics[j]) {
      MergedAccessIsByName(known[i], known[j], KernelOf(kernelRegistry));
    }
  }

  // ---------------------------------------------------------------- metrics without a registry entry

  /** What the kernel registry does not hold is read live and sets no subscription interval. */
  lemma UnregisteredIsLive(known: seq<Info>, kernelRegistry: Option<Registry>, i: nat)
    requires i < |known|
    requires kernelRegistry.None? || known[i].name !in KernelNames(kernelRegistry.value.metrics)
    ensures TreatmentOf(FullMetrics(known, kernelRegistry)[i]) == ReadLive
    ensures TtlOf(FullMetrics(known, kernelRegistry)[i]) == None
  {
    MissingIsDynamic(known[i], kernelRegistry);
  }

  /** Without any registry nothing is stored: every answer of every run is a live read of its own instant. */
  lemma NoRegistryReadsLive(known: seq<Info>, start: Pass, ticks: seq<Pass>, k: nat, live: Live, name: string, u: int)
    requires k <= |ticks|
    ensures StoredOrLive(live, After(Run(FullMetrics(known, None), start, ticks), k), name, u) == live(name, u)
    ensures forall min :: FastestInterval(FullMetrics(known, None), min) <==> min == 100_000_000
  {
    var metrics := FullMetrics(known, None);
    forall i | 0 <= i < |metrics|
      ensures !Recommends(metrics[i], Static) && !Repeats(metrics[i]) && TtlOf(metrics[i]) == None
    {
      UnregisteredIsLive(known, None, i);
    }
    assert !StoredName(metrics, name);
    StoreShape(Run(metrics, start, ticks), k, name);
  }

  // ---------------------------------------------------------------- freshness, end to end

  lemma PeriodsOf(km: KernelMetric, ttl: int)
    requires km.recommended.Some?
    requires var rec := km.recommended.value;
             NeedsTtl(rec.pattern) ==>
               rec.ttl.Some? && rec.ttl.value.seconds in {10, 30, 60} && rec.ttl.value.nanos == 0
    ensures RepeatsEvery(km, ttl) ==> ttl == 10 * SECOND || ttl == 30 * SECOND || ttl == 60 * SECOND
  {
    if RepeatsEvery(km, ttl) { WholeSeconds(km.recommended.value.ttl.value); }
  }

  lemma GeneratedPeriods(known: seq<Info>, i: nat, ttl: int)
    requires i < |known|
    ensures RepeatsEvery(FullMetrics(known, Some(GeneratedRegistry(known)))[i], ttl) ==>
              ttl == 10 * SECOND || ttl == 30 * SECOND || ttl == 60 * SECOND
  {
    var km := FullMetrics(known, Some(GeneratedRegistry(known)))[i];
    MergedIsClassified(known, i);
    var j :| 0 <= j < |known| && known[j].name == known[i].name
             && km.recommended == Some(ClassifyRecommended(known[j].name, known[j].category));
    ClassificationIsConfigured(known[j].name, known[j].category);
    PeriodsOf(km, ttl);
  }

  lemma GeneratedTtls(known: seq<Info>, now: int, at: Instants, entry: PolledMetric)
    ensures entry in Built(FullMetrics(known, Some(GeneratedRegistry(known))), now, at).schedule ==>
              entry.ttlNanos == 10 * SECOND || entry.ttlNanos == 30 * SECOND || entry.ttlNanos == 60 * SECOND
  {
    var metrics := FullMetrics(known, Some(GeneratedRegistry(known)));
    var schedule := Built(metrics, now, at).schedule;
    if entry in schedule {
      var i :| 0 <= i < |schedule| && schedule[i] == entry;
      ScheduleComesFromRegistry(metrics, now, at, i);
      var j :| 0 <= j < |metrics| && metrics[j].name == entry.name && RepeatsEvery(metrics[j], entry.ttlNanos);
      GeneratedPeriods(known, j, entry.ttlNanos);
    }
  }

  /** A run of the poller that New builds from the generated registry. */
  function ServerRun(known: seq<Info>, start: Pass, ticks: seq<Pass>): Run {
    Run(FullMetrics(known, Some(GeneratedRegistry(known))), start, ticks)
  }

  /** A clock that stays a minute away from the end of int64 leaves no schedule sum to overflow. */
  lemma GeneratedScheduleFits(known: seq<Info>, start: Pass, ticks: seq<Pass>)
    requires forall k :: 0 <= k < |ticks| ==> 0 <= ticks[k].now <= INT64_MAX - 60 * SECOND
    ensures var run := ServerRun(known, start, ticks);
            && NoOverflowInRun(run)
            && forall i :: 0 <= i < |After(run, 0).schedule| ==> 0 < After(run, 0).schedule[i].ttlNanos <= 60 * SECOND
  {
    var run := ServerRun(known, start, ticks);
    forall i | 0 <= i < |After(run, 0).schedule|
      ensures 0 < After(run, 0).schedule[i].ttlNanos <= 60 * SECOND
      ensures NoOverflow(After(run, 0).schedule[i], run.ticks)
    {
      GeneratedTtls(known, start.now, start.at, After(run, 0).schedule[i]);
    }
  }

  /**
   * For every Known list, every run of its poller and every instant after the first tick, with ticks at most
   * `gap` apart, the answer for any name is a live read: taken now if the name is not stored, at startup if it
   * is only stored, and otherwise less than 60 seconds plus `gap` ago.
   */
  lemma AnswersOfGeneratedServer(known: seq<Info>, start: Pass, ticks: seq<Pass>, live: Live,
                                 name: string, u: int, gap: int)
    requires forall k :: 0 <= k < |ticks| ==> 0 <= ticks[k].now <= INT64_MAX - 60 * SECOND
    requires ticks != [] && ValidRun(Run([], start, ticks))
    requires ticks[|ticks| - 1].published <= u <= ticks[|ticks| - 1].now + gap
    ensures var run := ServerRun(known, start, ticks);
            var r := ServedInstant(Final(run), name, u);
            && StoredOrLive(live, Final(run), name, u) == live(name, r)
            && (!StoredName(run.metrics, name) ==> r == u)
            && (StoredName(run.metrics, name) && !ScheduledName(run.metrics, name) ==>
                  start.now <= r <= start.published)
            && (ScheduledName(run.metrics, name) ==> r <= u < r + 60 * SECOND + gap)
  {
    var run := ServerRun(known, start, ticks);
    assert ValidRun(run);
    if ScheduledName(run.metrics, name) {
      BuiltShape(run.metrics, start.now, start.at);
      assert InSchedule(After(run, 0).schedule, name);
      var i :| 0 <= i < |After(run, 0).schedule| && After(run, 0).schedule[i].name == name;
      GeneratedScheduleFits(known, start, ticks);
      BoundedStaleness(run, live, i, u, gap);
    } else {
      UnscheduledReads(run, live, name, u);
      StoreShape(run, |ticks|, name);
      if StoredName(run.metrics, name) {
        StaticIsFrozen(run, |ticks|, name);
      }
    }
  }

  lemma OwnTtlIsClassified(known: seq<Info>, i: nat)
    requires Distinct(Names(known)) && i < |known|
    ensures var metrics := FullMetrics(known, Some(GeneratedRegistry(known)));
            var rec := ClassifyRecommended(known[i].name, known[i].category);
            && KernelNames(metrics) == Names(known)
            && (rec.ttl.Some? ==> RepeatsEvery(metrics[i], Nanos(rec.ttl.value)))
  {
    MergedIsOwnClassification(known, i);
    ClassificationIsConfigured(known[i].name, known[i].category);
  }

  /** With distinct names a metric is never staler than its own recommended TTL plus `gap`. */
  lemma AnswersWithinOwnTtl(known: seq<Info>, start: Pass, ticks: seq<Pass>, live: Live, i: nat, u: int, gap: int)
    requires forall k :: 0 <= k < |ticks| ==> 0 <= ticks[k].now <= INT64_MAX - 60 * SECOND
    requires ticks != [] && ValidRun(Run([], start, ticks))
    requires ticks[|ticks| - 1].published <= u <= ticks[|ticks| - 1].now + gap
    requires Distinct(Names(known)) && i < |known|
    ensures var run, rec := ServerRun(known, start, ticks), ClassifyRecommended(known[i].name, known[i].category);
            var r := ServedInstant(Final(run), known[i].name, u);
            rec.ttl.Some? ==>
              && StoredOrLive(live, Final(run), known[i].name, u) == live(known[i].name, r)
              && r <= u < r + Nanos(rec.ttl.value) + gap
  {
    var run, rec := ServerRun(known, start, ticks), ClassifyRecommended(known[i].name, known[i].category);
    if rec.ttl.Some? {
      var ttl := Nanos(rec.ttl.value);
      assert ValidRun(run);
      OwnTtlIsClassified(known, i);
      OwnTtlIsScheduled(run.metrics, start.now, start.at, i, ttl);
      var e :| 0 <= e < |After(run, 0).schedule| && After(run, 0).schedule[e].name == known[i].name
               && After(run, 0).schedule[e].ttlNanos == ttl;
      GeneratedScheduleFits(known, start, ticks);
      BoundedStaleness(run, live, e, u, gap);
    }
  }

  /** The period of a generated metric in nanoseconds, by class; None for what is stored once or read live. */
  function PeriodOf(info: Info): Option<int> {
    var Info(name, _, _, cat) := info;
    if NeverChanges(name, cat) then None
    else if name in WRITABLE_TUNABLES then Some(60_000_000_000)
    else if ChangesFast(name, cat) then Some(10_000_000_000)
    else if ChangesModerately(name, cat) then Some(30_000_000_000)
    else if ChangesSlowly(cat) then Some(60_000_000_000)
    else None
  }

  lemma PeriodIsTtl(info: Info)
    ensures var rec := ClassifyRecommended(info.name, info.category);
            PeriodOf(info) == if rec.ttl.Some? then Some(Nanos(rec.ttl.value)) else None
  {
    RecommendedClasses(info.name, info.category);
    assert Nanos(Duration(10, 0)) == 10_000_000_000 && Nanos(Duration(30, 0)) == 30_000_000_000
           && Nanos(Duration(60, 0)) == 60_000_000_000;
  }

  /** With distinct names an answer for a metric that has a period is younger than that period plus `gap`. */
  lemma FreshnessByClass(known: seq<Info>, start: Pass, ticks: seq<Pass>, live: Live, i: nat, u: int, gap: int)
    requires forall k :: 0 <= k < |ticks| ==> 0 <= ticks[k].now <= INT64_MAX - 60 * SECOND
    requires ticks != [] && ValidRun(Run([], start, ticks))
    requires ticks[|ticks| - 1].published <= u <= ticks[|ticks| - 1].now + gap
    requires Distinct(Names(known)) && i < |known|
    ensures var run, period := ServerRun(known, start, ticks), PeriodOf(known[i]);
            var r := ServedInstant(Final(run), known[i].name, u);
            period.Some? ==>
              && StoredOrLive(live, Final(run), known[i].name, u) == live(known[i].name, r)
              && r <= u < r + period.value + gap
  {
    PeriodIsTtl(known[i]);
    AnswersWithinOwnTtl(known, start, ticks, live, i, u, gap);
  }

  /** A merged metric repeats with its period, and not at all without one. */
  lemma PeriodIsMerged(known: seq<Info>, i: nat)
    requires Distinct(Names(known)) && i < |known|
    ensures var metrics := FullMetrics(known, Some(GeneratedRegistry(known)));
            && KernelNames(metrics) == Names(known)
            && match PeriodOf(known[i])
               case Some(period) => RepeatsEvery(metrics[i], period) && 0 < period <= 60_000_000_000
               case None => !Repeats(metrics[i])
  {
    MergedIsOwnClassification(known, i);
    ClassificationIsConfigured(known[i].name, known[i].category);
    PeriodIsTtl(known[i]);
  }

  /** With distinct names the ticks read it at most floor(w / period) + 1 times in a window of length w. */
  lemma PollRateByClass(known: seq<Info>, start: Pass, ticks: seq<Pass>, i: nat, lo: int, w: nat)
    requires forall k :: 0 <= k < |ticks| ==> 0 <= ticks[k].now <= INT64_MAX - 60 * SECOND
    requires Distinct(Names(known)) && i < |known|
    ensures var count := ReadsWithin(ServerRun(known, start, ticks), |ticks|, known[i].name, lo, lo + w);
            match PeriodOf(known[i])
            case Some(period) => period > 0 && count <= w / period + 1
            case None => count == 0
  {
    PeriodIsMerged(known, i);
    ReadsOfMetric(ServerRun(known, start, ticks), i, PeriodOf(known[i]), lo, w);
  }

  /**
   * The same in every interleaving of ticks, stop and a GetMetrics call: the answer given now for metric i is a
   * live read younger than its own TTL plus `gap`.
   */
  lemma ServesWithinOwnTtl(known: seq<Info>, s: State, live: Live, i: nat, now: int, gap: int)
    requires ClockInv(s) && Enabled(s, Serve(now))
    requires i < |known| && known[i].name == s.names[|s.served|] && Distinct(Names(known))
    requires s.run.metrics == FullMetrics(known, Some(GeneratedRegistry(known))) && s.run.ticks != []
    requires forall k :: 0 <= k < |s.run.ticks| ==> 0 <= s.run.ticks[k].now <= INT64_MAX - 60 * SECOND
    requires now <= LastPass(s.run).now + gap
    ensures var rec := ClassifyRecommended(known[i].name, known[i].category);
            rec.ttl.Some? ==>
              var r := ServedInstant(Final(s.run), known[i].name, now);
              && Apply(s, Serve(now), live).served
                 == s.served + [Served(known[i].name, |s.run.ticks|, now, live(known[i].name, r))]
              && r <= now < r + Nanos(rec.ttl.value) + gap
  {
    assert s.run == ServerRun(known, s.run.start, s.run.ticks);
    AnswersWithinOwnTtl(known, s.run.start, s.run.ticks, live, i, now, gap);
  }

  // ---------------------------------------------------------------- from kernel bytes to answers

  /** What reading a MIB answers at an instant. */
  type KernelRead = (MibCache.Mib, int) -> Result<seq<byte>, string>

  /** The bytes of a sysctl at an instant, through name resolution. */
  function RawAt(resolver: MibCache.Resolver, kernel: KernelRead, at: int): RawRead {
    (name: string) => MibCache.UncachedRead(name, resolver, (mib: MibCache.Mib) => kernel(mib, at))
  }

  /** The live reads of a server: registry lookup, name resolution, kernel read, typing. */
  function LiveOf(known: seq<Info>, resolver: MibCache.Resolver, kernel: KernelRead,
                  computed: (string, int) -> Result<Value, ReadError>): Live
  {
    (name: string, at: int) =>
      LiveMetric(ByName(known, name), name, RawAt(resolver, kernel, at), (n: string) => computed(n, at))
  }

  /**
   * Two answers for a metric that a sysctl backs, known or not, at any two points of any two runs, are equal
   * exactly when the two readings of its sysctl looked alike when they were taken, failures and wrong lengths
   * included: the cache adds and hides nothing.
   */
  lemma AnswersDifferWithTheirBytes(known: seq<Info>, resolver: MibCache.Resolver, kernel: KernelRead,
                                    computed: (string, int) -> Result<Value, ReadError>,
                                    name: string, a: PollerState, u: int, b: PollerState, v: int)
    requires var t := TypeOf(ByName(known, name)); t != TypeComputed && !t.TypeOther?
    ensures var t, live := TypeOf(ByName(known, name)), LiveOf(known, resolver, kernel, computed);
            var before := RawAt(resolver, kernel, ServedInstant(a, name, u))(Source(t, name));
            var after := RawAt(resolver, kernel, ServedInstant(b, name, v))(Source(t, name));
            StoredOrLive(live, a, name, u) == StoredOrLive(live, b, name, v) <==> LooksAlike(t, before, after)
  {
    var r, s := ServedInstant(a, name, u), ServedInstant(b, name, v);
    OutcomeChange(ByName(known, name), name, RawAt(resolver, kernel, r), RawAt(resolver, kernel, s),
                  (n: string) => computed(n, r), (n: string) => computed(n, s));
  }

  /** A live read reaches the kernel through name resolution, at the instant asked for. */
  lemma ReadsReachTheKernel(resolver: MibCache.Resolver, kernel: KernelRead, name: string, at: int)
    ensures RawAt(resolver, kernel, at)(name) ==
            match resolver(name)
            case Err(message) => Err(message)
            case Ok(mib) => kernel(mib, at)
  {
  }

  /** A server-side aggregate is evaluated at the instant of the answer. */
  lemma AggregatesAreLive(known: seq<Info>, resolver: MibCache.Resolver, kernel: KernelRead,
                          computed: (string, int) -> Result<Value, ReadError>, name: string, at: int)
    ensures var info, m := ByName(known, name), LiveOf(known, resolver, kernel, computed)(name, at);
            && m.name == name
            && m.category == (if info.Some? then Some(info.value.category) else None)
            && (info.Some? && info.value.valueType == TypeComputed ==> m.outcome == computed(name, at))
  {
  }

  /** From kernel bytes to the answer, end to end: a timeval read at the served instant is what a client gets. */
  lemma TimevalEndToEnd(known: seq<Info>, resolver: MibCache.Resolver, kernel: KernelRead,
                        computed: (string, int) -> Result<Value, ReadError>,
                        name: string, mib: MibCache.Mib, st: PollerState, u: int, sec: nat, usec: nat)
    requires sec < 0x1_0000_0000_0000_0000 && usec < 0x1_0000_0000_0000_0000
    requires ByName(known, name).Some? && ByName(known, name).value.valueType == TypeTimeval
    requires resolver(name) == Ok(mib)
    requires kernel(mib, ServedInstant(st, name, u)) == Ok(Encode(sec, 8) + Encode(usec, 8))
    ensures StoredOrLive(LiveOf(known, resolver, kernel, computed), st, name, u).outcome == Ok(TimevalValue(sec, usec))
  {
    var r := ServedInstant(st, name, u);
    TimevalAnswers(ByName(known, name).value, name, RawAt(resolver, kernel, r), (n: string) => computed(n, r),
                   sec, usec);
  }

  // ---------------------------------------------------------------- the constructor of the server

  /** One of the first `n` Known entries has this name and is no aggregate. */
  ghost predicate Warmed(known: seq<Info>, n: nat, name: string)
    requires n <= |known|
  {
    exists i :: 0 <= i < n && known[i].name == name && known[i].valueType != TypeComputed
  }

  /** New: merge, warm the MIB cache, and build a poller unless polling is disabled, reading through both. */
  method New(known: seq<Info>, kernelRegistry: Option<Registry>, pollInterval: int,
             kernel: KernelRead, computed: (string, int) -> Result<Value, ReadError>,
             now: int, at: Instants, cache: MibCache.Cache)
    returns (srv: Server, full: Registry)
    requires cache.Valid()
    modifies cache
    ensures cache.Valid()
    ensures forall name :: name in cache.cache <==>
                             name in old(cache.cache) || (Warmed(known, |known|, name) && cache.resolver(name).Ok?)
    ensures full.metrics == FullMetrics(known, kernelRegistry)
    ensures full.osRegistry == (if kernelRegistry.Some? then kernelRegistry.value.osRegistry else "")
    ensures full.osVersion == (if kernelRegistry.Some? then kernelRegistry.value.osVersion else "")
    ensures srv.live == LiveOf(known, cache.resolver, kernel, computed)
    ensures srv.poller == null <==> pollInterval <= 0
    ensures srv.poller != null ==>
              && srv.poller.Valid() && srv.poller.live == srv.live
              && srv.poller.State() == Built(full.metrics, now, at)
  {
    full := BuildFullRegistry(known, kernelRegistry);
    var names: seq<string> := [];
    for i := 0 to |known|
      invariant forall name :: name in names <==> Warmed(known, i, name)
    {
      if known[i].valueType != TypeComputed {
        names := names + [known[i].name];
      }
    }
    var _ := cache.Warm(names);
    var live := LiveOf(known, cache.resolver, kernel, computed);
    var poller: TtlPoller? := null;
    if pollInterval > 0 {
      poller := new TtlPoller(live, Some(full), now, at);
    }
    srv := new Server(live, poller);
  }
}
