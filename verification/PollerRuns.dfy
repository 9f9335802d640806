/** Whole runs of the poller: freshness of what is stored, poll rate, and the shape of the store. */
module PollerRuns {
  import opened Base
  import opened KernelRegistry
  import opened LiveRead
  import opened Poller

  /** One pass: its time stamp, its kernel read instants, and when its results are in the store. */
  datatype Pass = Pass(now: int, at: Instants, published: int)

  datatype Run = Run(metrics: seq<KernelMetric>, start: Pass, ticks: seq<Pass>)

  /** The poller after its construction and the first `k` ticks. */
  function After(run: Run, k: nat): PollerState
    requires k <= |run.ticks|
  {
    if k == 0 then Built(run.metrics, run.start.now, run.start.at)
    else Ticked(After(run, k - 1), run.ticks[k - 1].now, run.ticks[k - 1].at)
  }

  function Final(run: Run): PollerState {
    After(run, |run.ticks|)
  }

  ghost predicate ValidPass(p: Pass) {
    forall i: nat :: p.now <= p.at(i) <= p.published
  }

  /** The clock never runs backwards and passes do not overlap. */
  ghost predicate ValidRun(run: Run) {
    && ValidPass(run.start)
    && (forall k :: 0 <= k < |run.ticks| ==> ValidPass(run.ticks[k]))
    && (|run.ticks| > 0 ==> run.start.published <= run.ticks[0].now)
    && (forall k :: 0 < k < |run.ticks| ==> run.ticks[k - 1].published <= run.ticks[k].now)
  }

  function LastPass(run: Run): Pass {
    if run.ticks == [] then run.start else run.ticks[|run.ticks| - 1]
  }

  function Prefix(run: Run, k: nat): Run
    requires k <= |run.ticks|
  {
    run.(ticks := run.ticks[..k])
  }

  lemma {:induction false} AfterOfPrefix(run: Run, n: nat, k: nat)
    requires k <= n <= |run.ticks|
    ensures After(Prefix(run, n), k) == After(run, k)
  {
    if k > 0 { AfterOfPrefix(run, n, k - 1); }
  }

  /** The poller object itself, constructed and ticked through a whole run. */
  method Drive(run: Run, live: Live) returns (p: TtlPoller)
    ensures fresh(p) && fresh(p.store) && p.live == live
    ensures p.Valid() && p.State() == Final(run)
  {
    p := new TtlPoller(live, Some(Registry("", "", run.metrics)), run.start.now, run.start.at);
    for k := 0 to |run.ticks|
      invariant fresh(p) && fresh(p.store) && p.live == live
      invariant p.Valid() && p.State() == After(run, k)
    {
      p.Tick(run.ticks[k].now, run.ticks[k].at);
    }
  }

  // ---------------------------------------------------------------- one schedule entry

  function EntryAfter(entry: PolledMetric, ticks: seq<Pass>): PolledMetric {
    if ticks == [] then entry
    else Advance(EntryAfter(entry, ticks[..|ticks| - 1]), ticks[|ticks| - 1].now)
  }

  /** The time stamps of the ticks that gather `entry`, in order. */
  function Stamps(entry: PolledMetric, ticks: seq<Pass>): seq<int> {
    if ticks == [] then []
    else
      var init, t := ticks[..|ticks| - 1], ticks[|ticks| - 1].now;
      Stamps(entry, init) + if Due(EntryAfter(entry, init), t) then [t] else []
  }

  function Last(s: seq<int>): int
    requires s != []
  {
    s[|s| - 1]
  }

  ghost predicate NoOverflow(entry: PolledMetric, ticks: seq<Pass>) {
    forall k :: 0 <= k < |ticks| ==> FitsInt64(ticks[k].now + entry.ttlNanos)
  }

  /** Entries of the schedule evolve independently of each other and keep their name and TTL. */
  lemma {:induction false} ScheduleIsPerEntry(run: Run, k: nat)
    requires k <= |run.ticks|
    ensures |After(run, k).schedule| == |After(run, 0).schedule|
    ensures forall i :: 0 <= i < |After(run, 0).schedule| ==>
                          && After(run, k).schedule[i] == EntryAfter(After(run, 0).schedule[i], run.ticks[..k])
                          && After(run, k).schedule[i].name == After(run, 0).schedule[i].name
  {
    if k > 0 {
      ScheduleIsPerEntry(run, k - 1);
      assert run.ticks[..k][..k - 1] == run.ticks[..k - 1];
    }
  }

  /** The next gather is always due one TTL after the last one. */
  lemma {:induction false} NextIsLastPlusTtl(entry: PolledMetric, ticks: seq<Pass>)
    requires NoOverflow(entry, ticks)
    ensures EntryAfter(entry, ticks).ttlNanos == entry.ttlNanos
    ensures EntryAfter(entry, ticks).nextGatherNs ==
            if Stamps(entry, ticks) == [] then entry.nextGatherNs
            else Last(Stamps(entry, ticks)) + entry.ttlNanos
  {
    if ticks != [] {
      NextIsLastPlusTtl(entry, ticks[..|ticks| - 1]);
    }
  }

  /** After a tick at t, an entry was last gathered at a stamp s with s <= t < s + ttl. */
  lemma {:induction false} FreshAfterTick(entry: PolledMetric, ticks: seq<Pass>)
    requires ticks != [] && NoOverflow(entry, ticks)
    requires entry.nextGatherNs <= ticks[0].now
    requires forall k :: 0 < k < |ticks| ==> ticks[k - 1].now <= ticks[k].now
    ensures Stamps(entry, ticks) != []
    ensures Last(Stamps(entry, ticks)) <= ticks[|ticks| - 1].now < Last(Stamps(entry, ticks)) + Max(entry.ttlNanos, 1)
  {
    var init := ticks[..|ticks| - 1];
    if init == [] {
      assert EntryAfter(entry, init) == entry;
    } else {
      FreshAfterTick(entry, init);
      NextIsLastPlusTtl(entry, init);
    }
  }

  // ---------------------------------------------------------------- poll rate

  ghost predicate Spaced(stamps: seq<int>, gap: int) {
    forall a, b :: 0 <= a < b < |stamps| ==> stamps[a] + gap <= stamps[b]
  }

  /** Gathers of one entry are at least a TTL apart, whatever the tick times are. */
  lemma {:induction false} GathersAreSpaced(entry: PolledMetric, ticks: seq<Pass>)
    requires NoOverflow(entry, ticks) && entry.ttlNanos > 0
    ensures Spaced(Stamps(entry, ticks), entry.ttlNanos)
  {
    if ticks != [] {
      var init, t := ticks[..|ticks| - 1], ticks[|ticks| - 1].now;
      GathersAreSpaced(entry, init);
      NextIsLastPlusTtl(entry, init);
      var s := Stamps(entry, init);
      if Due(EntryAfter(entry, init), t) && s != [] {
        assert forall a :: 0 <= a < |s| ==> s[a] <= Last(s);
        assert Stamps(entry, ticks) == s + [t];
      }
    }
  }

  /** Each stamp follows the one before it by at least `ttl` and by less than ttl + gap. */
  ghost predicate Paced(stamps: seq<int>, ttl: int, gap: int) {
    forall a :: 0 < a < |stamps| ==> stamps[a - 1] + ttl <= stamps[a] < stamps[a - 1] + ttl + gap
  }

  lemma PacedSnoc(stamps: seq<int>, t: int, ttl: int, gap: int)
    requires Paced(stamps, ttl, gap)
    requires stamps != [] ==> Last(stamps) + ttl <= t < Last(stamps) + ttl + gap
    ensures Paced(stamps + [t], ttl, gap)
  {
  }

  /** With ticks at most `gap` apart, consecutive gathers are also less than ttl + gap apart. */
  lemma {:induction false} GathersAreFrequent(entry: PolledMetric, ticks: seq<Pass>, gap: int)
    requires NoOverflow(entry, ticks) && entry.ttlNanos > 0
    requires ticks != [] ==> entry.nextGatherNs <= ticks[0].now
    requires forall k :: 0 < k < |ticks| ==> ticks[k - 1].now <= ticks[k].now <= ticks[k - 1].now + gap
    ensures Paced(Stamps(entry, ticks), entry.ttlNanos, gap)
  {
    if ticks != [] {
      var init := ticks[..|ticks| - 1];
      var s, t := Stamps(entry, init), ticks[|ticks| - 1].now;
      GathersAreFrequent(entry, init, gap);
      if Due(EntryAfter(entry, init), t) {
        if init != [] {
          FreshAfterTick(entry, init);
          NextIsLastPlusTtl(entry, init);
        }
        PacedSnoc(s, t, entry.ttlNanos, gap);
      } else {
        assert Stamps(entry, ticks) == s;
      }
    }
  }

  /** How many of the stamps lie in the window from `lo` to `hi`. */
  function CountWithin(stamps: seq<int>, lo: int, hi: int): nat {
    if stamps == [] then 0
    else CountWithin(stamps[..|stamps| - 1], lo, hi) + if lo <= Last(stamps) <= hi then 1 else 0
  }

  /** The count is the number of positions whose stamp lies in the window. */
  lemma {:induction false} CountWithinCounts(stamps: seq<int>, lo: int, hi: int)
    ensures CountWithin(stamps, lo, hi) == CountIf(stamps, (t: int) => lo <= t <= hi)
  {
    CountIfLast(stamps, (t: int) => lo <= t <= hi);
    if stamps != [] { CountWithinCounts(stamps[..|stamps| - 1], lo, hi); }
  }

  lemma {:induction false} SpacedCount(stamps: seq<int>, gap: int, lo: int, hi: int)
    requires Spaced(stamps, gap) && gap > 0
    ensures var c := CountWithin(stamps, lo, hi);
            c > 0 ==> (c - 1) * gap <= hi - lo && (c - 1) * gap <= Last(stamps) - lo
  {
    if stamps != [] {
      var init, last := stamps[..|stamps| - 1], Last(stamps);
      SpacedCount(init, gap, lo, hi);
      var c := CountWithin(init, lo, hi);
      if c > 0 {
        assert Last(init) + gap <= last;
        assert c * gap == (c - 1) * gap + gap;
      }
    }
  }

  lemma MulMonotone(a: int, b: int, gap: int)
    requires gap > 0
    ensures a >= b ==> a * gap >= b * gap
  {
  }

  lemma CountFromProduct(c: int, gap: int, width: int)
    requires gap > 0 && c > 0 && width >= 0 && (c - 1) * gap <= width
    ensures c <= width / gap + 1
  {
    var q := width / gap;
    assert width < (q + 1) * gap;
    MulMonotone(c - 1, q + 1, gap);
  }

  /** Any window of length w holds at most floor(w / ttl) + 1 gathers of one entry. */
  lemma PollRateBound(entry: PolledMetric, ticks: seq<Pass>, lo: int, w: nat)
    requires NoOverflow(entry, ticks) && entry.ttlNanos > 0
    ensures CountWithin(Stamps(entry, ticks), lo, lo + w) <= w / entry.ttlNanos + 1
  {
    var stamps, ttl := Stamps(entry, ticks), entry.ttlNanos;
    var c := CountWithin(stamps, lo, lo + w);
    assert c > 0 ==> (c - 1) * ttl <= w by {
      GathersAreSpaced(entry, ticks);
      SpacedCount(stamps, ttl, lo, lo + w);
    }
    if c > 0 { CountFromProduct(c, ttl, w); }
  }

  /** Each stamp comes after the one before it, by at most `reach`. */
  ghost predicate Dense(stamps: seq<int>, reach: int) {
    forall a :: 0 < a < |stamps| ==> stamps[a - 1] < stamps[a] <= stamps[a - 1] + reach
  }

  lemma {:induction false} CountGrowsWithWindow(stamps: seq<int>, lo: int, mid: int, hi: int)
    requires mid <= hi
    ensures CountWithin(stamps, lo, mid) <= CountWithin(stamps, lo, hi)
  {
    if stamps != [] { CountGrowsWithWindow(stamps[..|stamps| - 1], lo, mid, hi); }
  }

  /** A window that begins after the first stamp and ends within reach of the last one is never left empty for long. */
  lemma {:induction false} DenseCount(stamps: seq<int>, reach: int, lo: int, hi: int)
    requires stamps != [] && Dense(stamps, reach) && reach > 0
    requires stamps[0] <= lo && hi < Last(stamps) + reach
    ensures hi - lo + 1 < (CountWithin(stamps, lo, hi) + 1) * reach
  {
    var init, last, c := stamps[..|stamps| - 1], Last(stamps), CountWithin(stamps, lo, hi);
    if last < lo || init == [] {
      MulMonotone(c + 1, if lo == last <= hi then 2 else 1, reach);
    } else if hi < last {
      DenseCount(init, reach, lo, hi);
    } else {
      DenseCount(init, reach, lo, last - 1);
      CountGrowsWithWindow(init, lo, last - 1, hi);
      OneMoreStamp(c, CountWithin(init, lo, last - 1), reach, last - lo, hi - last + 1);
    }
  }

  lemma OneMoreStamp(c: int, before: int, reach: int, width: int, more: int)
    requires reach > 0 && before < c && more <= reach && width < (before + 1) * reach
    ensures width + more < (c + 1) * reach
  {
    MulMonotone(c, before + 1, reach);
    assert (c + 1) * reach == c * reach + reach;
  }

  lemma CountFromReach(c: int, reach: int, width: int)
    requires reach > 0 && width < (c + 1) * reach
    ensures width / reach <= c
  {
    var q := width / reach;
    assert q * reach <= width;
    if q > c { MulMonotone(q, c + 1, reach); }
  }

  /**
   * The counterpart from below: with ticks at most `gap` apart, ttl + gap - 1 consecutive instants always hold a
   * gather, so a window of w + 1 instants holds at least floor((w + 1) / (ttl + gap - 1)).
   */
  lemma PollRateFloor(entry: PolledMetric, ticks: seq<Pass>, gap: int, lo: int, w: nat)
    requires NoOverflow(entry, ticks) && entry.ttlNanos > 0 && gap > 0
    requires ticks != [] && entry.nextGatherNs <= ticks[0].now <= lo
    requires forall k :: 0 < k < |ticks| ==> ticks[k - 1].now <= ticks[k].now <= ticks[k - 1].now + gap
    requires lo + w < ticks[|ticks| - 1].now + gap
    ensures (w + 1) / (entry.ttlNanos + gap - 1) <= CountWithin(Stamps(entry, ticks), lo, lo + w)
  {
    var s, reach := Stamps(entry, ticks), entry.ttlNanos + gap - 1;
    GathersAreFrequent(entry, ticks, gap);
    FreshAfterTick(entry, ticks);
    FirstTickGathers(entry, ticks);
    DenseCount(s, reach, lo, lo + w);
    CountFromReach(CountWithin(s, lo, lo + w), reach, w + 1);
  }

  lemma {:induction false} FirstTickGathers(entry: PolledMetric, ticks: seq<Pass>)
    requires ticks != [] && entry.nextGatherNs <= ticks[0].now
    ensures Stamps(entry, ticks) != [] && Stamps(entry, ticks)[0] == ticks[0].now
  {
    var init := ticks[..|ticks| - 1];
    if init == [] {
      assert EntryAfter(entry, init) == entry;
    } else {
      FirstTickGathers(entry, init);
    }
  }

  /** Between a gather and the end of its TTL the entry is due again exactly when the int64 sum overflowed. */
  lemma DueEarlyExactlyOnOverflow(entry: PolledMetric, s: int, now: int)
    requires FitsInt64(s) && FitsInt64(now) && 0 < entry.ttlNanos <= INT64_MAX
    requires Due(entry, s) && s <= now < s + entry.ttlNanos
    ensures Due(Advance(entry, s), now) <==> !FitsInt64(s + entry.ttlNanos)
  {
    if !FitsInt64(s + entry.ttlNanos) {
      assert Wrap64(s + entry.ttlNanos) == s + entry.ttlNanos - TWO_64;
    }
  }

  // ---------------------------------------------------------------- shape of the store

  predicate Recommends(km: KernelMetric, p: AccessPattern) {
    km.recommended.Some? && km.recommended.value.pattern == p
  }

  /** POLLED or CONSTRAINED. */
  predicate Repeats(km: KernelMetric) {
    Recommends(km, Polled) || Recommends(km, Constrained)
  }

  /** A STATIC, POLLED or CONSTRAINED entry has this name. */
  ghost predicate StoredName(metrics: seq<KernelMetric>, name: string) {
    exists i :: 0 <= i < |metrics| && metrics[i].name == name && (Recommends(metrics[i], Static) || Repeats(metrics[i]))
  }

  /** A POLLED or CONSTRAINED entry has this name. */
  ghost predicate ScheduledName(metrics: seq<KernelMetric>, name: string) {
    exists i :: 0 <= i < |metrics| && metrics[i].name == name && Repeats(metrics[i])
  }

  ghost predicate InSchedule(schedule: seq<PolledMetric>, name: string) {
    exists i :: 0 <= i < |schedule| && schedule[i].name == name
  }

  lemma SnocCases(metrics: seq<KernelMetric>, name: string)
    requires metrics != []
    ensures var init, km := metrics[..|metrics| - 1], metrics[|metrics| - 1];
            && (StoredName(metrics, name) <==>
                StoredName(init, name) || (km.name == name && (Recommends(km, Static) || Repeats(km))))
            && (ScheduledName(metrics, name) <==>
                ScheduledName(init, name) || (km.name == name && Repeats(km)))
  {
    var init, n := metrics[..|metrics| - 1], |metrics| - 1;
    assert forall i :: 0 <= i < n ==> metrics[i] == init[i];
    if StoredName(init, name) {
      var i :| 0 <= i < n && init[i].name == name && (Recommends(init[i], Static) || Repeats(init[i]));
      assert metrics[i].name == name;
    }
    if ScheduledName(init, name) {
      var i :| 0 <= i < n && init[i].name == name && Repeats(init[i]);
      assert metrics[i].name == name;
    }
  }

  /** Construction stores exactly the STATIC, POLLED and CONSTRAINED names and schedules the last two. */
  lemma {:induction false} BuiltShape(metrics: seq<KernelMetric>, now: int, at: Instants)
    ensures var st := Built(metrics, now, at);
            && (forall name :: name in st.readAt <==> StoredName(metrics, name))
            && (forall name :: InSchedule(st.schedule, name) <==> ScheduledName(metrics, name))
            && (forall i :: 0 <= i < |st.schedule| ==> st.schedule[i].nextGatherNs == now)
  {
    if metrics != [] {
      var init, km := metrics[..|metrics| - 1], metrics[|metrics| - 1];
      var st, st' := Built(init, now, at), Built(metrics, now, at);
      BuiltShape(init, now, at);
      forall name
        ensures name in st'.readAt <==> StoredName(metrics, name)
        ensures InSchedule(st'.schedule, name) <==> ScheduledName(metrics, name)
      {
        SnocCases(metrics, name);
        if TreatmentOf(km).Scheduled? {
          var last := PolledMetric(km.name, TreatmentOf(km).ttlNanos, now);
          InScheduleSnoc(st.schedule, last, name);
        }
      }
    }
  }

  /** A POLLED or CONSTRAINED entry of TTL `ttl`: ten seconds when it names none. */
  predicate RepeatsEvery(km: KernelMetric, ttl: int) {
    Repeats(km) && ttl == if TtlOf(km).Some? then TtlOf(km).value else 10_000_000_000
  }

  /** Every schedule entry carries the TTL of a registry entry of its name. */
  lemma {:induction false} ScheduleComesFromRegistry(metrics: seq<KernelMetric>, now: int, at: Instants, i: nat)
    requires i < |Built(metrics, now, at).schedule|
    ensures var entry := Built(metrics, now, at).schedule[i];
            exists j :: 0 <= j < |metrics| && metrics[j].name == entry.name && RepeatsEvery(metrics[j], entry.ttlNanos)
  {
    var n := |metrics| - 1;
    var init := Built(metrics[..n], now, at);
    if i < |init.schedule| {
      ScheduleComesFromRegistry(metrics[..n], now, at, i);
      var entry := init.schedule[i];
      var j :| 0 <= j < n && metrics[..n][j].name == entry.name && RepeatsEvery(metrics[..n][j], entry.ttlNanos);
      assert metrics[j] == metrics[..n][j];
    } else {
      assert RepeatsEvery(metrics[n], Built(metrics, now, at).schedule[i].ttlNanos);
    }
  }

  /** With distinct names a repeating entry is scheduled with its own TTL. */
  lemma OwnTtlIsScheduled(metrics: seq<KernelMetric>, now: int, at: Instants, i: nat, ttl: int)
    requires Distinct(KernelNames(metrics)) && i < |metrics| && RepeatsEvery(metrics[i], ttl)
    ensures var schedule := Built(metrics, now, at).schedule;
            exists e :: 0 <= e < |schedule| && schedule[e].name == metrics[i].name && schedule[e].ttlNanos == ttl
  {
    var schedule, name := Built(metrics, now, at).schedule, metrics[i].name;
    BuiltShape(metrics, now, at);
    assert ScheduledName(metrics, name);
    assert InSchedule(schedule, name);
    var e :| 0 <= e < |schedule| && schedule[e].name == name;
    ScheduleComesFromRegistry(metrics, now, at, e);
    var j :| 0 <= j < |metrics| && metrics[j].name == name && RepeatsEvery(metrics[j], schedule[e].ttlNanos);
    assert KernelNames(metrics)[j] == KernelNames(metrics)[i];
  }

  /** A registry entry is scheduled once: an entry stands in the schedule as often as the registry asks for it. */
  lemma {:induction false} ScheduleIsExact(metrics: seq<KernelMetric>, now: int, at: Instants, name: string, ttl: int)
    ensures multiset(Built(metrics, now, at).schedule)[PolledMetric(name, ttl, now)] ==
            CountIf(metrics, (km: KernelMetric) => km.name == name && RepeatsEvery(km, ttl))
  {
    CountIfLast(metrics, (km: KernelMetric) => km.name == name && RepeatsEvery(km, ttl));
    if metrics != [] { ScheduleIsExact(metrics[..|metrics| - 1], now, at, name, ttl); }
  }

  /** Nothing else stands in it. */
  lemma {:induction false} ScheduleSize(metrics: seq<KernelMetric>, now: int, at: Instants)
    ensures |Built(metrics, now, at).schedule| == CountIf(metrics, Repeats)
  {
    CountIfLast(metrics, Repeats);
    if metrics != [] { ScheduleSize(metrics[..|metrics| - 1], now, at); }
  }

  /** And it stands in registry order. */
  lemma {:induction false} ScheduleInOrder(metrics: seq<KernelMetric>, now: int, at: Instants, n: nat)
    requires n <= |metrics|
    ensures Built(metrics[..n], now, at).schedule <= Built(metrics, now, at).schedule
  {
    if n == |metrics| {
      assert metrics[..n] == metrics;
    } else {
      var init := metrics[..|metrics| - 1];
      ScheduleInOrder(init, now, at, n);
      assert init[..n] == metrics[..n];
    }
  }

  ghost predicate DistinctNames(schedule: seq<PolledMetric>) {
    forall i, j :: 0 <= i < j < |schedule| ==> schedule[i].name != schedule[j].name
  }

  lemma {:induction false} BuiltNamesAreDistinct(metrics: seq<KernelMetric>, now: int, at: Instants)
    requires Distinct(KernelNames(metrics))
    ensures DistinctNames(Built(metrics, now, at).schedule)
  {
    if metrics != [] {
      var init, km := metrics[..|metrics| - 1], metrics[|metrics| - 1];
      var earlier := Built(init, now, at).schedule;
      assert KernelNames(init) == KernelNames(metrics)[..|init|];
      BuiltNamesAreDistinct(init, now, at);
      BuiltShape(init, now, at);
      forall i | 0 <= i < |earlier| ensures earlier[i].name != km.name {
        assert InSchedule(earlier, earlier[i].name);
        assert ScheduledName(init, earlier[i].name);
        var j :| 0 <= j < |init| && init[j].name == earlier[i].name && Repeats(init[j]);
        assert KernelNames(metrics)[j] != KernelNames(metrics)[|init|];
      }
    }
  }

  /** With distinct registry names no name is scheduled twice, at the start and after every tick. */
  lemma ScheduleNamesStayDistinct(run: Run, k: nat)
    requires k <= |run.ticks| && Distinct(KernelNames(run.metrics))
    ensures DistinctNames(After(run, k).schedule)
    ensures |After(run, k).schedule| == CountIf(run.metrics, Repeats)
  {
    BuiltNamesAreDistinct(run.metrics, run.start.now, run.start.at);
    ScheduleSize(run.metrics, run.start.now, run.start.at);
    ScheduleIsPerEntry(run, k);
  }

  // ---------------------------------------------------------------- kernel reads of a name

  /** How many of the first `n` entries make a tick at `now` read `name`. */
  function DueReads(schedule: seq<PolledMetric>, n: nat, name: string, now: int): nat
    requires n <= |schedule|
  {
    if n == 0 then 0
    else
      DueReads(schedule, n - 1, name, now)
      + if schedule[n - 1].name == name && Due(schedule[n - 1], now) then 1 else 0
  }

  /** How often the first `k` ticks read `name`, over all its entries and the ticks stamped from `lo` to `hi`. */
  function ReadsWithin(run: Run, k: nat, name: string, lo: int, hi: int): nat
    requires k <= |run.ticks|
  {
    if k == 0 then 0
    else
      var schedule, now := After(run, k - 1).schedule, run.ticks[k - 1].now;
      ReadsWithin(run, k - 1, name, lo, hi) + if lo <= now <= hi then DueReads(schedule, |schedule|, name, now) else 0
  }

  lemma {:induction false} DueReadsOfOne(schedule: seq<PolledMetric>, n: nat, i: nat, now: int)
    requires n <= |schedule| && i < |schedule| && DistinctNames(schedule)
    ensures DueReads(schedule, n, schedule[i].name, now) == if i < n && Due(schedule[i], now) then 1 else 0
  {
    if n > 0 { DueReadsOfOne(schedule, n - 1, i, now); }
  }

  lemma {:induction false} DueReadsOfNone(schedule: seq<PolledMetric>, n: nat, name: string, now: int)
    requires n <= |schedule| && !InSchedule(schedule, name)
    ensures DueReads(schedule, n, name, now) == 0
  {
    if n > 0 { DueReadsOfNone(schedule, n - 1, name, now); }
  }

  lemma CountOfSnoc(stamps: seq<int>, t: int, lo: int, hi: int)
    ensures CountWithin(stamps + [t], lo, hi) == CountWithin(stamps, lo, hi) + if lo <= t <= hi then 1 else 0
  {
    assert (stamps + [t])[..|stamps|] == stamps;
  }

  lemma StampsSnoc(entry: PolledMetric, ticks: seq<Pass>, lo: int, hi: int)
    requires ticks != []
    ensures var init, now := ticks[..|ticks| - 1], ticks[|ticks| - 1].now;
            CountWithin(Stamps(entry, ticks), lo, hi) ==
            CountWithin(Stamps(entry, init), lo, hi)
            + if lo <= now <= hi && Due(EntryAfter(entry, init), now) then 1 else 0
  {
    var earlier := Stamps(entry, ticks[..|ticks| - 1]);
    CountOfSnoc(earlier, ticks[|ticks| - 1].now, lo, hi);
    assert earlier + [] == earlier;
  }

  lemma ReadsOfTick(run: Run, k: nat, i: nat)
    requires 0 < k <= |run.ticks| && Distinct(KernelNames(run.metrics)) && i < |After(run, 0).schedule|
    ensures var entry, schedule := After(run, 0).schedule[i], After(run, k - 1).schedule;
            DueReads(schedule, |schedule|, entry.name, run.ticks[k - 1].now) ==
            if Due(EntryAfter(entry, run.ticks[..k - 1]), run.ticks[k - 1].now) then 1 else 0
  {
    var schedule := After(run, k - 1).schedule;
    ScheduleNamesStayDistinct(run, k - 1);
    ScheduleIsPerEntry(run, k - 1);
    DueReadsOfOne(schedule, |schedule|, i, run.ticks[k - 1].now);
  }

  /** With distinct names the reads of a scheduled name are the gathers of its one entry. */
  lemma {:induction false} ReadsAreGathers(run: Run, k: nat, i: nat, lo: int, hi: int)
    requires k <= |run.ticks| && Distinct(KernelNames(run.metrics)) && i < |After(run, 0).schedule|
    ensures var entry := After(run, 0).schedule[i];
            ReadsWithin(run, k, entry.name, lo, hi) == CountWithin(Stamps(entry, run.ticks[..k]), lo, hi)
  {
    if k > 0 {
      ReadsAreGathers(run, k - 1, i, lo, hi);
      ReadsOfTick(run, k, i);
      assert run.ticks[..k][..k - 1] == run.ticks[..k - 1];
      StampsSnoc(After(run, 0).schedule[i], run.ticks[..k], lo, hi);
    }
  }

  /** With distinct names the ticks read a repeating metric at most floor(w / ttl) + 1 times in a window of length w. */
  lemma NamePollRate(run: Run, i: nat, ttl: int, lo: int, w: nat)
    requires Distinct(KernelNames(run.metrics)) && i < |run.metrics|
    requires RepeatsEvery(run.metrics[i], ttl) && ttl > 0
    requires forall k :: 0 <= k < |run.ticks| ==> FitsInt64(run.ticks[k].now + ttl)
    ensures ReadsWithin(run, |run.ticks|, run.metrics[i].name, lo, lo + w) <= w / ttl + 1
  {
    OwnTtlIsScheduled(run.metrics, run.start.now, run.start.at, i, ttl);
    var schedule := After(run, 0).schedule;
    var e :| 0 <= e < |schedule| && schedule[e].name == run.metrics[i].name && schedule[e].ttlNanos == ttl;
    ReadsAreGathers(run, |run.ticks|, e, lo, lo + w);
    assert run.ticks[..|run.ticks|] == run.ticks;
    PollRateBound(schedule[e], run.ticks, lo, w);
  }

  /** What is not scheduled, no tick ever reads. */
  lemma {:induction false} UnscheduledIsNotPolled(run: Run, k: nat, name: string, lo: int, hi: int)
    requires k <= |run.ticks| && !ScheduledName(run.metrics, name)
    ensures ReadsWithin(run, k, name, lo, hi) == 0
  {
    if k > 0 {
      UnscheduledIsNotPolled(run, k - 1, name, lo, hi);
      BuiltShape(run.metrics, run.start.now, run.start.at);
      ScheduleIsPerEntry(run, k - 1);
      var schedule := After(run, k - 1).schedule;
      assert !InSchedule(After(run, 0).schedule, name);
      assert forall i :: 0 <= i < |schedule| ==> schedule[i].name == After(run, 0).schedule[i].name;
      DueReadsOfNone(schedule, |schedule|, name, run.ticks[k - 1].now);
    }
  }

  /** Both cases at once: `period` is the metric's TTL, or None when it does not repeat. */
  lemma ReadsOfMetric(run: Run, i: nat, period: Option<int>, lo: int, w: nat)
    requires Distinct(KernelNames(run.metrics)) && i < |run.metrics|
    requires match period
             case Some(ttl) =>
               && RepeatsEvery(run.metrics[i], ttl) && ttl > 0
               && forall k :: 0 <= k < |run.ticks| ==> FitsInt64(run.ticks[k].now + ttl)
             case None => !Repeats(run.metrics[i])
    ensures var count := ReadsWithin(run, |run.ticks|, run.metrics[i].name, lo, lo + w);
            match period
            case Some(ttl) => count <= w / ttl + 1
            case None => count == 0
  {
    match period {
      case Some(ttl) => NamePollRate(run, i, ttl, lo, w);
      case None =>
        forall j | 0 <= j < |run.metrics| && run.metrics[j].name == run.metrics[i].name ensures j == i {
          assert KernelNames(run.metrics)[j] == KernelNames(run.metrics)[i];
        }
        UnscheduledIsNotPolled(run, |run.ticks|, run.metrics[i].name, lo, lo + w);
    }
  }

  lemma InScheduleSnoc(schedule: seq<PolledMetric>, last: PolledMetric, name: string)
    ensures InSchedule(schedule + [last], name) <==> InSchedule(schedule, name) || last.name == name
  {
    var all := schedule + [last];
    assert all[|schedule|] == last;
    if InSchedule(schedule, name) {
      var i :| 0 <= i < |schedule| && schedule[i].name == name;
      assert all[i].name == name;
    }
  }

  /** A batch holds exactly the names of due entries. */
  lemma {:induction false} GatheredShape(schedule: seq<PolledMetric>, now: int, at: Instants)
    ensures forall name :: name in Gathered(schedule, now, at) <==>
                             exists i :: 0 <= i < |schedule| && schedule[i].name == name && Due(schedule[i], now)
  {
    if schedule != [] {
      var n := |schedule| - 1;
      var init := schedule[..n];
      GatheredShape(init, now, at);
      assert forall i :: 0 <= i < n ==> schedule[i] == init[i];
      forall name ensures name in Gathered(schedule, now, at) <==>
                          exists i :: 0 <= i < |schedule| && schedule[i].name == name && Due(schedule[i], now)
      {
        if name in Gathered(init, now, at) {
          var i :| 0 <= i < n && init[i].name == name && Due(init[i], now);
          assert schedule[i].name == name && Due(schedule[i], now);
        }
        if schedule[n].name == name && Due(schedule[n], now) {
          assert name in Gathered(schedule, now, at);
        }
      }
    }
  }

  lemma {:induction false} GatheredWithin(schedule: seq<PolledMetric>, p: Pass, name: string)
    requires ValidPass(p) && name in Gathered(schedule, p.now, p.at)
    ensures p.now <= Gathered(schedule, p.now, p.at)[name] <= p.published
  {
    var n := |schedule| - 1;
    if schedule[n].name != name || !Due(schedule[n], p.now) {
      GatheredWithin(schedule[..n], p, name);
    }
  }

  /** A tick writes scheduled names only. */
  lemma GatheredIsScheduled(run: Run, k: nat, name: string)
    requires k < |run.ticks|
    ensures name in Gathered(After(run, k).schedule, run.ticks[k].now, run.ticks[k].at) ==>
              ScheduledName(run.metrics, name)
  {
    ScheduleIsPerEntry(run, k);
    BuiltShape(run.metrics, run.start.now, run.start.at);
    var st, tick := After(run, k), run.ticks[k];
    GatheredShape(st.schedule, tick.now, tick.at);
    if name in Gathered(st.schedule, tick.now, tick.at) {
      var i :| 0 <= i < |st.schedule| && st.schedule[i].name == name && Due(st.schedule[i], tick.now);
      assert After(run, 0).schedule[i].name == name;
    }
  }

  /** The set of stored names never changes once construction ends. */
  lemma {:induction false} StoreShape(run: Run, k: nat, name: string)
    requires k <= |run.ticks|
    ensures name in After(run, k).readAt <==> StoredName(run.metrics, name)
  {
    BuiltShape(run.metrics, run.start.now, run.start.at);
    if k > 0 {
      StoreShape(run, k - 1, name);
      GatheredIsScheduled(run, k - 1, name);
      if ScheduledName(run.metrics, name) { ScheduledIsStored(run.metrics, name); }
    }
  }

  lemma ScheduledIsStored(metrics: seq<KernelMetric>, name: string)
    requires ScheduledName(metrics, name)
    ensures StoredName(metrics, name)
  {
    var i :| 0 <= i < |metrics| && metrics[i].name == name && Repeats(metrics[i]);
    assert Recommends(metrics[i], Static) || Repeats(metrics[i]);
  }

  /** A stored name that nothing schedules keeps its startup reading, value or error, for ever. */
  lemma {:induction false} StaticIsFrozen(run: Run, k: nat, name: string)
    requires k <= |run.ticks|
    requires StoredName(run.metrics, name) && !ScheduledName(run.metrics, name)
    ensures name in After(run, k).readAt && name in After(run, 0).readAt
    ensures After(run, k).readAt[name] == After(run, 0).readAt[name]
  {
    StoreShape(run, 0, name);
    if k > 0 {
      StaticIsFrozen(run, k - 1, name);
      GatheredIsScheduled(run, k - 1, name);
    }
  }

  lemma {:induction false} BuiltWithin(metrics: seq<KernelMetric>, p: Pass, name: string)
    requires ValidPass(p) && name in Built(metrics, p.now, p.at).readAt
    ensures p.now <= Built(metrics, p.now, p.at).readAt[name] <= p.published
  {
    var n := |metrics| - 1;
    if metrics[n].name != name || TreatmentOf(metrics[n]).ReadLive? {
      BuiltWithin(metrics[..n], p, name);
    }
  }

  /** A construction at instant 0 followed by one tick whose reads all happen at instant 1. */
  function ThawingRun(metrics: seq<KernelMetric>): Run {
    Run(metrics, Pass(0, (_: nat) => 0, 0), [Pass(1, (_: nat) => 1, 1)])
  }

  /** The converse: a stored name that is also scheduled is overwritten in some run. */
  lemma ScheduledIsNotFrozen(metrics: seq<KernelMetric>, name: string)
    requires ScheduledName(metrics, name)
    ensures var run := ThawingRun(metrics);
            && ValidRun(run)
            && name in After(run, 0).readAt && name in After(run, 1).readAt
            && After(run, 1).readAt[name] != After(run, 0).readAt[name]
  {
    var run := ThawingRun(metrics);
    ScheduledIsStored(metrics, name);
    StoreShape(run, 0, name);
    BuiltShape(metrics, 0, run.start.at);
    BuiltWithin(metrics, run.start, name);
    var st, tick := After(run, 0), run.ticks[0];
    GatheredShape(st.schedule, tick.now, tick.at);
    assert InSchedule(st.schedule, name);
    var i :| 0 <= i < |st.schedule| && st.schedule[i].name == name;
    assert Due(st.schedule[i], tick.now);
    assert name in Gathered(st.schedule, tick.now, tick.at);
    GatheredWithin(st.schedule, tick, name);
    assert After(run, 1) == Ticked(st, tick.now, tick.at);
  }

  // ---------------------------------------------------------------- freshness of what is served

  /** Stored readings are never from the future of the last pass. */
  lemma {:induction false} ReadingsArePublished(run: Run, k: nat, name: string)
    requires ValidRun(run) && k <= |run.ticks| && name in After(run, k).readAt
    ensures After(run, k).readAt[name] <= LastPass(Prefix(run, k)).published
  {
    if k == 0 {
      BuiltWithin(run.metrics, run.start, name);
    } else {
      var st, tick := After(run, k - 1), run.ticks[k - 1];
      if name in Gathered(st.schedule, tick.now, tick.at) {
        GatheredWithin(st.schedule, tick, name);
      } else {
        ReadingsArePublished(run, k - 1, name);
        assert ValidPass(tick) && tick.now <= tick.at(0) <= tick.published;
        assert LastPass(Prefix(run, k - 1)).published <= tick.now;
      }
    }
  }

  /** A stored reading only moves forward in time. */
  lemma {:induction false} ReadingsOnlyAdvance(run: Run, j: nat, k: nat, name: string)
    requires ValidRun(run) && j <= k <= |run.ticks| && name in After(run, j).readAt
    ensures name in After(run, k).readAt && After(run, j).readAt[name] <= After(run, k).readAt[name]
    decreases k
  {
    if j < k {
      ReadingsOnlyAdvance(run, j, k - 1, name);
      ReadingsArePublished(run, k - 1, name);
      assert After(run, k) == Ticked(After(run, k - 1), run.ticks[k - 1].now, run.ticks[k - 1].at);
      var st, tick := After(run, k - 1), run.ticks[k - 1];
      assert LastPass(Prefix(run, k - 1)).published <= tick.now;
      if name in Gathered(st.schedule, tick.now, tick.at) { GatheredWithin(st.schedule, tick, name); }
    }
  }

  lemma DueIsRead(run: Run, k: nat, i: nat)
    requires ValidRun(run) && 0 < k <= |run.ticks| && i < |After(run, k - 1).schedule|
    requires Due(After(run, k - 1).schedule[i], run.ticks[k - 1].now)
    ensures var name := After(run, k - 1).schedule[i].name;
            name in After(run, k).readAt && run.ticks[k - 1].now <= After(run, k).readAt[name]
  {
    var schedule, tick := After(run, k - 1).schedule, run.ticks[k - 1];
    GatheredShape(schedule, tick.now, tick.at);
    GatheredWithin(schedule, tick, schedule[i].name);
  }

  /** What is stored for a scheduled name was read no earlier than its entry's last gather. */
  lemma {:induction false} ReadingAfterStamp(run: Run, k: nat, i: nat)
    requires ValidRun(run) && k <= |run.ticks| && i < |After(run, 0).schedule|
    requires Stamps(After(run, 0).schedule[i], run.ticks[..k]) != []
    ensures var entry := After(run, 0).schedule[i];
            && entry.name in After(run, k).readAt
            && Last(Stamps(entry, run.ticks[..k])) <= After(run, k).readAt[entry.name]
  {
    var entry := After(run, 0).schedule[i];
    var st, tick := After(run, k - 1), run.ticks[k - 1];
    assert run.ticks[..k][..k - 1] == run.ticks[..k - 1];
    ScheduleIsPerEntry(run, k - 1);
    if Due(st.schedule[i], tick.now) {
      DueIsRead(run, k, i);
    } else {
      ReadingAfterStamp(run, k - 1, i);
      ReadingsOnlyAdvance(run, k - 1, k, entry.name);
    }
  }

  ghost predicate NoOverflowInRun(run: Run) {
    forall i :: 0 <= i < |After(run, 0).schedule| ==> NoOverflow(After(run, 0).schedule[i], run.ticks)
  }

  /**
   * Bounded staleness. Once a tick has been published, and as long as the next one is published at most
   * `gap` after the last stamp, readMetric at `u` answers a live read taken less than ttl + gap ago.
   */
  lemma BoundedStaleness(run: Run, live: Live, i: nat, u: int, gap: int)
    requires ValidRun(run) && NoOverflowInRun(run) && run.ticks != []
    requires i < |After(run, 0).schedule|
    requires LastPass(run).published <= u <= LastPass(run).now + gap
    ensures var entry := After(run, 0).schedule[i];
            var r := ServedInstant(Final(run), entry.name, u);
            && StoredOrLive(live, Final(run), entry.name, u) == live(entry.name, r)
            && r <= u < r + Max(entry.ttlNanos, 1) + gap
  {
    var entry, k := After(run, 0).schedule[i], |run.ticks|;
    assert run.ticks[..k] == run.ticks;
    assert Prefix(run, k) == run;
    BuiltShape(run.metrics, run.start.now, run.start.at);
    assert Built(run.metrics, run.start.now, run.start.at).schedule[i].nextGatherNs == run.start.now;
    PassesAreOrdered(run);
    FreshAfterTick(entry, run.ticks);
    ReadingAfterStamp(run, k, i);
    ReadingsArePublished(run, k, entry.name);
  }

  /** One POLLED metric of TTL `ttl`, built at instant 0 and ticked at 0, 1, ..., ttl - 1, each pass taking no time. */
  function TightRun(name: string, ttl: nat): Run {
    var rec := AccessConfig(Polled, Some(Duration(ttl / NANOS_PER_SECOND, ttl % NANOS_PER_SECOND)));
    Run([KernelMetric(name, "", None, None, None, Some(rec), "")], PassAt(0), seq(ttl, (k: nat) => PassAt(k)))
  }

  function PassAt(t: int): Pass {
    Pass(t, (_: nat) => t, t)
  }

  lemma TightStart(name: string, ttl: nat)
    requires 0 < ttl <= INT64_MAX
    ensures After(TightRun(name, ttl), 0) == PollerState([PolledMetric(name, ttl, 0)], map[name := 0])
  {
    var run := TightRun(name, ttl);
    assert run.metrics[..0] == [];
    assert TreatmentOf(run.metrics[0]) == Scheduled(ttl);
    assert Built(run.metrics[..0], 0, run.start.at) == PollerState([], map[]);
  }

  /** A tick of a schedule with one entry. */
  lemma TickOfOne(pm: PolledMetric, readAt: map<string, int>, now: int, at: Instants)
    ensures Ticked(PollerState([pm], readAt), now, at) ==
            PollerState([Advance(pm, now)], if Due(pm, now) then readAt[pm.name := at(0)] else readAt)
  {
    assert [pm][..0] == [];
    assert Gathered([pm][..0], now, at) == map[];
    assert Gathered([pm], now, at) == if Due(pm, now) then map[pm.name := at(0)] else map[];
    assert readAt + map[pm.name := at(0)] == readAt[pm.name := at(0)] && readAt + map[] == readAt;
  }

  /** Only its first tick gathers. */
  lemma {:induction false} TightStep(name: string, ttl: nat, k: nat)
    requires 0 < k <= ttl <= INT64_MAX
    ensures After(TightRun(name, ttl), k) == PollerState([PolledMetric(name, ttl, ttl)], map[name := 0])
  {
    var now := k - 1;
    if now == 0 {
      TightStart(name, ttl);
      TickOfOne(PolledMetric(name, ttl, 0), map[name := 0], now, PassAt(now).at);
    } else {
      TightStep(name, ttl, now);
      TickOfOne(PolledMetric(name, ttl, ttl), map[name := 0], now, PassAt(now).at);
    }
    assert TightRun(name, ttl).ticks[now] == PassAt(now);
    assert map[name := 0][name := 0] == map[name := 0];
  }

  /** The staleness bound is the best possible: in some run a reading is served that is ttl + gap - 1 old. */
  lemma StalenessBoundIsTight(name: string, ttl: nat, gap: nat)
    requires ttl > 0 && gap > 0 && 2 * ttl <= INT64_MAX
    ensures var run := TightRun(name, ttl);
            && ValidRun(run) && NoOverflowInRun(run) && run.ticks != []
            && (forall k :: 0 < k < |run.ticks| ==> run.ticks[k].now <= run.ticks[k - 1].now + gap)
            && After(run, 0).schedule == [PolledMetric(name, ttl, 0)]
            && var u := LastPass(run).now + gap;
               LastPass(run).published <= u && u - ServedInstant(Final(run), name, u) == ttl + gap - 1
  {
    TightStart(name, ttl);
    TightStep(name, ttl, ttl);
  }

  lemma PassesAreOrdered(run: Run)
    requires ValidRun(run) && run.ticks != []
    ensures run.start.now <= run.ticks[0].now
    ensures forall k :: 0 < k < |run.ticks| ==> run.ticks[k - 1].now <= run.ticks[k].now
  {
    assert run.start.now <= run.start.at(0) <= run.start.published;
    forall k | 0 < k < |run.ticks| ensures run.ticks[k - 1].now <= run.ticks[k].now {
      assert ValidPass(run.ticks[k - 1]);
      assert run.ticks[k - 1].now <= run.ticks[k - 1].at(0) <= run.ticks[k - 1].published;
    }
  }

  /** Names outside the store are always read live; frozen names always answer their startup reading. */
  lemma UnscheduledReads(run: Run, live: Live, name: string, u: int)
    requires ValidRun(run) && !ScheduledName(run.metrics, name)
    ensures !StoredName(run.metrics, name) ==> StoredOrLive(live, Final(run), name, u) == live(name, u)
    ensures StoredName(run.metrics, name) ==>
              && name in After(run, 0).readAt
              && StoredOrLive(live, Final(run), name, u) == live(name, After(run, 0).readAt[name])
              && run.start.now <= After(run, 0).readAt[name] <= run.start.published
  {
    StoreShape(run, |run.ticks|, name);
    if StoredName(run.metrics, name) {
      StaticIsFrozen(run, |run.ticks|, name);
      BuiltWithin(run.metrics, run.start, name);
    }
  }
}
