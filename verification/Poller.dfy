/** The TTL poller: metric store, schedule, construction and tick. */
module Poller {
  import opened Base
  import opened KernelRegistry
  import opened LiveRead

  /** readMetricLive as an oracle: what a live read of a name answers at an instant. */
  type Live = (string, int) -> Metric

  /** When each position of a pass over a list is read from the kernel. */
  type Instants = nat -> int

  datatype PolledMetric = PolledMetric(name: string, ttlNanos: int, nextGatherNs: int)

  // ---------------------------------------------------------------- the pass as a function

  /** The schedule, and for every stored name the instant at which its stored value was read. */
  datatype PollerState = PollerState(schedule: seq<PolledMetric>, readAt: map<string, int>)

  /** What newPoller makes of a registry entry. */
  datatype Treatment = ReadLive | StoredOnce | Scheduled(ttlNanos: int)

  const DEFAULT_TTL: int := 10 * NANOS_PER_SECOND

  function TreatmentOf(km: KernelMetric): Treatment {
    match km.recommended
    case None => ReadLive
    case Some(rec) =>
      match rec.pattern
      case Static => StoredOnce
      case Polled => Scheduled(if rec.ttl.Some? then Nanos(rec.ttl.value) else DEFAULT_TTL)
      case Constrained => Scheduled(if rec.ttl.Some? then Nanos(rec.ttl.value) else DEFAULT_TTL)
      case _ => ReadLive
  }

  function Built(metrics: seq<KernelMetric>, now: int, at: Instants): PollerState {
    if metrics == [] then PollerState([], map[])
    else
      var n := |metrics| - 1;
      var km, st := metrics[n], Built(metrics[..n], now, at);
      match TreatmentOf(km)
      case ReadLive => st
      case StoredOnce => st.(readAt := st.readAt[km.name := at(n)])
      case Scheduled(ttl) =>
        PollerState(st.schedule + [PolledMetric(km.name, ttl, now)], st.readAt[km.name := at(n)])
  }

  predicate Due(pm: PolledMetric, now: int) {
    pm.nextGatherNs <= now
  }

  function Advance(pm: PolledMetric, now: int): PolledMetric {
    if Due(pm, now) then pm.(nextGatherNs := Wrap64(now + pm.ttlNanos)) else pm
  }

  /** The names that the due entries among `schedule` put into a batch, with their read instants. */
  function Gathered(schedule: seq<PolledMetric>, now: int, at: Instants): map<string, int> {
    if schedule == [] then map[]
    else
      var n := |schedule| - 1;
      var earlier := Gathered(schedule[..n], now, at);
      if Due(schedule[n], now) then earlier[schedule[n].name := at(n)] else earlier
  }

  function Ticked(st: PollerState, now: int, at: Instants): PollerState {
    PollerState(
      seq(|st.schedule|, i requires 0 <= i < |st.schedule| => Advance(st.schedule[i], now)),
      st.readAt + Gathered(st.schedule, now, at))
  }

  /** Every value is what a live read answered at its recorded instant, and nothing else is stored. */
  ghost predicate Mirrors(values: map<string, Metric>, live: Live, readAt: map<string, int>) {
    && values.Keys == readAt.Keys
    && forall name :: name in readAt ==> values[name] == live(name, readAt[name])
  }

  lemma MirrorsUpdate(values: map<string, Metric>, live: Live, readAt: map<string, int>, name: string, at: int)
    requires Mirrors(values, live, readAt)
    ensures Mirrors(values[name := live(name, at)], live, readAt[name := at])
  {
  }

  lemma MirrorsMerge(values: map<string, Metric>, batch: map<string, Metric>, live: Live,
                     readAt: map<string, int>, gathered: map<string, int>)
    requires Mirrors(values, live, readAt) && Mirrors(batch, live, gathered)
    ensures Mirrors(values + batch, live, readAt + gathered)
    ensures batch == map[] ==> values + batch == values
  {
  }

  /** The instant whose live read readMetric answers with at `now`: when the stored value was read, or `now`. */
  function ServedInstant(st: PollerState, name: string, now: int): int {
    if name in st.readAt then st.readAt[name] else now
  }

  /** readMetric: the stored value if there is one, otherwise a live read at `now`. */
  function StoredOrLive(live: Live, st: PollerState, name: string, now: int): Metric {
    live(name, ServedInstant(st, name, now))
  }

  // ---------------------------------------------------------------- the objects

  class MetricStore {
    var values: map<string, Metric>

    constructor ()
      ensures values == map[]
    {
      values := map[];
    }

    method Get(name: string) returns (m: Option<Metric>)
      ensures m == if name in values then Some(values[name]) else None
    {
      m := if name in values then Some(values[name]) else None;
    }

    method Put(name: string, m: Metric)
      modifies this
      ensures values == old(values)[name := m]
    {
      values := values[name := m];
    }

    /** Writes the whole batch, in whatever order the map yields it. */
    method PutBatch(batch: map<string, Metric>)
      modifies this
      ensures values == old(values) + batch
    {
      var left := batch.Keys;
      while left != {}
        invariant left <= batch.Keys
        invariant values == old(values) + (batch - left)
      {
        var name :| name in left;
        values := values[name := batch[name]];
        left := left - {name};
      }
    }
  }

  class TtlPoller {
    const live: Live
    const store: MetricStore
    var polledMetrics: seq<PolledMetric>
    ghost var readAt: map<string, int>

    /** Every stored value is what a live read answered at its recorded instant. */
    ghost predicate Valid()
      reads this, store
    {
      Mirrors(store.values, live, readAt)
    }

    ghost function State(): PollerState
      reads this
    {
      PollerState(polledMetrics, readAt)
    }

    /** newPoller: a missing registry schedules and stores nothing. */
    constructor (live: Live, fullRegistry: Option<Registry>, now: int, at: Instants)
      ensures Valid() && fresh(store) && this.live == live
      ensures State() == Built(if fullRegistry.Some? then fullRegistry.value.metrics else [], now, at)
    {
      this.live := live;
      store := new MetricStore();
      polledMetrics := [];
      readAt := map[];
      new;
      if fullRegistry.None? {
        return;
      }
      var metrics := fullRegistry.value.metrics;
      for i := 0 to |metrics|
        invariant Valid() && fresh(store)
        invariant State() == Built(metrics[..i], now, at)
      {
        assert metrics[..i + 1][..i] == metrics[..i];
        var km := metrics[i];
        var rec := km.recommended;
        if rec == None {
          continue;
        }
        match rec.value.pattern {
          case Static =>
            MirrorsUpdate(store.values, live, readAt, km.name, at(i));
            store.Put(km.name, live(km.name, at(i)));
            readAt := readAt[km.name := at(i)];
          case Polled | Constrained =>
            var ttlNanos := 10 * NANOS_PER_SECOND;
            if rec.value.ttl != None {
              ttlNanos := Nanos(rec.value.ttl.value);
            }
            polledMetrics := polledMetrics + [PolledMetric(km.name, ttlNanos, now)];
            MirrorsUpdate(store.values, live, readAt, km.name, at(i));
            store.Put(km.name, live(km.name, at(i)));
            readAt := readAt[km.name := at(i)];
          case _ =>
        }
      }
      assert metrics[..|metrics|] == metrics;
    }

    /** The first half of tick: reads and reschedules the due entries without touching the store. */
    method GatherDue(now: int, at: Instants) returns (batch: map<string, Metric>)
      modifies `polledMetrics
      ensures Mirrors(batch, live, Gathered(old(polledMetrics), now, at))
      ensures polledMetrics == Ticked(old(State()), now, at).schedule
    {
      batch := map[];
      ghost var was := polledMetrics;
      for i := 0 to |polledMetrics|
        modifies `polledMetrics
        invariant |polledMetrics| == |was|
        invariant forall j :: 0 <= j < |was| ==> polledMetrics[j] == if j < i then Advance(was[j], now) else was[j]
        invariant Mirrors(batch, live, Gathered(was[..i], now, at))
      {
        assert was[..i + 1][..i] == was[..i];
        var pm := polledMetrics[i];
        if pm.nextGatherNs <= now {
          MirrorsUpdate(batch, live, Gathered(was[..i], now, at), pm.name, at(i));
          batch := batch[pm.name := live(pm.name, at(i))];
          polledMetrics := polledMetrics[i := pm.(nextGatherNs := Wrap64(now + pm.ttlNanos))];
        }
      }
      assert was[..|was|] == was;
    }

    /** tick: gathers what is due and publishes it as one batch. */
    method Tick(now: int, at: Instants)
      requires Valid()
      modifies this, store
      ensures Valid()
      ensures State() == Ticked(old(State()), now, at)
    {
      ghost var gathered := Gathered(polledMetrics, now, at);
      var batch := GatherDue(now, at);
      MirrorsMerge(store.values, batch, live, readAt, gathered);
      if |batch| > 0 {
        store.PutBatch(batch);
      }
      readAt := readAt + gathered;
    }
  }

  class Server {
    const live: Live
    const poller: TtlPoller?

    constructor (live: Live, poller: TtlPoller?)
      ensures this.live == live && this.poller == poller
    {
      this.live := live;
      this.poller := poller;
    }

    /** readMetric: the poller's store first, then the kernel; without a poller every read is live. */
    method ReadMetric(name: string, now: int) returns (m: Metric)
      requires poller != null ==> poller.Valid() && poller.live == live
      ensures poller == null ==> m == live(name, now)
      ensures poller != null ==> m == StoredOrLive(live, poller.State(), name, now)
    {
      if poller != null {
        var stored := poller.store.Get(name);
        if stored.Some? {
          return stored.value;
        }
      }
      m := live(name, now);
    }

    /** GetMetrics with no tick in between: one answer a requested name, in request order. */
    method GetMetrics(names: seq<string>, at: Instants) returns (metrics: seq<Metric>)
      requires poller != null ==> poller.Valid() && poller.live == live
      ensures |metrics| == |names|
      ensures forall i :: 0 <= i < |names| ==>
                            metrics[i] == if poller == null then live(names[i], at(i))
                                          else StoredOrLive(live, poller.State(), names[i], at(i))
    {
      metrics := [];
      for i := 0 to |names|
        invariant |metrics| == i
        invariant forall j :: 0 <= j < i ==>
                                metrics[j] == if poller == null then live(names[j], at(j))
                                              else StoredOrLive(live, poller.State(), names[j], at(j))
      {
        var m := ReadMetric(names[i], at(i));
        metrics := metrics + [m];
      }
    }
  }
}
