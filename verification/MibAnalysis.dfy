/** The flat-id analysis of resolved MIBs: collisions of both key forms, accounting, and value ranges. */
module MibAnalysis {
  import opened Base
  import opened MibKeys

  /** One row of the resolution table; a failed resolution has a message and no MIB. */
  datatype MetricMib = MetricMib(name: string, mib: seq<int>, resolveErr: string)

  predicate WellFormed(results: seq<MetricMib>) {
    forall i :: 0 <= i < |results| ==> IsMib(results[i].mib)
  }

  // ---------------------------------------------------------------- grouping names by key

  datatype Item<K> = Item(key: K, name: string)

  function AddTo<K>(buckets: map<K, seq<string>>, key: K, name: string): map<K, seq<string>> {
    buckets[key := (if key in buckets then buckets[key] else []) + [name]]
  }

  function Group<K>(items: seq<Item<K>>): map<K, seq<string>> {
    if items == [] then map[]
    else
      var last := items[|items| - 1];
      AddTo(Group(items[..|items| - 1]), last.key, last.name)
  }

  function Keys<K>(items: seq<Item<K>>): seq<K> {
    seq(|items|, i requires 0 <= i < |items| => items[i].key)
  }

  lemma GroupSnoc<K>(items: seq<Item<K>>, last: Item<K>)
    ensures Group(items + [last]) == AddTo(Group(items), last.key, last.name)
    ensures Keys(items + [last]) == Keys(items) + [last.key]
  {
    assert (items + [last])[..|items|] == items;
  }

  ghost predicate NoCollision<K>(buckets: map<K, seq<string>>) {
    forall k :: k in buckets ==> |buckets[k]| <= 1
  }

  /** The keys shared by more than one name. */
  ghost function Colliding<K>(buckets: map<K, seq<string>>): set<K> {
    set k | k in buckets && |buckets[k]| > 1
  }

  ghost predicate NonEmpty<K>(buckets: map<K, seq<string>>) {
    forall k :: k in buckets ==> buckets[k] != []
  }

  /** Buckets exist for exactly the keys seen, none empty; all are singletons iff the keys are pairwise distinct. */
  lemma {:induction false} GroupShape<K>(items: seq<Item<K>>)
    ensures forall k :: k in Group(items) <==> k in Keys(items)
    ensures NonEmpty(Group(items))
    ensures NoCollision(Group(items)) <==> Distinct(Keys(items))
    ensures |Group(items)| <= |items|
    ensures |Group(items)| == |items| <==> Distinct(Keys(items))
  {
    if items != [] {
      var init, last := items[..|items| - 1], items[|items| - 1];
      GroupShape(init);
      assert items == init + [last];
      GroupSnoc(init, last);
      DistinctSnoc(Keys(init), last.key);
      CardinalityOfUpdate(Group(init), last.key, Group(items)[last.key]);
      NoCollisionSnoc(Group(init), last.key, last.name);
    }
  }

  /** The names of one key, from the front. */
  function NamesUnder<K(==)>(items: seq<Item<K>>, key: K): seq<string> {
    if items == [] then []
    else (if items[0].key == key then [items[0].name] else []) + NamesUnder(items[1..], key)
  }

  lemma {:induction false} NamesUnderSnoc<K>(items: seq<Item<K>>, last: Item<K>, key: K)
    ensures NamesUnder(items + [last], key) == NamesUnder(items, key) + if last.key == key then [last.name] else []
  {
    if items == [] {
      assert items + [last] == [last];
    } else {
      assert (items + [last])[1..] == items[1..] + [last];
      NamesUnderSnoc(items[1..], last, key);
    }
  }

  /** A bucket holds the names of its key, in the order of the table. */
  lemma {:induction false} GroupHolds<K>(items: seq<Item<K>>, key: K)
    ensures NamesUnder(items, key) == if key in Group(items) then Group(items)[key] else []
  {
    if items != [] {
      var init, last := items[..|items| - 1], items[|items| - 1];
      GroupHolds(init, key);
      assert items == init + [last];
      NamesUnderSnoc(init, last, key);
    }
  }

  ghost predicate Shared<K>(items: seq<Item<K>>, key: K) {
    exists i, j :: 0 <= i < j < |items| && items[i].key == items[j].key == key
  }

  lemma SharedSnoc<K>(items: seq<Item<K>>, last: Item<K>, key: K)
    ensures Shared(items + [last], key) <==> Shared(items, key) || (last.key == key && key in Keys(items))
  {
    var all := items + [last];
    assert all[|items|] == last;
    if Shared(items, key) {
      var i, j :| 0 <= i < j < |items| && items[i].key == items[j].key == key;
      assert all[i].key == all[j].key == key;
    }
    if last.key == key && key in Keys(items) {
      var i :| 0 <= i < |items| && Keys(items)[i] == key;
      assert all[i].key == all[|items|].key == key;
    }
    if Shared(all, key) {
      var i, j :| 0 <= i < j < |all| && all[i].key == all[j].key == key;
      assert all[i] == items[i] && Keys(items)[i] == key;
      if j < |items| { assert items[i].key == items[j].key == key; }
    }
  }

  /** The colliding keys are those of at least two rows. */
  lemma {:induction false} CollidingIsShared<K>(items: seq<Item<K>>, key: K)
    ensures key in Colliding(Group(items)) <==> Shared(items, key)
  {
    if items != [] {
      var init, last := items[..|items| - 1], items[|items| - 1];
      CollidingIsShared(init, key);
      assert items == init + [last];
      SharedSnoc(init, last, key);
      GroupShape(init);
    }
  }

  lemma DistinctSnoc<K>(keys: seq<K>, last: K)
    ensures Distinct(keys + [last]) <==> Distinct(keys) && last !in keys
  {
    var all := keys + [last];
    if Distinct(all) {
      forall i | 0 <= i < |keys| ensures keys[i] != last {
        assert all[i] != all[|keys|];
      }
      forall i, j | 0 <= i < j < |keys| ensures keys[i] != keys[j] {
        assert all[i] != all[j];
      }
    }
  }

  lemma NoCollisionSnoc<K>(buckets: map<K, seq<string>>, key: K, name: string)
    requires NonEmpty(buckets)
    ensures NonEmpty(AddTo(buckets, key, name))
    ensures NoCollision(AddTo(buckets, key, name)) <==> NoCollision(buckets) && key !in buckets
  {
    var after := AddTo(buckets, key, name);
    if key in buckets {
      assert |after[key]| == |buckets[key]| + 1;
    } else {
      assert |after[key]| == 1;
      assert forall k :: k in buckets ==> after[k] == buckets[k];
    }
  }

  lemma CardinalityOfUpdate<K, V>(m: map<K, V>, k: K, v: V)
    ensures |m[k := v]| == |m| + if k in m then 0 else 1
  {
    assert m[k := v].Keys == m.Keys + {k};
    assert |m| == |m.Keys| && |m[k := v]| == |m[k := v].Keys|;
    if k in m { assert m.Keys + {k} == m.Keys; }
  }

  /** How many names the buckets hold in all. */
  ghost function Total<K>(buckets: map<K, seq<string>>): nat
    decreases |buckets|
  {
    if buckets == map[] then 0
    else
      assert buckets.Keys != {};
      var k :| k in buckets;
      CardinalityOfRemoval(buckets, k);
      |buckets[k]| + Total(buckets - {k})
  }

  lemma CardinalityOfRemoval<K, V>(m: map<K, V>, k: K)
    requires k in m
    ensures |m - {k}| < |m|
  {
    assert (m - {k}).Keys == m.Keys - {k};
    assert |m| == |m.Keys| && |m - {k}| == |(m - {k}).Keys|;
  }

  /** The total may be taken apart at any bucket. */
  lemma {:induction false} TotalAt<K>(buckets: map<K, seq<string>>, k: K)
    requires k in buckets
    ensures Total(buckets) == |buckets[k]| + Total(buckets - {k})
    decreases |buckets|
  {
    var j :| j in buckets && Total(buckets) == |buckets[j]| + Total(buckets - {j});
    if j != k {
      CardinalityOfRemoval(buckets, j);
      CardinalityOfRemoval(buckets, k);
      TotalAt(buckets - {j}, k);
      TotalAt(buckets - {k}, j);
      assert buckets - {j} - {k} == buckets - {k} - {j};
    }
  }

  lemma TotalOfAdd<K>(buckets: map<K, seq<string>>, key: K, name: string)
    ensures Total(AddTo(buckets, key, name)) == Total(buckets) + 1
  {
    var after := AddTo(buckets, key, name);
    TotalAt(after, key);
    assert after - {key} == buckets - {key};
    if key in buckets {
      TotalAt(buckets, key);
    } else {
      assert buckets - {key} == buckets;
    }
  }

  lemma {:induction false} TotalOfGroup<K>(items: seq<Item<K>>)
    ensures Total(Group(items)) == |items|
  {
    if items != [] {
      var init, last := items[..|items| - 1], items[|items| - 1];
      TotalOfGroup(init);
      TotalOfAdd(Group(init), last.key, last.name);
    }
  }

  // ---------------------------------------------------------------- which results are keyed how

  /** The rows that satisfy `p`, in order. */
  function Select(results: seq<MetricMib>, p: MetricMib -> bool): seq<MetricMib> {
    if results == [] then []
    else
      var last := results[|results| - 1];
      Select(results[..|results| - 1], p) + if p(last) then [last] else []
  }

  predicate IsResolved(r: MetricMib) {
    r.resolveErr == ""
  }

  predicate IsResolvedNonEmpty(r: MetricMib) {
    r.resolveErr == "" && r.mib != []
  }

  predicate IsPackable(r: MetricMib) {
    r.resolveErr == "" && r.mib != [] && Flattenable(r.mib)
  }

  predicate IsUnflattenable(r: MetricMib) {
    r.resolveErr == "" && r.mib != [] && !Flattenable(r.mib)
  }

  function Resolved(results: seq<MetricMib>): seq<MetricMib> {
    Select(results, IsResolved)
  }

  /** The resolved, non-empty results. */
  function ResolvedNonEmpty(results: seq<MetricMib>): seq<MetricMib> {
    Select(results, IsResolvedNonEmpty)
  }

  /** The resolved, non-empty results whose MIB packs. */
  function Packable(results: seq<MetricMib>): seq<MetricMib> {
    Select(results, IsPackable)
  }

  /** A selection keeps each row that satisfies `p` as often as it occurs, and no other row. */
  lemma {:induction false} SelectKeeps(results: seq<MetricMib>, p: MetricMib -> bool, r: MetricMib)
    ensures multiset(Select(results, p))[r] == if p(r) then multiset(results)[r] else 0
  {
    if results != [] {
      var init, last := results[..|results| - 1], results[|results| - 1];
      SelectKeeps(init, p, r);
      assert multiset(results)[r] == multiset(init)[r] + if last == r then 1 else 0 by {
        assert results == init + [last];
      }
    }
  }

  lemma {:induction false} SelectLength(results: seq<MetricMib>, p: MetricMib -> bool)
    ensures |Select(results, p)| == CountIf(results, p)
  {
    CountIfLast(results, p);
    if results != [] { SelectLength(results[..|results| - 1], p); }
  }

  lemma {:induction false} SelectSatisfies(results: seq<MetricMib>, p: MetricMib -> bool)
    ensures forall i :: 0 <= i < |Select(results, p)| ==> p(Select(results, p)[i])
  {
    if results != [] { SelectSatisfies(results[..|results| - 1], p); }
  }

  /** And it keeps their order: the selection of a prefix is a prefix of the selection. */
  lemma {:induction false} SelectInOrder(results: seq<MetricMib>, p: MetricMib -> bool, n: nat)
    requires n <= |results|
    ensures Select(results[..n], p) <= Select(results, p)
  {
    if n == |results| {
      assert results[..n] == results;
    } else {
      var init := results[..|results| - 1];
      SelectInOrder(init, p, n);
      assert init[..n] == results[..n];
    }
  }

  type Clash = (MetricMib, MetricMib) -> bool

  /** No two positions that satisfy `p` hold clashing rows. */
  ghost predicate NoClash(results: seq<MetricMib>, p: MetricMib -> bool, clash: Clash) {
    forall i, j :: 0 <= i < j < |results| && p(results[i]) && p(results[j]) ==> !clash(results[i], results[j])
  }

  ghost predicate NoneClashes(results: seq<MetricMib>, p: MetricMib -> bool, clash: Clash, r: MetricMib) {
    forall i :: 0 <= i < |results| && p(results[i]) ==> !clash(results[i], r)
  }

  lemma NoClashSnoc(results: seq<MetricMib>, p: MetricMib -> bool, clash: Clash, last: MetricMib)
    ensures NoClash(results + [last], p, clash) <==>
            NoClash(results, p, clash) && (p(last) ==> NoneClashes(results, p, clash, last))
  {
    var all := results + [last];
    assert all[|results|] == last && forall i :: 0 <= i < |results| ==> all[i] == results[i];
    if NoClash(all, p, clash) {
      forall i | 0 <= i < |results| && p(results[i]) && p(last) ensures !clash(results[i], last) {
        assert !clash(all[i], all[|results|]);
      }
      forall i, j | 0 <= i < j < |results| && p(results[i]) && p(results[j]) ensures !clash(results[i], results[j]) {
        assert !clash(all[i], all[j]);
      }
    }
  }

  lemma {:induction false} SelectNone(results: seq<MetricMib>, p: MetricMib -> bool, clash: Clash, r: MetricMib)
    ensures NoneClashes(Select(results, p), p, clash, r) <==> NoneClashes(results, p, clash, r)
  {
    if results != [] {
      var n := |results| - 1;
      SelectNone(results[..n], p, clash, r);
      NoneSnoc(results[..n], p, clash, r, results[n]);
      assert results[..n] + [results[n]] == results;
      NoneSnoc(Select(results[..n], p), p, clash, r, results[n]);
      assert Select(results[..n], p) + [] == Select(results[..n], p);
    }
  }

  lemma NoneSnoc(results: seq<MetricMib>, p: MetricMib -> bool, clash: Clash, r: MetricMib, last: MetricMib)
    ensures NoneClashes(results + [last], p, clash, r) <==>
            NoneClashes(results, p, clash, r) && (p(last) ==> !clash(last, r))
  {
    var all := results + [last];
    assert all[|results|] == last && forall i :: 0 <= i < |results| ==> all[i] == results[i];
  }

  /** A selection is free of clashes exactly when the table is, at the positions selected. */
  lemma {:induction false} SelectNoClash(results: seq<MetricMib>, p: MetricMib -> bool, clash: Clash)
    ensures NoClash(Select(results, p), p, clash) <==> NoClash(results, p, clash)
  {
    if results != [] {
      var n := |results| - 1;
      var init, last := results[..n], results[n];
      SelectNoClash(init, p, clash);
      SelectNone(init, p, clash, last);
      NoClashSnoc(init, p, clash, last);
      assert init + [last] == results;
      NoClashSnoc(Select(init, p), p, clash, last);
      assert Select(init, p) + [] == Select(init, p);
    }
  }

  function PrintedItems(rows: seq<MetricMib>): seq<Item<string>>
    requires WellFormed(rows)
  {
    seq(|rows|, i requires 0 <= i < |rows| => Item(Printed(rows[i].mib), rows[i].name))
  }

  function PackedItems(rows: seq<MetricMib>): seq<Item<int>> {
    seq(|rows|, i requires 0 <= i < |rows| => Item(Packed(rows[i].mib), rows[i].name))
  }

  lemma PackableIsFlattenable(results: seq<MetricMib>)
    ensures forall i :: 0 <= i < |Packable(results)| ==> Flattenable(Packable(results)[i].mib)
  {
    SelectSatisfies(results, IsPackable);
  }

  // ---------------------------------------------------------------- the analysis

  datatype RangeInfo = RangeInfo(min: int, max: int, count: nat)

  datatype Report = Report(
    dupes: nat,
    flatKeys: nat,
    unflattenable: nat,
    flatDupes: nat,
    ranges: map<int, RangeInfo>)

  /** Counting them, looking at the buckets in any order. */
  method CountCollisions<K(==)>(buckets: map<K, seq<string>>) returns (dupes: nat)
    ensures dupes == |Colliding(buckets)|
    ensures dupes == 0 <==> NoCollision(buckets)
  {
    dupes := 0;
    ghost var colliding := Colliding(buckets);
    ghost var found: set<K> := {};
    var left := buckets.Keys;
    while left != {}
      invariant left <= buckets.Keys
      invariant found == colliding - left && dupes == |found|
    {
      var k :| k in left;
      left := left - {k};
      if |buckets[k]| > 1 {
        dupes := dupes + 1;
        found := found + {k};
      }
    }
    assert found == colliding;
    if dupes == 0 {
      assert colliding == {};
      forall k | k in buckets ensures |buckets[k]| <= 1 { assert k !in colliding; }
    }
  }

  lemma {:induction false} ResolvedIsWellFormed(results: seq<MetricMib>)
    requires WellFormed(results)
    ensures WellFormed(Resolved(results))
  {
    if results != [] { ResolvedIsWellFormed(results[..|results| - 1]); }
  }

  method GroupPrinted(results: seq<MetricMib>) returns (keyMap: map<string, seq<string>>)
    requires WellFormed(results)
    ensures WellFormed(Resolved(results)) && keyMap == Group(PrintedItems(Resolved(results)))
  {
    keyMap := map[];
    ghost var rows: seq<MetricMib> := [];
    ghost var items: seq<Item<string>> := [];
    for i := 0 to |results|
      invariant rows == Resolved(results[..i])
      invariant keyMap == Group(items) && |items| == |rows|
      invariant forall j :: 0 <= j < |rows| ==>
                              IsMib(rows[j].mib) && items[j] == Item(Printed(rows[j].mib), rows[j].name)
    {
      var r := results[i];
      assert results[..i + 1][..i] == results[..i];
      if r.resolveErr != "" {
        continue;
      }
      var key := FormatMib(r.mib);
      GroupSnoc(items, Item(key, r.name));
      rows, items := rows + [r], items + [Item(key, r.name)];
      keyMap := AddTo(keyMap, key, r.name);
    }
    assert results[..|results|] == results;
    ResolvedIsWellFormed(results);
    assert items == PrintedItems(rows);
  }

  method GroupPacked(results: seq<MetricMib>) returns (flatMap: map<int, seq<string>>, unflattenable: nat)
    requires WellFormed(results)
    ensures flatMap == Group(PackedItems(Packable(results)))
    ensures |Packable(results)| + unflattenable == |ResolvedNonEmpty(results)|
    ensures unflattenable == CountIf(results, IsUnflattenable)
  {
    flatMap, unflattenable := map[], 0;
    ghost var rows: seq<MetricMib> := [];
    for i := 0 to |results|
      invariant rows == Packable(results[..i])
      invariant flatMap == Group(PackedItems(rows))
      invariant |rows| + unflattenable == |ResolvedNonEmpty(results[..i])|
      invariant unflattenable == CountIf(results[..i], IsUnflattenable)
    {
      var r := results[i];
      CountIfLast(results[..i + 1], IsUnflattenable);
      assert results[..i + 1][..i] == results[..i];
      if r.resolveErr != "" || |r.mib| == 0 {
        continue;
      }
      var flat, ok := FlattenMib(r.mib);
      if !ok {
        unflattenable := unflattenable + 1;
        continue;
      }
      GroupSnoc(PackedItems(rows), Item(flat, r.name));
      assert PackedItems(rows + [r]) == PackedItems(rows) + [Item(flat, r.name)];
      rows := rows + [r];
      flatMap := AddTo(flatMap, flat, r.name);
    }
    assert results[..|results|] == results;
  }

  /** Whether a result contributes to the range of the top-level id `top`. */
  predicate Ranged(r: MetricMib, top: int) {
    r.resolveErr == "" && |r.mib| >= 2 && r.mib[0] == top
  }

  /** The recorded range is exact: it bounds every second level, both ends occur, and the count is right. */
  ghost predicate ExactRange(results: seq<MetricMib>, top: int, info: RangeInfo) {
    && info.count == CountIf(results, (r: MetricMib) => r.resolveErr == "" && |r.mib| >= 2 && r.mib[0] == top)
    && (forall i :: (0 <= i < |results| && results[i].resolveErr == "" && |results[i].mib| >= 2
                     && results[i].mib[0] == top) ==> info.min <= results[i].mib[1] <= info.max)
    && AttainedAt(results, top, info.min)
    && AttainedAt(results, top, info.max)
  }

  /** Some resolved MIB under `top` has `v` as its second level. */
  ghost predicate AttainedAt(results: seq<MetricMib>, top: int, v: int) {
    exists i :: 0 <= i < |results| && results[i].resolveErr == "" && |results[i].mib| >= 2
                && results[i].mib[0] == top && results[i].mib[1] == v
  }

  /** One more value in a range, or the first one. */
  function Widen(range: Option<RangeInfo>, v: int): RangeInfo {
    match range
    case None => RangeInfo(v, v, 1)
    case Some(info) =>
      RangeInfo(if v < info.min then v else info.min, if v > info.max then v else info.max, info.count + 1)
  }

  function RangeOf(results: seq<MetricMib>, top: int): Option<RangeInfo> {
    if results == [] then None
    else
      var last, earlier := results[|results| - 1], RangeOf(results[..|results| - 1], top);
      if Ranged(last, top) then Some(Widen(earlier, last.mib[1])) else earlier
  }

  lemma AttainedSnoc(results: seq<MetricMib>, last: MetricMib, top: int, v: int)
    ensures AttainedAt(results + [last], top, v) <==>
            AttainedAt(results, top, v) || (Ranged(last, top) && last.mib[1] == v)
  {
    var all := results + [last];
    assert all[|results|] == last;
    if AttainedAt(results, top, v) {
      var i :| 0 <= i < |results| && results[i].resolveErr == "" && |results[i].mib| >= 2
               && results[i].mib[0] == top && results[i].mib[1] == v;
      assert all[i] == results[i];
    }
  }

  lemma CountOfRanged(results: seq<MetricMib>, top: int)
    requires results != []
    ensures var init, last := results[..|results| - 1], results[|results| - 1];
            CountIf(results, (r: MetricMib) => r.resolveErr == "" && |r.mib| >= 2 && r.mib[0] == top) ==
            CountIf(init, (r: MetricMib) => r.resolveErr == "" && |r.mib| >= 2 && r.mib[0] == top)
            + if Ranged(last, top) then 1 else 0
  {
    CountIfLast(results, (r: MetricMib) => r.resolveErr == "" && |r.mib| >= 2 && r.mib[0] == top);
  }

  lemma WidenIsExact(results: seq<MetricMib>, last: MetricMib, top: int, info: RangeInfo)
    requires ExactRange(results, top, info)
    ensures ExactRange(results + [last], top, if Ranged(last, top) then Widen(Some(info), last.mib[1]) else info)
  {
    var all := results + [last];
    assert all[..|all| - 1] == results;
    CountOfRanged(all, top);
    AttainedSnoc(results, last, top, info.min);
    AttainedSnoc(results, last, top, info.max);
    if Ranged(last, top) { AttainedSnoc(results, last, top, last.mib[1]); }
  }

  /** A range is recorded exactly for the top-level ids that occur, and it is exact. */
  lemma {:induction false} RangeOfIsExact(results: seq<MetricMib>, top: int)
    ensures RangeOf(results, top).None? <==> forall v :: !AttainedAt(results, top, v)
    ensures RangeOf(results, top).None? ==>
              CountIf(results, (r: MetricMib) => r.resolveErr == "" && |r.mib| >= 2 && r.mib[0] == top) == 0
    ensures RangeOf(results, top).Some? ==> ExactRange(results, top, RangeOf(results, top).value)
  {
    if results == [] {
      CountIfLast(results, (r: MetricMib) => r.resolveErr == "" && |r.mib| >= 2 && r.mib[0] == top);
    } else {
      var init, last := results[..|results| - 1], results[|results| - 1];
      RangeOfIsExact(init, top);
      assert init + [last] == results;
      forall v { AttainedSnoc(init, last, top, v); }
      CountOfRanged(results, top);
      if RangeOf(init, top).Some? {
        WidenIsExact(init, last, top, RangeOf(init, top).value);
      } else if Ranged(last, top) {
        FirstIsExact(init, last, top);
      }
    }
  }

  lemma FirstIsExact(results: seq<MetricMib>, last: MetricMib, top: int)
    requires Ranged(last, top) && forall v :: !AttainedAt(results, top, v)
    requires CountIf(results, (r: MetricMib) => r.resolveErr == "" && |r.mib| >= 2 && r.mib[0] == top) == 0
    ensures ExactRange(results + [last], top, RangeInfo(last.mib[1], last.mib[1], 1))
  {
    var all := results + [last];
    assert all[..|all| - 1] == results;
    CountOfRanged(all, top);
    AttainedSnoc(results, last, top, last.mib[1]);
    forall i | 0 <= i < |results| && results[i].resolveErr == "" && |results[i].mib| >= 2
      ensures results[i].mib[0] != top
    {
      assert !AttainedAt(results, top, results[i].mib[1]);
    }
  }

  method TopRanges(results: seq<MetricMib>) returns (ranges: map<int, RangeInfo>)
    ensures forall top :: RangeOf(results, top) == if top in ranges then Some(ranges[top]) else None
  {
    ranges := map[];
    for i := 0 to |results|
      invariant forall top :: RangeOf(results[..i], top) == if top in ranges then Some(ranges[top]) else None
    {
      var r := results[i];
      assert results[..i + 1][..i] == results[..i];
      if r.resolveErr != "" || |r.mib| < 2 {
        continue;
      }
      var top, v := r.mib[0], r.mib[1];
      var ri := if top in ranges then ranges[top] else RangeInfo(v, v, 0);
      if v < ri.min {
        ri := ri.(min := v);
      }
      if v > ri.max {
        ri := ri.(max := v);
      }
      ri := ri.(count := ri.count + 1);
      ranges := ranges[top := ri];
    }
    assert results[..|results|] == results;
  }

  method AnalyzeFlattenability(results: seq<MetricMib>) returns (report: Report)
    requires WellFormed(results)
    ensures WellFormed(Resolved(results))
    ensures report.dupes == |Colliding(Group(PrintedItems(Resolved(results))))|
    ensures report.flatDupes == |Colliding(Group(PackedItems(Packable(results))))|
    ensures report.dupes == 0 <==> UniqueMibs(results)
    ensures report.flatDupes == 0 <==> report.flatKeys == |Packable(results)|
    ensures report.flatDupes == 0 <==> UniqueLevels(results)
    ensures report.flatKeys == |Group(PackedItems(Packable(results)))|
    ensures report.unflattenable == CountIf(results, IsUnflattenable)
    ensures Total(Group(PackedItems(Packable(results)))) + report.unflattenable == |ResolvedNonEmpty(results)|
    ensures forall top :: top in report.ranges ==> ExactRange(results, top, report.ranges[top])
    ensures forall top, v :: AttainedAt(results, top, v) ==> top in report.ranges
  {
    var keyMap := GroupPrinted(results);
    var dupes := CountCollisions(keyMap);
    var flatMap, unflattenable := GroupPacked(results);
    var flatDupes := CountCollisions(flatMap);
    var ranges := TopRanges(results);
    report := Report(dupes, |flatMap|, unflattenable, flatDupes, ranges);
    PrintedCollisions(Resolved(results));
    CleanMibs(results);
    PackableIsFlattenable(results);
    PackedCollisions(Packable(results));
    CleanLevels(results);
    TotalOfGroup(PackedItems(Packable(results)));
    forall top { RangeOfIsExact(results, top); }
  }

  /** No two resolved results have the same MIB. */
  ghost predicate UniqueMibs(results: seq<MetricMib>) {
    forall i, j :: 0 <= i < j < |results| && results[i].resolveErr == "" && results[j].resolveErr == "" ==>
                     results[i].mib != results[j].mib
  }

  /** A resolved MIB of one to four levels below 2^16. */
  predicate Packs(r: MetricMib) {
    r.resolveErr == "" && 1 <= |r.mib| <= 4 && forall i :: 0 <= i < |r.mib| ==> 0 <= r.mib[i] <= 65535
  }

  /** No two of those agree on all four zero-padded levels. */
  ghost predicate UniqueLevels(results: seq<MetricMib>) {
    forall i, j :: 0 <= i < j < |results| && Packs(results[i]) && Packs(results[j]) ==>
                     !SameLevels(results[i].mib, results[j].mib)
  }

  lemma CleanMibs(results: seq<MetricMib>)
    ensures Distinct(Mibs(Resolved(results))) <==> UniqueMibs(results)
  {
    var rows, same := Resolved(results), (a: MetricMib, b: MetricMib) => a.mib == b.mib;
    SelectSatisfies(results, IsResolved);
    SelectNoClash(results, IsResolved, same);
    assert NoClash(rows, IsResolved, same) <==> Distinct(Mibs(rows)) by {
      assert forall i :: 0 <= i < |rows| ==> Mibs(rows)[i] == rows[i].mib;
      if Distinct(Mibs(rows)) {
        forall i, j | 0 <= i < j < |rows| ensures !same(rows[i], rows[j]) { assert Mibs(rows)[i] != Mibs(rows)[j]; }
      }
    }
    assert NoClash(results, IsResolved, same) <==> UniqueMibs(results);
  }

  lemma CleanLevels(results: seq<MetricMib>)
    ensures PaddedDistinct(Packable(results)) <==> UniqueLevels(results)
  {
    var rows, same := Packable(results), (a: MetricMib, b: MetricMib) => SameLevels(a.mib, b.mib);
    SelectSatisfies(results, IsPackable);
    SelectNoClash(results, IsPackable, same);
    assert forall r: MetricMib :: IsPackable(r) <==> Packs(r);
    assert NoClash(rows, IsPackable, same) <==> PaddedDistinct(rows);
    assert NoClash(results, IsPackable, same) <==> UniqueLevels(results);
  }

  // ---------------------------------------------------------------- what a clean report means

  function Mibs(rows: seq<MetricMib>): seq<seq<int>> {
    seq(|rows|, i requires 0 <= i < |rows| => rows[i].mib)
  }

  /** No two rows agree on all four zero-padded levels. */
  ghost predicate PaddedDistinct(rows: seq<MetricMib>) {
    forall i, j :: 0 <= i < j < |rows| ==> !SameLevels(rows[i].mib, rows[j].mib)
  }

  lemma DistinctTransfer<A, B>(a: seq<A>, b: seq<B>)
    requires |a| == |b|
    requires forall i, j :: 0 <= i < j < |a| ==> (a[i] == a[j] <==> b[i] == b[j])
    ensures Distinct(a) <==> Distinct(b)
  {
    if Distinct(a) {
      forall i, j | 0 <= i < j < |b| ensures b[i] != b[j] { assert a[i] != a[j]; }
    }
  }

  /** Printed keys never collide exactly when the MIBs themselves are pairwise different. */
  lemma PrintedCollisions(rows: seq<MetricMib>)
    requires WellFormed(rows)
    ensures NoCollision(Group(PrintedItems(rows))) <==> Distinct(Mibs(rows))
  {
    var keys, mibs := Keys(PrintedItems(rows)), Mibs(rows);
    forall i, j | 0 <= i < j < |rows| ensures keys[i] == keys[j] <==> mibs[i] == mibs[j] {
      PrintedIsInjective(rows[i].mib, rows[j].mib);
    }
    DistinctTransfer(keys, mibs);
    GroupShape(PrintedItems(rows));
  }

  /** Packed keys never collide exactly when the zero-padded MIBs are pairwise different. */
  lemma PackedCollisions(rows: seq<MetricMib>)
    requires forall i :: 0 <= i < |rows| ==> Flattenable(rows[i].mib)
    ensures NoCollision(Group(PackedItems(rows))) <==> PaddedDistinct(rows)
    ensures |Group(PackedItems(rows))| == |rows| <==> PaddedDistinct(rows)
  {
    var keys := Keys(PackedItems(rows));
    forall i, j | 0 <= i < j < |rows| ensures keys[i] == keys[j] <==> SameLevels(rows[i].mib, rows[j].mib) {
      PackedOrder(rows[i].mib, rows[j].mib);
    }
    assert Distinct(keys) <==> PaddedDistinct(rows);
    GroupShape(PackedItems(rows));
  }
}
