/** The Known metric registry: its entries, its lookup index and its grouping by category. */
module Metrics {
  import opened Base

  datatype ValueType =
    | TypeString | TypeUint32 | TypeUint64 | TypeInt32 | TypeInt64 | TypeRaw
    | TypeTimeval | TypeLoadavg | TypeSwap | TypeClock | TypeComputed
    | TypeOther(text: string)

  datatype Category =
    | CatHWCPU | CatHWMemory | CatHWCache | CatHWPerflevel | CatHWARM | CatHWMisc
    | CatKernIdentity | CatKernProcess | CatKernMemory | CatKernSched | CatKernTime
    | CatKernLimits | CatKernIPC | CatKernMisc
    | CatVMPressure | CatVMPages | CatVMCompressor | CatVMPageout | CatVMSwap | CatVMWire | CatVMMisc
    | CatMachdep | CatNetTCP | CatNetUDP | CatNetIP | CatNetMisc
    | CatVFS | CatDebug | CatKPC | CatIOGPU | CatSecurity | CatComputed
    | CatOther(text: string)

  datatype Info = Info(name: string, description: string, valueType: ValueType, category: Category)

  function Names(known: seq<Info>): seq<string> {
    seq(|known|, i requires 0 <= i < |known| => known[i].name)
  }

  // ---------------------------------------------------------------- lookup by name

  /** The entry that a lookup of `name` answers: a later duplicate shadows an earlier one. */
  function ByName(known: seq<Info>, name: string): Option<Info> {
    if known == [] then None
    else
      var last := known[|known| - 1];
      if last.name == name then Some(last) else ByName(known[..|known| - 1], name)
  }

  /** A lookup answers the last entry of that name, and nothing when there is none. */
  lemma {:induction false} ByNameIsLast(known: seq<Info>, name: string)
    ensures ByName(known, name).None? <==> forall i :: 0 <= i < |known| ==> known[i].name != name
    ensures ByName(known, name).Some? ==>
              exists i :: 0 <= i < |known| && known[i].name == name && ByName(known, name).value == known[i]
                          && forall j :: i < j < |known| ==> known[j].name != name
  {
    if known != [] {
      var init := known[..|known| - 1];
      ByNameIsLast(init, name);
      if known[|known| - 1].name == name {
        assert known[|known| - 1].name == name;
      } else if ByName(init, name).Some? {
        var i :| 0 <= i < |init| && init[i].name == name && ByName(init, name).value == init[i]
                 && forall j :: i < j < |init| ==> init[j].name != name;
        assert known[i] == init[i];
        assert forall j :: i < j < |known| ==> known[j].name != name;
      } else {
        assert forall i :: 0 <= i < |init| ==> known[i] == init[i];
      }
    }
  }

  lemma {:induction false} ByNameOfDistinct(known: seq<Info>, i: nat)
    requires i < |known| && Distinct(Names(known))
    ensures ByName(known, known[i].name) == Some(known[i])
  {
    var n := |known| - 1;
    if i < n {
      assert Names(known)[n] != Names(known)[i];
      assert Names(known[..n]) == Names(known)[..n];
      ByNameOfDistinct(known[..n], i);
    }
  }

  /** Building the lookup index. */
  method IndexByName(known: seq<Info>) returns (index: map<string, Info>)
    ensures forall name :: ByName(known, name) == if name in index then Some(index[name]) else None
  {
    index := map[];
    for i := 0 to |known|
      invariant forall name :: ByName(known[..i], name) == if name in index then Some(index[name]) else None
    {
      assert known[..i + 1][..i] == known[..i];
      index := index[known[i].name := known[i]];
    }
    assert known[..|known|] == known;
  }

  // ---------------------------------------------------------------- grouping by category

  function InCategory(known: seq<Info>, cat: Category): seq<Info> {
    if known == [] then []
    else
      var last := known[|known| - 1];
      InCategory(known[..|known| - 1], cat) + if last.category == cat then [last] else []
  }

  method ByCategory(known: seq<Info>, cat: Category) returns (out: seq<Info>)
    ensures out == InCategory(known, cat)
  {
    out := [];
    for i := 0 to |known|
      invariant out == InCategory(known[..i], cat)
    {
      assert known[..i + 1][..i] == known[..i];
      if known[i].category == cat {
        out := out + [known[i]];
      }
    }
    assert known[..|known|] == known;
  }

  /** Position of the first entry of category `cat`, or the length when there is none. */
  function FirstIndex(known: seq<Info>, cat: Category): nat {
    if known == [] then 0
    else if known[0].category == cat then 0
    else 1 + FirstIndex(known[1..], cat)
  }

  lemma {:induction false} FirstIndexIsFirst(known: seq<Info>, cat: Category)
    ensures FirstIndex(known, cat) <= |known|
    ensures forall i :: 0 <= i < FirstIndex(known, cat) ==> known[i].category != cat
    ensures FirstIndex(known, cat) < |known| ==> known[FirstIndex(known, cat)].category == cat
  {
    if known != [] && known[0].category != cat {
      FirstIndexIsFirst(known[1..], cat);
      forall i | 0 <= i < FirstIndex(known, cat) ensures known[i].category != cat {
        if i > 0 { assert known[i] == known[1..][i - 1]; }
      }
    }
  }

  /** What `Categories` promises: each category once, by first occurrence. */
  ghost predicate InFirstOccurrenceOrder(known: seq<Info>, cats: seq<Category>) {
    && (forall c :: c in cats <==> FirstIndex(known, c) < |known|)
    && (forall a, b :: 0 <= a < b < |cats| ==> FirstIndex(known, cats[a]) < FirstIndex(known, cats[b]))
  }

  lemma {:induction false} FirstIndexOfPrefix(known: seq<Info>, n: nat, cat: Category)
    requires n <= |known|
    ensures FirstIndex(known[..n], cat) == if FirstIndex(known, cat) < n then FirstIndex(known, cat) else n
  {
    FirstIndexIsFirst(known, cat);
    FirstIndexIsFirst(known[..n], cat);
  }

  method Categories(known: seq<Info>) returns (out: seq<Category>)
    ensures InFirstOccurrenceOrder(known, out)
  {
    var seen: set<Category> := {};
    out := [];
    for i := 0 to |known|
      invariant seen == set c | c in out
      invariant forall c :: c in out <==> FirstIndex(known, c) < i
      invariant forall a, b :: 0 <= a < b < |out| ==> FirstIndex(known, out[a]) < FirstIndex(known, out[b])
    {
      var cat := known[i].category;
      forall c ensures FirstIndex(known, c) < i + 1 <==> FirstIndex(known, c) < i || c == cat {
        FirstIndexIsFirst(known, c);
      }
      if cat !in seen {
        seen := seen + {cat};
        out := out + [cat];
      }
    }
  }

  /** All entries, category by category in the order of `cats`. */
  function Grouped(known: seq<Info>, cats: seq<Category>): seq<Info> {
    if cats == [] then []
    else Grouped(known, cats[..|cats| - 1]) + InCategory(known, cats[|cats| - 1])
  }

  lemma {:induction false} InCategoryOfConcat(a: seq<Info>, b: seq<Info>, cat: Category)
    ensures InCategory(a + b, cat) == InCategory(a, cat) + InCategory(b, cat)
  {
    if b == [] {
      assert a + b == a;
    } else {
      assert (a + b)[..|a + b| - 1] == a + b[..|b| - 1];
      InCategoryOfConcat(a, b[..|b| - 1], cat);
    }
  }

  lemma {:induction false} InCategoryTwice(known: seq<Info>, c: Category, d: Category)
    ensures InCategory(InCategory(known, d), c) == if c == d then InCategory(known, c) else []
  {
    if known != [] {
      var init, last := known[..|known| - 1], known[|known| - 1];
      InCategoryTwice(init, c, d);
      InCategoryOfConcat(InCategory(init, d), if last.category == d then [last] else [], c);
    }
  }

  lemma {:induction false} InCategoryOfGrouped(known: seq<Info>, cats: seq<Category>, c: Category)
    requires Distinct(cats)
    ensures InCategory(Grouped(known, cats), c) == if c in cats then InCategory(known, c) else []
  {
    if cats != [] {
      var init, last := cats[..|cats| - 1], cats[|cats| - 1];
      InCategoryOfGrouped(known, init, c);
      InCategoryOfConcat(Grouped(known, init), InCategory(known, last), c);
      InCategoryTwice(known, c, last);
      assert c in cats <==> c in init || c == last;
    }
  }

  lemma {:induction false} InCategoryKeepsCounts(known: seq<Info>, m: Info)
    ensures multiset(InCategory(known, m.category))[m] == multiset(known)[m]
  {
    if known != [] {
      InCategoryKeepsCounts(known[..|known| - 1], m);
      assert known == known[..|known| - 1] + [known[|known| - 1]];
    }
  }

  lemma {:induction false} InCategoryAbsent(known: seq<Info>, c: Category)
    requires FirstIndex(known, c) >= |known|
    ensures InCategory(known, c) == []
  {
    if known != [] {
      FirstIndexIsFirst(known, c);
      FirstIndexOfPrefix(known, |known| - 1, c);
      InCategoryAbsent(known[..|known| - 1], c);
    }
  }

  /** Grouping by the listed categories permutes the registry and keeps order inside each category. */
  lemma CategoryPartition(known: seq<Info>, cats: seq<Category>)
    requires InFirstOccurrenceOrder(known, cats)
    ensures Distinct(cats)
    ensures forall c :: InCategory(Grouped(known, cats), c) == InCategory(known, c)
    ensures multiset(Grouped(known, cats)) == multiset(known)
  {
    forall c ensures InCategory(Grouped(known, cats), c) == InCategory(known, c) {
      InCategoryOfGrouped(known, cats, c);
      if c !in cats { InCategoryAbsent(known, c); }
    }
    forall m: Info ensures multiset(Grouped(known, cats))[m] == multiset(known)[m] {
      InCategoryKeepsCounts(Grouped(known, cats), m);
      InCategoryKeepsCounts(known, m);
    }
  }

  // ---------------------------------------------------------------- ListCategories

  datatype CategoryInfo = CategoryInfo(name: Category, metricCount: int)

  function SumCounts(infos: seq<CategoryInfo>): int {
    if infos == [] then 0 else SumCounts(infos[..|infos| - 1]) + infos[|infos| - 1].metricCount
  }

  lemma {:induction false} SumCountsIsGroupedLength(known: seq<Info>, cats: seq<Category>, infos: seq<CategoryInfo>)
    requires |infos| == |cats|
    requires forall i :: 0 <= i < |cats| ==> infos[i].metricCount == |InCategory(known, cats[i])|
    ensures SumCounts(infos) == |Grouped(known, cats)|
  {
    if cats != [] {
      SumCountsIsGroupedLength(known, cats[..|cats| - 1], infos[..|infos| - 1]);
    }
  }

  lemma {:induction false} InCategoryLength(known: seq<Info>, cat: Category)
    ensures |InCategory(known, cat)| <= |known|
  {
    if known != [] { InCategoryLength(known[..|known| - 1], cat); }
  }

  /** The counts listed add up to the size of the registry; beyond int32 a count may wrap. */
  method ListCategories(known: seq<Info>) returns (infos: seq<CategoryInfo>)
    ensures InFirstOccurrenceOrder(known, seq(|infos|, i requires 0 <= i < |infos| => infos[i].name))
    ensures forall i :: 0 <= i < |infos| ==>
                          infos[i].metricCount == Wrap32(|InCategory(known, infos[i].name)|)
    ensures |known| < TWO_31 ==> SumCounts(infos) == |known|
  {
    var cats := Categories(known);
    infos := [];
    for k := 0 to |cats|
      invariant |infos| == k
      invariant forall i :: 0 <= i < k ==>
                              infos[i] == CategoryInfo(cats[i], Wrap32(|InCategory(known, cats[i])|))
    {
      var members := ByCategory(known, cats[k]);
      infos := infos + [CategoryInfo(cats[k], Wrap32(|members|))];
    }
    assert seq(|infos|, i requires 0 <= i < |infos| => infos[i].name) == cats;
    if |known| < TWO_31 {
      forall i | 0 <= i < |cats| ensures infos[i].metricCount == |InCategory(known, cats[i])| {
        InCategoryLength(known, cats[i]);
      }
      SumCountsIsGroupedLength(known, cats, infos);
      CategoryPartition(known, cats);
      assert |multiset(Grouped(known, cats))| == |Grouped(known, cats)|;
      assert |multiset(known)| == |known|;
    }
  }
}
