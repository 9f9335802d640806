/** The kernel metric registry: access patterns by name, their validation and their merge with Known. */
module KernelRegistry {
  import opened Base
  import opened Metrics

  datatype AccessPattern = Unspecified | Static | Polled | Constrained | Dynamic | Disabled

  /** A protobuf duration: int64 seconds and int32 nanos. */
  datatype Duration = Duration(seconds: int, nanos: int)

  datatype AccessConfig = AccessConfig(pattern: AccessPattern, ttl: Option<Duration>)

  datatype KernelMetric = KernelMetric(
    name: string,
    description: string,
    valueType: Option<ValueType>,
    category: Option<Category>,
    kernelAccess: Option<AccessConfig>,
    recommended: Option<AccessConfig>,
    notes: string)

  datatype Registry = Registry(osRegistry: string, osVersion: string, metrics: seq<KernelMetric>)

  const NANOS_PER_SECOND: int := 1_000_000_000

  /** int64 nanoseconds of a duration, wrap-around included. */
  function Nanos(d: Duration): int {
    Wrap64(d.seconds * NANOS_PER_SECOND + d.nanos)
  }

  /** A duration in range is its seconds and nanoseconds; out of range it is off by a multiple of 2^64. */
  lemma NanosOfDuration(d: Duration)
    ensures var exact := d.seconds * 1_000_000_000 + d.nanos;
            && (-0x8000_0000_0000_0000 <= exact < 0x8000_0000_0000_0000 ==> Nanos(d) == exact)
            && -0x8000_0000_0000_0000 <= Nanos(d) < 0x8000_0000_0000_0000
            && (exact - Nanos(d)) % 0x1_0000_0000_0000_0000 == 0
  {
  }

  function KernelNames(metrics: seq<KernelMetric>): seq<string> {
    seq(|metrics|, i requires 0 <= i < |metrics| => metrics[i].name)
  }

  // ---------------------------------------------------------------- lookup

  function KernelIndex(metrics: seq<KernelMetric>): map<string, KernelMetric> {
    if metrics == [] then map[]
    else
      var last := metrics[|metrics| - 1];
      KernelIndex(metrics[..|metrics| - 1])[last.name := last]
  }

  method KernelRegistryByName(reg: Registry) returns (m: map<string, KernelMetric>)
    ensures m == KernelIndex(reg.metrics)
  {
    m := map[];
    for i := 0 to |reg.metrics|
      invariant m == KernelIndex(reg.metrics[..i])
    {
      assert reg.metrics[..i + 1][..i] == reg.metrics[..i];
      m := m[reg.metrics[i].name := reg.metrics[i]];
    }
    assert reg.metrics[..|reg.metrics|] == reg.metrics;
  }

  /** The index answers exactly the registered names, each with its last entry. */
  lemma {:induction false} KernelIndexIsLast(metrics: seq<KernelMetric>, name: string)
    ensures name in KernelIndex(metrics) <==> name in KernelNames(metrics)
    ensures name in KernelIndex(metrics) ==>
              exists i :: 0 <= i < |metrics| && metrics[i].name == name && KernelIndex(metrics)[name] == metrics[i]
                          && forall j :: i < j < |metrics| ==> metrics[j].name != name
  {
    var n := |metrics| - 1;
    if n >= 0 {
      var init := metrics[..n];
      KernelIndexIsLast(init, name);
      assert KernelNames(metrics) == KernelNames(init) + [metrics[n].name];
      if metrics[n].name == name {
        assert metrics[n].name == name && KernelIndex(metrics)[name] == metrics[n];
      } else if name in KernelIndex(init) {
        var i :| 0 <= i < |init| && init[i].name == name && KernelIndex(init)[name] == init[i]
                 && forall j :: i < j < |init| ==> init[j].name != name;
        assert metrics[i] == init[i];
        assert forall j :: i < j < |metrics| ==> metrics[j].name != name;
      }
    }
  }

  lemma {:induction false} KernelIndexOfDistinct(metrics: seq<KernelMetric>, i: nat)
    requires i < |metrics| && Distinct(KernelNames(metrics))
    ensures metrics[i].name in KernelIndex(metrics) && KernelIndex(metrics)[metrics[i].name] == metrics[i]
  {
    var n := |metrics| - 1;
    if i < n {
      assert KernelNames(metrics)[n] != KernelNames(metrics)[i];
      assert KernelNames(metrics[..n]) == KernelNames(metrics)[..n];
      KernelIndexOfDistinct(metrics[..n], i);
    }
  }

  // ---------------------------------------------------------------- validation

  datatype Issue =
    | DuplicateKernelMetric(name: string)
    | MissingFromKernel(name: string)
    | NoKernelAccess(name: string)
    | NoRecommended(name: string)
    | NoTtl(name: string, pattern: AccessPattern)
    | NotInKnown(name: string)

  predicate NeedsTtl(p: AccessPattern) {
    p == Polled || p == Constrained
  }

  ghost predicate Repeated(names: seq<string>, name: string) {
    exists i, j :: 0 <= i < j < |names| && names[i] == names[j] == name
  }

  /** Issues that the pass over Known reports, `kernel` being the index it starts from. */
  ghost predicate KnownIssue(known: seq<Info>, kernel: map<string, KernelMetric>, issue: Issue) {
    && issue.name in Names(known)
    && match issue
       case MissingFromKernel(name) => name !in kernel || Repeated(Names(known), name)
       case NoKernelAccess(name) => name in kernel && kernel[name].kernelAccess.None?
       case NoRecommended(name) => name in kernel && kernel[name].recommended.None?
       case NoTtl(name, p) =>
         name in kernel && kernel[name].recommended.Some? && NeedsTtl(p)
         && kernel[name].recommended.value == AccessConfig(p, None)
       case _ => false
  }

  /** Everything wrong with a registry, issue by issue. */
  ghost predicate Justified(known: seq<Info>, metrics: seq<KernelMetric>, issue: Issue) {
    match issue
    case DuplicateKernelMetric(name) => Repeated(KernelNames(metrics), name)
    case NotInKnown(name) => name in KernelNames(metrics) && name !in Names(known)
    case _ => KnownIssue(known, KernelIndex(metrics), issue)
  }

  /** What is left of the index once every Known name found in it is deleted. */
  function Remaining(known: seq<Info>, kernel: map<string, KernelMetric>): map<string, KernelMetric> {
    kernel - set n | n in Names(known)
  }

  /** What is missing from the configs of an entry that was found. */
  function AccessIssues(km: KernelMetric, name: string): seq<Issue> {
    (if km.kernelAccess.None? then [NoKernelAccess(name)] else [])
    + (if km.recommended.None? then [NoRecommended(name)] else [])
    + (if km.recommended.Some? && NeedsTtl(km.recommended.value.pattern) && km.recommended.value.ttl.None?
       then [NoTtl(name, km.recommended.value.pattern)] else [])
  }

  /** Issues that one Known entry adds; `remaining` is the index as earlier deletions left it. */
  function EntryIssues(info: Info, remaining: map<string, KernelMetric>): seq<Issue> {
    if info.name in remaining then AccessIssues(remaining[info.name], info.name) else [MissingFromKernel(info.name)]
  }

  lemma RepeatedStep(names: seq<string>, last: string, name: string)
    ensures Repeated(names + [last], name) <==> Repeated(names, name) || (name == last && name in names)
  {
    var all := names + [last];
    if Repeated(names, name) {
      var i, j :| 0 <= i < j < |names| && names[i] == names[j] == name;
      assert all[i] == all[j] == name;
    }
    if name == last && name in names {
      var i :| 0 <= i < |names| && names[i] == name;
      assert all[i] == all[|names|] == name;
    }
    if Repeated(all, name) {
      var i, j :| 0 <= i < j < |all| && all[i] == all[j] == name;
      if j < |names| { assert names[i] == names[j] == name; }
    }
  }

  lemma KnownIssueStep(known: seq<Info>, i: nat, kernel: map<string, KernelMetric>, issue: Issue)
    requires i < |known|
    ensures KnownIssue(known[..i + 1], kernel, issue) <==>
            KnownIssue(known[..i], kernel, issue)
            || issue in EntryIssues(known[i], Remaining(known[..i], kernel))
  {
    assert Names(known[..i + 1]) == Names(known[..i]) + [known[i].name];
    RepeatedStep(Names(known[..i]), known[i].name, issue.name);
  }

  /** One issue for every occurrence of a name that was seen before, in registry order. */
  function DuplicateIssues(metrics: seq<KernelMetric>): seq<Issue> {
    if metrics == [] then []
    else
      var n := |metrics| - 1;
      DuplicateIssues(metrics[..n])
      + if metrics[n].name in KernelNames(metrics[..n]) then [DuplicateKernelMetric(metrics[n].name)] else []
  }

  /** The issues of every Known entry, in Known order, each found entry being gone for the later ones. */
  function KnownIssues(known: seq<Info>, kernel: map<string, KernelMetric>): seq<Issue> {
    if known == [] then []
    else
      var n := |known| - 1;
      KnownIssues(known[..n], kernel) + EntryIssues(known[n], Remaining(known[..n], kernel))
  }

  /** One issue for every leftover name, in any order. */
  ghost predicate LeftoverIssues(issues: seq<Issue>, remaining: map<string, KernelMetric>) {
    && |issues| == |remaining|
    && forall x :: x in issues <==> x.NotInKnown? && x.name in remaining
  }

  /** Duplicates are reported as often as there are registry entries beyond the distinct names. */
  lemma {:induction false} DuplicatesAreExcess(metrics: seq<KernelMetric>)
    ensures |DuplicateIssues(metrics)| + |KernelIndex(metrics)| == |metrics|
  {
    if metrics != [] {
      var init, last := metrics[..|metrics| - 1], metrics[|metrics| - 1];
      DuplicatesAreExcess(init);
      KernelIndexIsLast(init, last.name);
      assert KernelIndex(metrics).Keys == KernelIndex(init).Keys + {last.name};
      assert |KernelIndex(metrics)| == |KernelIndex(metrics).Keys| && |KernelIndex(init)| == |KernelIndex(init).Keys|;
      if last.name in KernelIndex(init) {
        assert KernelIndex(init).Keys + {last.name} == KernelIndex(init).Keys;
      }
    }
  }

  lemma {:induction false} DuplicateIssuesAreRepeats(metrics: seq<KernelMetric>, x: Issue)
    ensures x in DuplicateIssues(metrics) <==> x.DuplicateKernelMetric? && Repeated(KernelNames(metrics), x.name)
  {
    if metrics != [] {
      var init, last := metrics[..|metrics| - 1], metrics[|metrics| - 1];
      DuplicateIssuesAreRepeats(init, x);
      assert KernelNames(metrics) == KernelNames(init) + [last.name];
      RepeatedStep(KernelNames(init), last.name, x.name);
    }
  }

  /** In registry order: what a longer registry reports begins with what a shorter one reports. */
  lemma {:induction false} DuplicatesAreInOrder(metrics: seq<KernelMetric>, n: nat)
    requires n <= |metrics|
    ensures DuplicateIssues(metrics[..n]) <= DuplicateIssues(metrics)
  {
    if n == |metrics| {
      assert metrics[..n] == metrics;
    } else {
      var init := metrics[..|metrics| - 1];
      DuplicatesAreInOrder(init, n);
      assert init[..n] == metrics[..n];
    }
  }

  /** A name that occurs m times is reported m - 1 times. */
  lemma {:induction false} DuplicatesOfName(metrics: seq<KernelMetric>, name: string)
    ensures var m := multiset(KernelNames(metrics))[name];
            multiset(DuplicateIssues(metrics))[DuplicateKernelMetric(name)] == if m == 0 then 0 else m - 1
  {
    if metrics != [] {
      var init, last := metrics[..|metrics| - 1], metrics[|metrics| - 1];
      DuplicatesOfName(init, name);
      var names, repeated := KernelNames(init), last.name in KernelNames(init);
      assert KernelNames(metrics) == names + [last.name];
      assert multiset(KernelNames(metrics))[name] == multiset(names)[name] + if last.name == name then 1 else 0;
      assert repeated <==> multiset(names)[last.name] > 0;
      var added := if repeated then [DuplicateKernelMetric(last.name)] else [];
      assert DuplicateIssues(metrics) == DuplicateIssues(init) + added;
      assert multiset(added)[DuplicateKernelMetric(name)] == if repeated && last.name == name then 1 else 0;
    }
  }

  /** In Known order: what a longer Known list reports begins with what a shorter one reports. */
  lemma {:induction false} KnownIssuesAreInOrder(known: seq<Info>, n: nat, kernel: map<string, KernelMetric>)
    requires n <= |known|
    ensures KnownIssues(known[..n], kernel) <= KnownIssues(known, kernel)
  {
    if n == |known| {
      assert known[..n] == known;
    } else {
      var init := known[..|known| - 1];
      KnownIssuesAreInOrder(init, n, kernel);
      assert init[..n] == known[..n];
    }
  }

  /** What one Known entry adds: a missing entry one issue, a found one its config issues in a fixed order, once. */
  lemma IssuesOfEntry(known: seq<Info>, info: Info, kernel: map<string, KernelMetric>)
    ensures var n := info.name;
            var added := KnownIssues(known + [info], kernel)[|KnownIssues(known, kernel)|..];
            && |KnownIssues(known, kernel)| <= |KnownIssues(known + [info], kernel)|
            && (n !in kernel || n in Names(known) ==> added == [MissingFromKernel(n)])
            && (n in kernel && n !in Names(known) ==>
                  match (kernel[n].kernelAccess, kernel[n].recommended)
                  case (None, None) => added == [NoKernelAccess(n), NoRecommended(n)]
                  case (Some(_), None) => added == [NoRecommended(n)]
                  case (None, Some(rec)) =>
                    added == if rec.pattern in {Polled, Constrained} && rec.ttl == None
                             then [NoKernelAccess(n), NoTtl(n, rec.pattern)] else [NoKernelAccess(n)]
                  case (Some(_), Some(rec)) =>
                    added == if rec.pattern in {Polled, Constrained} && rec.ttl == None
                             then [NoTtl(n, rec.pattern)] else [])
  {
    var all := known + [info];
    assert all[..|known|] == known;
    assert KnownIssues(all, kernel)[|KnownIssues(known, kernel)|..] == EntryIssues(info, Remaining(known, kernel));
  }

  lemma {:induction false} KnownIssuesAreJustified(known: seq<Info>, kernel: map<string, KernelMetric>, x: Issue)
    ensures x in KnownIssues(known, kernel) <==> KnownIssue(known, kernel, x)
  {
    if known != [] {
      var n := |known| - 1;
      KnownIssuesAreJustified(known[..n], kernel, x);
      KnownIssueStep(known, n, kernel, x);
      assert known[..n + 1] == known;
    }
  }

  /** What one more Known entry adds to the issues and takes from the index. */
  lemma KnownIssuesSnoc(known: seq<Info>, i: nat, kernel: map<string, KernelMetric>)
    requires i < |known|
    ensures KnownIssues(known[..i + 1], kernel)
            == KnownIssues(known[..i], kernel) + EntryIssues(known[i], Remaining(known[..i], kernel))
    ensures Remaining(known[..i + 1], kernel) == Remaining(known[..i], kernel) - {known[i].name}
  {
    assert known[..i + 1][..i] == known[..i];
    assert Names(known[..i + 1]) == Names(known[..i]) + [known[i].name];
  }

  /** First pass: index the kernel registry and report names seen before. */
  method IndexKernel(metrics: seq<KernelMetric>) returns (issues: seq<Issue>, kernelMetrics: map<string, KernelMetric>)
    ensures kernelMetrics == KernelIndex(metrics)
    ensures issues == DuplicateIssues(metrics)
  {
    issues := [];
    kernelMetrics := map[];
    for i := 0 to |metrics|
      invariant kernelMetrics == KernelIndex(metrics[..i])
      invariant issues == DuplicateIssues(metrics[..i])
    {
      var km := metrics[i];
      assert metrics[..i + 1][..i] == metrics[..i];
      KernelIndexIsLast(metrics[..i], km.name);
      if km.name in kernelMetrics {
        issues := issues + [DuplicateKernelMetric(km.name)];
      }
      kernelMetrics := kernelMetrics[km.name := km];
    }
    assert metrics[..|metrics|] == metrics;
  }

  /** The config checks of an entry that was found. */
  method CheckAccess(km: KernelMetric, name: string) returns (issues: seq<Issue>)
    ensures issues == AccessIssues(km, name)
  {
    issues := [];
    if km.kernelAccess == None {
      issues := issues + [NoKernelAccess(name)];
    }
    if km.recommended == None {
      issues := issues + [NoRecommended(name)];
    }
    if km.recommended != None {
      var p := km.recommended.value.pattern;
      if (p == Polled || p == Constrained) && km.recommended.value.ttl == None {
        issues := issues + [NoTtl(name, p)];
      }
    }
  }

  /** Second pass: look every Known name up, deleting it from the index once it is found. */
  method CheckKnown(known: seq<Info>, kernel: map<string, KernelMetric>)
    returns (issues: seq<Issue>, kernelMetrics: map<string, KernelMetric>)
    ensures kernelMetrics == Remaining(known, kernel)
    ensures issues == KnownIssues(known, kernel)
  {
    issues := [];
    kernelMetrics := kernel;
    for i := 0 to |known|
      invariant kernelMetrics == Remaining(known[..i], kernel)
      invariant issues == KnownIssues(known[..i], kernel)
    {
      var info := known[i];
      KnownIssuesSnoc(known, i, kernel);
      if info.name !in kernelMetrics {
        issues := issues + [MissingFromKernel(info.name)];
        assert kernelMetrics - {info.name} == kernelMetrics;
        continue;
      }
      var found := CheckAccess(kernelMetrics[info.name], info.name);
      issues := issues + found;
      kernelMetrics := kernelMetrics - {info.name};
    }
    assert known[..|known|] == known;
  }

  /** Third pass: report what no Known entry deleted, in whatever order the map yields it. */
  method ReportLeftover(kernelMetrics: map<string, KernelMetric>) returns (issues: seq<Issue>)
    ensures LeftoverIssues(issues, kernelMetrics)
  {
    issues := [];
    var left := kernelMetrics.Keys;
    while left != {}
      invariant left <= kernelMetrics.Keys
      invariant |issues| + |left| == |kernelMetrics.Keys|
      invariant forall x :: x in issues <==> x.NotInKnown? && x.name in kernelMetrics.Keys - left
    {
      var name :| name in left;
      issues := issues + [NotInKnown(name)];
      left := left - {name};
    }
  }

  /** ValidateRegistry: the issues pass by pass, and what they amount to. */
  method ValidateRegistry(known: seq<Info>, reg: Registry) returns (issues: seq<Issue>)
    ensures var kernel := KernelIndex(reg.metrics);
            var inOrder := DuplicateIssues(reg.metrics) + KnownIssues(known, kernel);
            && inOrder <= issues
            && LeftoverIssues(issues[|inOrder|..], Remaining(known, kernel))
    ensures forall issue :: issue in issues <==> Justified(known, reg.metrics, issue)
    ensures issues == [] <==> Consistent(known, reg.metrics)
  {
    var kernel, remaining;
    var duplicates, perEntry, leftover;
    duplicates, kernel := IndexKernel(reg.metrics);
    perEntry, remaining := CheckKnown(known, kernel);
    leftover := ReportLeftover(remaining);
    issues := duplicates + perEntry + leftover;
    assert issues[|duplicates + perEntry|..] == leftover;
    forall issue ensures issue in issues <==> Justified(known, reg.metrics, issue) {
      assert issue in issues <==> issue in duplicates || issue in perEntry || issue in leftover;
      KernelIndexIsLast(reg.metrics, issue.name);
      DuplicateIssuesAreRepeats(reg.metrics, issue);
      KnownIssuesAreJustified(known, kernel, issue);
    }
    NoIssueMeansConsistent(known, reg.metrics);
    assert issues != [] ==> issues[0] in issues;
  }

  /** A registry that matches Known one to one, with every access config in place. */
  ghost predicate Consistent(known: seq<Info>, metrics: seq<KernelMetric>) {
    && Distinct(KernelNames(metrics))
    && Distinct(Names(known))
    && (forall n :: n in KernelNames(metrics) <==> n in Names(known))
    && forall km :: km in metrics ==>
                      && km.kernelAccess.Some?
                      && km.recommended.Some?
                      && (NeedsTtl(km.recommended.value.pattern) ==> km.recommended.value.ttl.Some?)
  }

  lemma RepeatedIsMember(names: seq<string>, n: string)
    ensures Repeated(names, n) ==> n in names
  {
  }

  lemma NotRepeatedIsDistinct(names: seq<string>)
    ensures Distinct(names) <==> forall n :: !Repeated(names, n)
  {
    if !Distinct(names) {
      var i, j :| 0 <= i < j < |names| && names[i] == names[j];
      assert Repeated(names, names[i]);
    }
  }

  /** No issue is reported exactly for the one-to-one, fully configured registries. */
  lemma NoIssueMeansConsistent(known: seq<Info>, metrics: seq<KernelMetric>)
    ensures (forall issue :: !Justified(known, metrics, issue)) <==> Consistent(known, metrics)
  {
    if forall issue :: !Justified(known, metrics, issue) {
      CleanIsConsistent(known, metrics);
    }
    if Consistent(known, metrics) {
      forall issue ensures !Justified(known, metrics, issue) {
        ConsistentIsClean(known, metrics, issue);
      }
    }
  }

  lemma CleanIsConsistent(known: seq<Info>, metrics: seq<KernelMetric>)
    requires forall issue :: !Justified(known, metrics, issue)
    ensures Consistent(known, metrics)
  {
    var names, kernel := KernelNames(metrics), KernelIndex(metrics);
    forall n ensures !Repeated(names, n) {
      assert !Justified(known, metrics, DuplicateKernelMetric(n));
    }
    NotRepeatedIsDistinct(names);
    forall n ensures n in Names(known) ==> n in kernel && !Repeated(Names(known), n) {
      assert !Justified(known, metrics, MissingFromKernel(n));
    }
    forall n ensures !Repeated(Names(known), n) {
      RepeatedIsMember(Names(known), n);
    }
    NotRepeatedIsDistinct(Names(known));
    forall n ensures n in names <==> n in Names(known) {
      KernelIndexIsLast(metrics, n);
      assert !Justified(known, metrics, NotInKnown(n));
    }
    forall i | 0 <= i < |metrics|
      ensures metrics[i].kernelAccess.Some? && metrics[i].recommended.Some?
      ensures NeedsTtl(metrics[i].recommended.value.pattern) ==> metrics[i].recommended.value.ttl.Some?
    {
      var n := metrics[i].name;
      KernelIndexOfDistinct(metrics, i);
      assert names[i] == n;
      assert !Justified(known, metrics, NoKernelAccess(n));
      assert !Justified(known, metrics, NoRecommended(n));
      assert !Justified(known, metrics, NoTtl(n, metrics[i].recommended.value.pattern));
    }
  }

  lemma ConsistentIsClean(known: seq<Info>, metrics: seq<KernelMetric>, issue: Issue)
    requires Consistent(known, metrics)
    ensures !Justified(known, metrics, issue)
  {
    var name := issue.name;
    NotRepeatedIsDistinct(KernelNames(metrics));
    NotRepeatedIsDistinct(Names(known));
    KernelIndexIsLast(metrics, name);
    assert name in KernelNames(metrics) <==> name in Names(known);
    assert !Repeated(KernelNames(metrics), name) && !Repeated(Names(known), name);
    if name in KernelIndex(metrics) {
      var km := KernelIndex(metrics)[name];
      assert km in metrics;
      assert km.kernelAccess.Some? && km.recommended.Some?;
      assert NeedsTtl(km.recommended.value.pattern) ==> km.recommended.value.ttl.Some?;
      if issue.NoTtl? { assert AccessConfig(issue.pattern, None).ttl.None?; }
    }
  }

  // ---------------------------------------------------------------- merge with Known

  const DEFAULT_ACCESS: AccessConfig := AccessConfig(Dynamic, None)

  /** The merged record of a Known entry: identity from Known, access from the kernel registry. */
  function Merged(info: Info, kernel: map<string, KernelMetric>): KernelMetric {
    var base := KernelMetric(info.name, info.description, Some(info.valueType), Some(info.category), None, None, "");
    if info.name in kernel then
      var km := kernel[info.name];
      base.(kernelAccess := km.kernelAccess, recommended := km.recommended, notes := km.notes)
    else
      base.(kernelAccess := Some(DEFAULT_ACCESS), recommended := Some(DEFAULT_ACCESS))
  }

  /** A metric that the kernel registry does not hold is DYNAMIC on both sides, without a TTL. */
  lemma MissingIsDynamic(info: Info, reg: Option<Registry>)
    requires reg.None? || info.name !in KernelNames(reg.value.metrics)
    ensures var km := Merged(info, KernelOf(reg));
            && km.kernelAccess == Some(AccessConfig(Dynamic, None))
            && km.recommended == Some(AccessConfig(Dynamic, None))
            && km.notes == ""
  {
    if reg.Some? { KernelIndexIsLast(reg.value.metrics, info.name); }
  }

  /** A metric that it holds takes both configs and the notes of the last entry of its name, absent ones included. */
  lemma RegisteredTakesLast(info: Info, reg: Registry, i: nat)
    requires i < |reg.metrics| && reg.metrics[i].name == info.name
    requires forall j :: i < j < |reg.metrics| ==> reg.metrics[j].name != info.name
    ensures var km := Merged(info, KernelOf(Some(reg)));
            && km.kernelAccess == reg.metrics[i].kernelAccess
            && km.recommended == reg.metrics[i].recommended
            && km.notes == reg.metrics[i].notes
  {
    assert KernelNames(reg.metrics)[i] == info.name;
    KernelIndexIsLast(reg.metrics, info.name);
  }

  /** Identity always comes from Known. */
  lemma IdentityIsKnown(info: Info, kernel: map<string, KernelMetric>)
    ensures var km := Merged(info, kernel);
            && km.name == info.name && km.description == info.description
            && km.valueType == Some(info.valueType) && km.category == Some(info.category)
  {
  }

  function KernelOf(reg: Option<Registry>): map<string, KernelMetric> {
    if reg.Some? then KernelIndex(reg.value.metrics) else map[]
  }

  /** buildFullRegistry: one merged record a Known entry, in Known order. */
  method BuildFullRegistry(known: seq<Info>, kernelRegistry: Option<Registry>) returns (reg: Registry)
    ensures |reg.metrics| == |known|
    ensures forall i :: 0 <= i < |known| ==> reg.metrics[i] == Merged(known[i], KernelOf(kernelRegistry))
    ensures kernelRegistry.Some? ==> reg.osRegistry == kernelRegistry.value.osRegistry
                                     && reg.osVersion == kernelRegistry.value.osVersion
    ensures kernelRegistry.None? ==> reg.osRegistry == reg.osVersion == ""
  {
    reg := Registry("", "", []);
    var kernelByName: map<string, KernelMetric> := map[];
    if kernelRegistry.Some? {
      reg := reg.(osRegistry := kernelRegistry.value.osRegistry, osVersion := kernelRegistry.value.osVersion);
      kernelByName := KernelRegistryByName(kernelRegistry.value);
    }
    for i := 0 to |known|
      invariant |reg.metrics| == i
      invariant forall j :: 0 <= j < i ==> reg.metrics[j] == Merged(known[j], kernelByName)
      invariant kernelRegistry.Some? ==> reg.osRegistry == kernelRegistry.value.osRegistry
                                         && reg.osVersion == kernelRegistry.value.osVersion
      invariant kernelRegistry.None? ==> reg.osRegistry == reg.osVersion == ""
    {
      var info := known[i];
      var km := KernelMetric(info.name, info.description, Some(info.valueType), Some(info.category), None, None, "");
      if info.name in kernelByName {
        var km2 := kernelByName[info.name];
        km := km.(kernelAccess := km2.kernelAccess);
        km := km.(recommended := km2.recommended);
        km := km.(notes := km2.notes);
      } else {
        km := km.(kernelAccess := Some(DEFAULT_ACCESS));
        km := km.(recommended := Some(DEFAULT_ACCESS));
      }
      reg := reg.(metrics := reg.metrics + [km]);
    }
  }

  /** Entries of one name always merge to one access config, so duplicates cannot disagree. */
  lemma MergedAccessIsByName(a: Info, b: Info, kernel: map<string, KernelMetric>)
    requires a.name == b.name
    ensures Merged(a, kernel).recommended == Merged(b, kernel).recommended
    ensures Merged(a, kernel).kernelAccess == Merged(b, kernel).kernelAccess
  {
  }

  // ---------------------------------------------------------------- fastest subscription

  const HUNDRED_MS: int := 100_000_000

  /** The recommended TTL of an entry in nanoseconds, if it has one. */
  function TtlOf(km: KernelMetric): Option<int> {
    if km.recommended.Some? && km.recommended.value.ttl.Some?
    then Some(Nanos(km.recommended.value.ttl.value))
    else None
  }

  ghost predicate HasTtl(metrics: seq<KernelMetric>, ttl: int) {
    exists i :: 0 <= i < |metrics| && TtlOf(metrics[i]) == Some(ttl)
  }

  lemma HasTtlStep(metrics: seq<KernelMetric>, i: nat, ttl: int)
    requires i < |metrics|
    ensures HasTtl(metrics[..i + 1], ttl) <==> HasTtl(metrics[..i], ttl) || TtlOf(metrics[i]) == Some(ttl)
  {
    var upto := metrics[..i + 1];
    if HasTtl(metrics[..i], ttl) {
      var j :| 0 <= j < i && TtlOf(metrics[..i][j]) == Some(ttl);
      assert upto[j] == metrics[..i][j];
    }
    assert upto[i] == metrics[i];
    if HasTtl(upto, ttl) {
      var j :| 0 <= j <= i && TtlOf(upto[j]) == Some(ttl);
      if j < i { assert metrics[..i][j] == upto[j]; }
    }
  }

  /** The least positive TTL, but never more than 100ms. */
  ghost predicate FastestInterval(metrics: seq<KernelMetric>, min: int) {
    && 0 < min <= 100_000_000
    && (forall ttl :: HasTtl(metrics, ttl) && ttl > 0 ==> min <= ttl)
    && (min == 100_000_000 || HasTtl(metrics, min))
  }

  method MinSubscribeInterval(metrics: seq<KernelMetric>) returns (min: int)
    ensures FastestInterval(metrics, min)
  {
    min := HUNDRED_MS;
    for i := 0 to |metrics|
      invariant 0 < min <= HUNDRED_MS
      invariant forall ttl :: HasTtl(metrics[..i], ttl) && ttl > 0 ==> min <= ttl
      invariant min == HUNDRED_MS || HasTtl(metrics[..i], min)
    {
      var rec := metrics[i].recommended;
      if rec.Some? && rec.value.ttl.Some? {
        var ttl := Nanos(rec.value.ttl.value);
        if ttl > 0 && ttl < min {
          min := ttl;
        }
      }
      forall t { HasTtlStep(metrics, i, t); }
    }
    assert metrics[..|metrics|] == metrics;
  }

  /** Every recommended TTL counts, whatever its pattern, and nothing else does. */
  lemma IntervalCoversEveryTtl(metrics: seq<KernelMetric>, min: int)
    requires FastestInterval(metrics, min)
    ensures forall i :: 0 <= i < |metrics| && metrics[i].recommended.Some? && metrics[i].recommended.value.ttl.Some? ==>
                          var ttl := Nanos(metrics[i].recommended.value.ttl.value);
                          ttl > 0 ==> min <= ttl
    ensures min != 100_000_000 ==>
              exists i :: 0 <= i < |metrics| && metrics[i].recommended.Some? && metrics[i].recommended.value.ttl.Some?
                          && min == Nanos(metrics[i].recommended.value.ttl.value)
  {
    forall i | 0 <= i < |metrics| && metrics[i].recommended.Some? && metrics[i].recommended.value.ttl.Some?
      ensures HasTtl(metrics, Nanos(metrics[i].recommended.value.ttl.value))
    {
      assert TtlOf(metrics[i]) == Some(Nanos(metrics[i].recommended.value.ttl.value));
    }
    if min != 100_000_000 {
      var i :| 0 <= i < |metrics| && TtlOf(metrics[i]) == Some(min);
      assert metrics[i].recommended.Some?;
    }
  }

  /** The advertised 100ms is a floor, as its comment says, only when no positive TTL is shorter. */
  lemma HundredMsIsNotAFloor(metrics: seq<KernelMetric>, min: int)
    requires FastestInterval(metrics, min)
    ensures min >= 100_000_000 <==> forall ttl :: HasTtl(metrics, ttl) ==> !(0 < ttl < 100_000_000)
  {
  }

  /** A registry that breaks the floor: a single TTL of five nanoseconds is the interval. */
  lemma FiveNanosecondInterval(name: string)
    ensures var km := KernelMetric(name, "", None, None, None, Some(AccessConfig(Polled, Some(Duration(0, 5)))), "");
            forall min :: FastestInterval([km], min) <==> min == 5
  {
    var km := KernelMetric(name, "", None, None, None, Some(AccessConfig(Polled, Some(Duration(0, 5)))), "");
    assert [km][0] == km && TtlOf(km) == Some(5);
    assert HasTtl([km], 5);
  }
}
