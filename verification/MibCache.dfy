/** The name-to-MIB cache: sequential use, and any interleaving of concurrent Resolve calls. */
module MibCache {
  import opened Base
  import opened Decode

  type Mib = seq<int>

  /** Name resolution by the kernel, taken to be deterministic. */
  type Resolver = string -> Result<Mib, string>

  // ---------------------------------------------------------------- one caller at a time

  ghost predicate Faithful(cache: map<string, Mib>, resolver: Resolver) {
    forall name :: name in cache ==> resolver(name) == Ok(cache[name])
  }

  function CountResolvable(names: seq<string>, resolver: Resolver): nat {
    if names == [] then 0
    else CountResolvable(names[..|names| - 1], resolver) + if resolver(names[|names| - 1]).Ok? then 1 else 0
  }

  /** It is the number of positions whose name resolves. */
  lemma {:induction false} CountIsOfPositions(names: seq<string>, resolver: Resolver)
    ensures CountResolvable(names, resolver) == CountIf(names, (name: string) => resolver(name).Ok?)
  {
    CountIfLast(names, (name: string) => resolver(name).Ok?);
    if names != [] { CountIsOfPositions(names[..|names| - 1], resolver); }
  }

  /** A read without any cache: resolve the name, then read that MIB. */
  function UncachedRead(name: string, resolver: Resolver, read: Mib -> Result<seq<byte>, string>)
    : Result<seq<byte>, string>
  {
    match resolver(name)
    case Err(message) => Err(message)
    case Ok(mib) => read(mib)
  }

  class Cache {
    const resolver: Resolver
    var cache: map<string, Mib>

    ghost predicate Valid()
      reads this
    {
      Faithful(cache, resolver)
    }

    constructor (resolver: Resolver)
      ensures Valid() && this.resolver == resolver && cache == map[]
    {
      this.resolver := resolver;
      cache := map[];
    }

    /** A hit answers from the cache; a miss asks the kernel and remembers only a success. */
    method Resolve(name: string) returns (r: Result<Mib, string>)
      requires Valid()
      modifies this
      ensures Valid() && r == resolver(name)
      ensures cache == if r.Ok? then old(cache)[name := r.value] else old(cache)
    {
      if name in cache {
        return Ok(cache[name]);
      }
      r := resolver(name);
      if r.Err? {
        return;
      }
      cache := cache[name := r.value];
    }

    /** Resolves every name, counting the positions that resolve and skipping the others silently. */
    method Warm(names: seq<string>) returns (resolved: nat)
      requires Valid()
      modifies this
      ensures Valid() && resolved == CountResolvable(names, resolver)
      ensures forall name :: name in cache <==> name in old(cache) || (name in names && resolver(name).Ok?)
    {
      resolved := 0;
      for i := 0 to |names|
        invariant Valid() && resolved == CountResolvable(names[..i], resolver)
        invariant forall name :: name in cache <==> name in old(cache) || (name in names[..i] && resolver(name).Ok?)
      {
        assert names[..i + 1] == names[..i] + [names[i]];
        var r := Resolve(names[i]);
        if r.Ok? {
          resolved := resolved + 1;
        }
      }
      assert names[..|names|] == names;
    }

    method GetRaw(name: string, read: Mib -> Result<seq<byte>, string>) returns (r: Result<seq<byte>, string>)
      requires Valid()
      modifies this
      ensures Valid() && r == UncachedRead(name, resolver, read)
      ensures resolver(name).Err? ==> r == Err(resolver(name).error)
      ensures resolver(name).Ok? ==> r == read(resolver(name).value)
    {
      var mib := Resolve(name);
      match mib {
        case Err(message) => r := Err(message);
        case Ok(m) => r := read(m);
      }
    }
  }

  // ---------------------------------------------------------------- many callers at once

  /** Where a Resolve call stands; the lock is free between any two of these points. */
  datatype Call =
    | Looking(name: string)
    | Asking(name: string)
    | Storing(name: string, mib: Mib)
    | Done(name: string, result: Result<Mib, string>)

  datatype State = State(cache: map<string, Mib>, calls: map<nat, Call>)

  /** In `Ask`, `fault` is a failure of this one kernel call, whatever the name would otherwise resolve to. */
  datatype Step =
    | Begin(id: nat, name: string)
    | Look(id: nat)
    | Ask(id: nat, fault: Option<string>)
    | Store(id: nat)

  predicate Enabled(s: State, step: Step) {
    match step
    case Begin(id, _) => id !in s.calls
    case Look(id) => id in s.calls && s.calls[id].Looking?
    case Ask(id, _) => id in s.calls && s.calls[id].Asking?
    case Store(id) => id in s.calls && s.calls[id].Storing?
  }

  function Apply(s: State, step: Step, resolver: Resolver): State
    requires Enabled(s, step)
  {
    match step
    case Begin(id, name) => s.(calls := s.calls[id := Looking(name)])
    case Look(id) =>
      var name := s.calls[id].name;
      s.(calls := s.calls[id := if name in s.cache then Done(name, Ok(s.cache[name])) else Asking(name)])
    case Ask(id, fault) =>
      var name := s.calls[id].name;
      var reply := if fault.Some? then Err(fault.value) else resolver(name);
      s.(calls := s.calls[id := match reply case Ok(mib) => Storing(name, mib) case Err(e) => Done(name, Err(e))])
    case Store(id) =>
      var Storing(name, mib) := s.calls[id];
      State(s.cache[name := mib], s.calls[id := Done(name, Ok(mib))])
  }

  function Exec(s: State, steps: seq<Step>, resolver: Resolver): Option<State> {
    if steps == [] then Some(s)
    else
      match Exec(s, steps[..|steps| - 1], resolver)
      case None => None
      case Some(t) =>
        if Enabled(t, steps[|steps| - 1]) then Some(Apply(t, steps[|steps| - 1], resolver)) else None
  }

  ghost predicate CallInv(s: State, call: Call, resolver: Resolver, faults: bool) {
    match call
    case Storing(name, mib) => resolver(name) == Ok(mib)
    case Done(name, Ok(mib)) => resolver(name) == Ok(mib) && name in s.cache
    case Done(name, Err(e)) => faults || resolver(name) == Err(e)
    case _ => true
  }

  /** `faults` says whether single kernel calls may fail. */
  ghost predicate Inv(s: State, resolver: Resolver, faults: bool) {
    && Faithful(s.cache, resolver)
    && forall id :: id in s.calls ==> CallInv(s, s.calls[id], resolver, faults)
  }

  ghost predicate NoFaults(steps: seq<Step>) {
    forall i :: 0 <= i < |steps| && steps[i].Ask? ==> steps[i].fault.None?
  }

  lemma StepKeeps(s: State, step: Step, resolver: Resolver, faults: bool)
    requires Inv(s, resolver, faults) && Enabled(s, step)
    requires step.Ask? && step.fault.Some? ==> faults
    ensures Inv(Apply(s, step, resolver), resolver, faults)
    ensures var t := Apply(s, step, resolver);
            forall name :: name in s.cache ==> name in t.cache && t.cache[name] == s.cache[name]
  {
    var t := Apply(s, step, resolver);
    forall id | id in t.calls ensures CallInv(t, t.calls[id], resolver, faults) {
      if id in s.calls { assert CallInv(s, s.calls[id], resolver, faults); }
    }
  }

  /**
   * Under every interleaving, faults or not: entries agree with name resolution (so failures are never
   * cached), and no entry is ever dropped or changed.
   */
  lemma {:induction false} EntriesAreStable(s: State, steps: seq<Step>, resolver: Resolver)
    requires Inv(s, resolver, true) && Exec(s, steps, resolver).Some?
    ensures var t := Exec(s, steps, resolver).value;
            && Inv(t, resolver, true)
            && forall name :: name in s.cache ==> name in t.cache && t.cache[name] == s.cache[name]
  {
    if steps != [] {
      var init := steps[..|steps| - 1];
      EntriesAreStable(s, init, resolver);
      StepKeeps(Exec(s, init, resolver).value, steps[|steps| - 1], resolver, true);
    }
  }

  /** Without faults every finished call answers what uncached resolution answers, success or failure. */
  lemma {:induction false} CallsAgreeWithKernel(steps: seq<Step>, resolver: Resolver)
    requires NoFaults(steps) && Exec(State(map[], map[]), steps, resolver).Some?
    ensures var t := Exec(State(map[], map[]), steps, resolver).value;
            && Inv(t, resolver, false)
            && forall id :: id in t.calls && t.calls[id].Done? ==> t.calls[id].result == resolver(t.calls[id].name)
  {
    if steps != [] {
      var init := steps[..|steps| - 1];
      CallsAgreeWithKernel(init, resolver);
      StepKeeps(Exec(State(map[], map[]), init, resolver).value, steps[|steps| - 1], resolver, false);
    }
    var t := Exec(State(map[], map[]), steps, resolver).value;
    forall id | id in t.calls && t.calls[id].Done? ensures t.calls[id].result == resolver(t.calls[id].name) {
      assert CallInv(t, t.calls[id], resolver, false);
    }
  }

  /**
   * One call with nobody else about, step by step: a hit answers the entry; a miss asks the kernel, answers what it
   * replies, and remembers the reply only if it is a MIB.
   */
  lemma SoloCall(s: State, id: nat, name: string, fault: Option<string>, resolver: Resolver)
    requires id !in s.calls
    ensures var looked := After2(s, Begin(id, name), Look(id), resolver);
            && looked.Some?
            && (name in s.cache ==>
                  looked.value == State(s.cache, s.calls[id := Done(name, Ok(s.cache[name]))]))
            && (name !in s.cache ==>
                  && Enabled(looked.value, Ask(id, fault))
                  && var asked := Apply(looked.value, Ask(id, fault), resolver);
                     match if fault.Some? then Err(fault.value) else resolver(name)
                     case Err(e) => asked == State(s.cache, s.calls[id := Done(name, Err(e))])
                     case Ok(mib) =>
                       && Enabled(asked, Store(id))
                       && Apply(asked, Store(id), resolver)
                          == State(s.cache[name := mib], s.calls[id := Done(name, Ok(mib))]))
  {
    var begun := Apply(s, Begin(id, name), resolver);
    var looked := Apply(begun, Look(id), resolver);
    assert looked.calls == s.calls[id := looked.calls[id]];
  }

  /** Two steps in a row. */
  function After2(s: State, first: Step, second: Step, resolver: Resolver): Option<State> {
    if !Enabled(s, first) then None
    else if !Enabled(Apply(s, first, resolver), second) then None
    else Some(Apply(Apply(s, first, resolver), second, resolver))
  }

  /** Once a name is cached, a call that has not looked yet cannot fail, even if the kernel would. */
  lemma {:induction false} CachedNamesNeverFail(s: State, steps: seq<Step>, resolver: Resolver, id: nat)
    requires Inv(s, resolver, true) && Exec(s, steps, resolver).Some?
    requires id in s.calls && s.calls[id].Looking? && s.calls[id].name in s.cache
    ensures var t := Exec(s, steps, resolver).value;
            && id in t.calls
            && t.calls[id] in {s.calls[id], Done(s.calls[id].name, resolver(s.calls[id].name))}
  {
    if steps != [] {
      var init := steps[..|steps| - 1];
      CachedNamesNeverFail(s, init, resolver, id);
      EntriesAreStable(s, init, resolver);
    }
  }
}
