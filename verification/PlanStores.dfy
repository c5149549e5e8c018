/** The in-memory plan store, the write-through cache in front of it, and runs of both.

    A caller's plan comes with a ghost set naming the objects it is made of. */
module PlanStores {

  import opened Options
  import opened PlanModel
  import opened PlanStorage

  datatype StoreError = PlanIsNil | IDRequired | NotFound

  datatype Loaded = Found(plan: Plan) | Missing(error: StoreError)

  /** What a load gives, as a value. */
  datatype Answer = Value(plan: PlanValue) | Error(error: StoreError)

  function Lookup(contents: map<string, PlanValue>, id: string): Answer {
    if id == "" then Error(IDRequired)
    else if id in contents then Value(contents[id])
    else Error(NotFound)
  }

  /** A load result as a value, objs being what a loaded plan is made of. */
  ghost function Gives(r: Loaded, objs: set<object?>): Option<Answer>
    reads objs
  {
    match r
    case Missing(e) => Some(Error(e))
    case Found(plan) =>
      match ValueIn(plan, objs)
      case None => None
      case Some(v) => Some(Value(v))
  }

  function DeleteError(contents: map<string, PlanValue>, id: string): Option<StoreError> {
    match Lookup(contents, id)
    case Value(_) => None
    case Error(e) => Some(e)
  }

  // ----- Calls, as values -----

  datatype Op = SaveOp(plan: PlanValue) | LoadOp(id: string) | DeleteOp(id: string) | ClearCacheOp

  /** The wrapper over its store, as values. */
  datatype Pair = Pair(store: map<string, PlanValue>, cache: map<string, PlanValue>)

  function StoreStep(store: map<string, PlanValue>, op: Op): map<string, PlanValue> {
    match op
    case SaveOp(plan) => if plan.id == "" then store else store[plan.id := plan]
    case DeleteOp(id) => if Lookup(store, id).Value? then store - {id} else store
    case LoadOp(_) => store
    case ClearCacheOp => store
  }

  /** One call through the wrapper; dropped is what eviction removes. */
  function WrapperStep(p: Pair, op: Op, dropped: set<string>): Pair {
    var store := StoreStep(p.store, op);
    match op
    case SaveOp(plan) => Pair(store, if plan.id == "" then p.cache else p.cache[plan.id := plan] - dropped)
    case DeleteOp(id) => Pair(store, if Lookup(p.store, id).Value? then p.cache - {id} else p.cache)
    case LoadOp(id) =>
      Pair(store, if id in p.cache || Lookup(p.store, id).Error? then p.cache else p.cache[id := p.store[id]])
    case ClearCacheOp => Pair(store, map[])
  }

  function WrapperLoad(p: Pair, id: string): Answer {
    if id in p.cache then Value(p.cache[id]) else Lookup(p.store, id)
  }

  /** Every cached plan equals the stored plan of that ID. */
  ghost predicate Coherent(p: Pair) {
    && "" !in p.store
    && forall id :: id in p.cache ==> id in p.store && p.cache[id] == p.store[id]
  }

  lemma CoherentStep(p: Pair, op: Op, dropped: set<string>)
    requires Coherent(p)
    ensures Coherent(WrapperStep(p, op, dropped))
    ensures WrapperStep(p, op, dropped).store == StoreStep(p.store, op)
  {
  }

  // ----- The store -----

  class InMemoryPlanStore {
    var plans: map<string, Plan>
    ghost var contents: map<string, PlanValue>   // the stored plans as values
    ghost var Repr: set<object?>                 // what the stored plans are made of

    ghost predicate Valid()
      reads this, Repr
    {
      && this !in Repr && null !in Repr
      && "" !in plans
      && plans.Keys == contents.Keys
      && forall id :: id in plans ==> ValueIn(plans[id], Repr) == Some(contents[id])
    }

    constructor ()
      ensures Valid() && contents == map[] && Repr == {}
    {
      plans, contents, Repr := map[], map[], {};
    }

    /** Puts a plan of the store's own under an ID. */
    method Put(id: string, copy: Plan, ghost objs: set<object?>)
      requires Valid() && id != ""
      requires ValueIn(copy, objs).Some? && this !in objs && null !in objs
      modifies this
      ensures Valid() && Repr == old(Repr) + objs
      ensures contents == old(contents)[id := old(ValueIn(copy, objs)).value]
    {
      hide ValueIn;
      plans := plans[id := copy];
      contents := contents[id := ValueIn(copy, objs).value];
      Repr := Repr + objs;
      ValueInMore(copy, objs, Repr);
      forall k | k in plans && k != id ensures ValueIn(plans[k], Repr) == Some(contents[k]) {
        ValueInMore(plans[k], old(Repr), Repr);
      }
    }

    /** Stores a copy, made of objects of the store's own; the caller's plan is only stamped. */
    method Save(plan: Plan?, now: int, ghost objs: set<object?>) returns (error: Option<StoreError>)
      requires Valid() && this !in objs && objs !! Repr
      requires plan != null ==> ValueIn(plan, objs).Some?
      modifies this, plan
      ensures Valid() && fresh(Repr - old(Repr)) && objs !! Repr
      ensures error == if plan == null then Some(PlanIsNil) else if old(plan.id) == "" then Some(IDRequired) else None
      ensures error.Some? ==> contents == old(contents) && Repr == old(Repr) && (plan != null ==> unchanged(plan))
      ensures error.None? ==>
                && ValueIn(plan, objs) == Some(old(ValueIn(plan, objs)).value.(updatedAt := now))
                && contents == StoreStep(old(contents), SaveOp(ValueIn(plan, objs).value))
    {
      if plan == null {
        return Some(PlanIsNil);
      }
      if plan.id == "" {
        return Some(IDRequired);
      }
      IdOfValue(plan, objs);
      Stamp(plan, now, objs);
      var copy;
      ghost var made;
      copy, made := Clone(plan, objs);
      Put(plan.id, copy, made);
      return None;
    }

    /** Returns a copy, made of no object of the store's own. */
    method Load(planID: string) returns (r: Loaded, ghost objs: set<object?>)
      requires Valid()
      ensures Gives(r, objs) == Some(Lookup(contents, planID))
      ensures fresh(objs)
    {
      objs := {};
      if planID == "" {
        return Missing(IDRequired), objs;
      }
      if planID !in plans {
        return Missing(NotFound), objs;
      }
      var copy;
      copy, objs := Clone(plans[planID], Repr);
      r := Found(copy);
    }

    /** Takes a plan out. */
    method Remove(planID: string)
      requires Valid()
      modifies `plans, `contents
      ensures Valid() && contents == old(contents) - {planID}
    {
      plans := plans - {planID};
      contents := contents - {planID};
    }

    method Delete(planID: string) returns (error: Option<StoreError>)
      requires Valid()
      modifies `plans, `contents
      ensures Valid()
      ensures error == DeleteError(old(contents), planID)
      ensures contents == StoreStep(old(contents), DeleteOp(planID))
    {
      if planID == "" {
        return Some(IDRequired);
      }
      if planID !in plans {
        return Some(NotFound);
      }
      Remove(planID);
      return None;
    }
  }

  // ----- The wrapper -----

  datatype CachedPlan = CachedPlan(plan: Plan, timestamp: int)

  /** Eviction drops one entry, none older, when there are more than the cache may hold, and else nothing. */
  ghost predicate Evicts(stamps: map<string, int>, cacheSize: int, dropped: set<string>) {
    if |stamps| <= cacheSize then dropped == {}
    else exists oldest ::
           oldest in stamps && dropped == {oldest} && forall id :: id in stamps ==> stamps[oldest] <= stamps[id]
  }

  class PlanStoreWrapper {
    const store: InMemoryPlanStore
    const cacheSize: int
    var cache: map<string, CachedPlan>
    ghost var cached: map<string, PlanValue>   // the cached plans as values
    ghost var stamps: map<string, int>         // when each was cached
    ghost var Repr: set<object?>               // what the cached plans are made of

    /** The stored and the cached plans, as values. */
    ghost function State(): Pair
      reads this, store
    {
      Pair(store.contents, cached)
    }

    ghost predicate Valid()
      reads this, store, store.Repr, Repr
    {
      && store.Valid()
      && CacheValid()
      && this !in store.Repr && store !in Repr
      && Coherent(State())
    }

    ghost predicate CacheValid()
      reads this, Repr
    {
      && this !in Repr && null !in Repr && cacheSize > 0
      && cache.Keys == cached.Keys == stamps.Keys
      && (forall id :: id in cache ==> ValueIn(cache[id].plan, Repr) == Some(cached[id]))
      && (forall id :: id in cache ==> cache[id].timestamp == stamps[id])
    }

    constructor (store: InMemoryPlanStore, cacheSize: int)
      requires store.Valid()
      ensures Valid() && this.store == store && cache == map[] && Repr == {}
      ensures this.cacheSize == if cacheSize <= 0 then 100 else cacheSize
    {
      this.store := store;
      this.cacheSize := if cacheSize <= 0 then 100 else cacheSize;
      cache, cached, stamps, Repr := map[], map[], map[], {};
    }

    /** Lets the cache own more objects. */
    ghost method Absorb(objs: set<object?>)
      requires CacheValid() && this !in objs && null !in objs
      modifies `Repr
      ensures CacheValid() && Repr == old(Repr) + objs
    {
      hide ValueIn;
      Repr := Repr + objs;
      forall k | k in cache ensures ValueIn(cache[k].plan, Repr) == Some(cached[k]) {
        ValueInMore(cache[k].plan, old(Repr), Repr);
      }
    }

    /** Caches a plan of the wrapper's own under an ID. */
    method Put(id: string, copy: Plan, at: int, ghost objs: set<object?>)
      requires CacheValid()
      requires ValueIn(copy, objs).Some? && this !in objs && null !in objs
      modifies this
      ensures CacheValid() && Repr == old(Repr) + objs
      ensures cached == old(cached)[id := old(ValueIn(copy, objs)).value]
      ensures stamps == old(stamps)[id := at]
    {
      hide ValueIn;
      ghost var value := ValueIn(copy, objs).value;
      Absorb(objs);
      ValueInMore(copy, objs, Repr);
      cache := cache[id := CachedPlan(copy, at)];
      cached, stamps := cached[id := value], stamps[id := at];
    }

    /** Caches a copy of a plan, stamped with the time. */
    method PutCopy(id: string, plan: Plan, at: int, ghost objs: set<object?>)
      requires CacheValid() && ValueIn(plan, objs).Some? && this !in objs
      modifies this
      ensures CacheValid() && fresh(Repr - old(Repr))
      ensures ValueIn(plan, objs) == old(ValueIn(plan, objs))
      ensures cached == old(cached)[id := old(ValueIn(plan, objs)).value]
      ensures stamps == old(stamps)[id := at]
    {
      var copy;
      ghost var made;
      copy, made := Clone(plan, objs);
      Put(id, copy, at, made);
    }

    /** Takes plans out of the cache. */
    method Drop(ids: set<string>)
      requires CacheValid()
      modifies `cache, `cached, `stamps
      ensures CacheValid() && cache == old(cache) - ids
      ensures cached == old(cached) - ids && stamps == old(stamps) - ids
    {
      hide ValueIn;
      cache := cache - ids;
      cached, stamps := cached - ids, stamps - ids;
      forall id | id in cache ensures ValueIn(cache[id].plan, Repr) == Some(cached[id]) {
        assert id in old(cache) && cache[id] == old(cache)[id];
        assert ValueIn(cache[id].plan, Repr) == old(ValueIn(cache[id].plan, Repr));
      }
    }

    /** The ID of an oldest entry; ties fall to the map's iteration order. */
    method Oldest() returns (oldestID: string)
      requires cache != map[]
      ensures oldestID in cache
      ensures forall id :: id in cache ==> cache[oldestID].timestamp <= cache[id].timestamp
    {
      var oldestTime, first := 0, true;
      oldestID := "";
      var rest := cache.Keys;
      while rest != {}
        invariant rest <= cache.Keys
        invariant first <==> rest == cache.Keys
        invariant !first ==> oldestID in cache && oldestTime == cache[oldestID].timestamp
        invariant forall id :: id in cache && id !in rest ==> !first && oldestTime <= cache[id].timestamp
        decreases rest
      {
        var id :| id in rest;
        if first || cache[id].timestamp < oldestTime {
          oldestID, oldestTime, first := id, cache[id].timestamp, false;
        }
        rest := rest - {id};
      }
    }

    lemma SameSize()
      requires CacheValid()
      ensures |cache| == |stamps|
    {
      assert |cache| == |cache.Keys| && |stamps| == |stamps.Keys|;
    }

    /** Drops one oldest entry when there are too many. */
    method EvictOldCache() returns (ghost dropped: set<string>)
      requires CacheValid()
      modifies `cache, `cached, `stamps
      ensures CacheValid()
      ensures cache == old(cache) - dropped && cached == old(cached) - dropped && stamps == old(stamps) - dropped
      ensures Evicts(old(stamps), cacheSize, dropped)
    {
      hide ValueIn;
      dropped := {};
      SameSize();
      if |cache| > cacheSize {
        var oldestID := Oldest();
        dropped := {oldestID};
        assert Evicts(stamps, cacheSize, dropped);
        hide Evicts;
        Drop({oldestID});
      }
    }

    /** Caches a plan just saved, then evicts. */
    method UpdateCache(plan: Plan, at: int, ghost objs: set<object?>) returns (ghost dropped: set<string>)
      requires CacheValid() && ValueIn(plan, objs).Some? && this !in objs
      modifies this
      ensures CacheValid() && fresh(Repr - old(Repr))
      ensures ValueIn(plan, objs) == old(ValueIn(plan, objs))
      ensures cached == old(cached[plan.id := ValueIn(plan, objs).value]) - dropped
      ensures var all := old(stamps)[plan.id := at];
        Evicts(all, cacheSize, dropped) && stamps == all - dropped
    {
      hide ValueIn, CacheValid, Evicts;
      PutCopy(plan.id, plan, at, objs);
      dropped := EvictOldCache();
    }

    /** Saves through to the store; dropped names what eviction removed. */
    method Save(plan: Plan?, now: int, at: int, ghost objs: set<object?>)
      returns (error: Option<StoreError>, ghost dropped: set<string>)
      requires Valid() && this !in objs && store !in objs && objs !! Repr && objs !! store.Repr
      requires plan != null ==> ValueIn(plan, objs).Some?
      modifies this, store, plan
      ensures Valid() && fresh(Repr - old(Repr)) && fresh(store.Repr - old(store.Repr))
      ensures objs !! Repr && objs !! store.Repr
      ensures error == if plan == null then Some(PlanIsNil) else if old(plan.id) == "" then Some(IDRequired) else None
      ensures error.Some? ==> State() == old(State()) && (plan != null ==> unchanged(plan))
      ensures error.None? ==>
                && ValueIn(plan, objs) == Some(old(ValueIn(plan, objs)).value.(updatedAt := now))
                && State() == WrapperStep(old(State()), SaveOp(ValueIn(plan, objs).value), dropped)
      ensures error.None? ==>
                var all := old(stamps)[plan.id := at];
                Evicts(all, cacheSize, dropped) && stamps == all - dropped
    {
      hide ValueIn, CacheValid, InMemoryPlanStore.Valid, Evicts;
      dropped := {};
      if plan != null { IdOfValue(plan, objs); }
      error := store.Save(plan, now, objs);
      if error.Some? {
        return;
      }
      IdOfValue(plan, objs);
      dropped := UpdateCache(plan, at, objs);
      CoherentStep(old(State()), SaveOp(ValueIn(plan, objs).value), dropped);
    }

    /** Answers what the store alone would answer, whatever is cached. */
    method Load(planID: string, at: int) returns (r: Loaded, ghost objs: set<object?>)
      requires Valid()
      modifies this
      ensures Valid() && fresh(Repr - old(Repr))
      ensures State() == WrapperStep(old(State()), LoadOp(planID), {})
      ensures Gives(r, objs) == Some(WrapperLoad(old(State()), planID)) == Some(Lookup(store.contents, planID))
      ensures fresh(objs) && objs !! Repr && objs !! store.Repr
      ensures stamps == if r.Found? && planID !in old(cache) then old(stamps)[planID := at] else old(stamps)
    {
      hide ValueIn;
      if planID in cache {
        var hit;
        hit, objs := Clone(cache[planID].plan, Repr);
        return Found(hit), objs;
      }
      r, objs := LoadMiss(planID, at);
    }

    /** The answer of the store, which is then cached. */
    method LoadMiss(planID: string, at: int) returns (r: Loaded, ghost objs: set<object?>)
      requires Valid() && planID !in cache
      modifies this
      ensures Valid() && fresh(Repr - old(Repr))
      ensures State() == WrapperStep(old(State()), LoadOp(planID), {})
      ensures Gives(r, objs) == Some(Lookup(store.contents, planID))
      ensures fresh(objs) && objs !! Repr && objs !! store.Repr
      ensures stamps == if r.Found? then old(stamps)[planID := at] else old(stamps)
    {
      hide ValueIn, CacheValid, InMemoryPlanStore.Valid;
      r, objs := store.Load(planID);
      match r {
        case Missing(_) =>
        case Found(plan) =>
          assert CacheValid();
          PutCopy(planID, plan, at, objs);
          assert store.Valid();
      }
    }

    method Delete(planID: string) returns (error: Option<StoreError>)
      requires Valid()
      modifies this, store
      ensures Valid() && Repr == old(Repr) && store.Repr == old(store.Repr)
      ensures error == DeleteError(old(store.contents), planID)
      ensures State() == WrapperStep(old(State()), DeleteOp(planID), {})
      ensures error.None? ==> planID !in store.contents && planID !in cache
    {
      hide ValueIn, Coherent, InMemoryPlanStore.Valid;
      CoherentStep(State(), DeleteOp(planID), {});
      error := store.Delete(planID);
      if error.None? {
        Drop({planID});
      }
    }

    method ClearCache()
      requires Valid()
      modifies `cache, `cached, `stamps
      ensures Valid() && cache == map[]
      ensures State() == WrapperStep(old(State()), ClearCacheOp, {})
    {
      hide ValueIn;
      Drop(cache.Keys);
    }
  }

  // ----- Runs -----

  function StoreRun(store: map<string, PlanValue>, ops: seq<Op>): map<string, PlanValue> {
    if ops == [] then store else StoreStep(StoreRun(store, ops[..|ops| - 1]), ops[|ops| - 1])
  }

  function WrapperRun(p: Pair, ops: seq<Op>, drops: seq<set<string>>): Pair
    requires |ops| == |drops|
  {
    if ops == [] then p
    else WrapperStep(WrapperRun(p, ops[..|ops| - 1], drops[..|drops| - 1]), ops[|ops| - 1], drops[|drops| - 1])
  }

  /** However eviction chooses, a run through the wrapper leaves the store as a run on the store alone
      would, caches only what is stored, and answers every load like the store. */
  lemma {:induction false} CacheIsTransparent(store: map<string, PlanValue>, ops: seq<Op>, drops: seq<set<string>>)
    requires |ops| == |drops| && "" !in store
    ensures var p := WrapperRun(Pair(store, map[]), ops, drops);
      && p.store == StoreRun(store, ops)
      && Coherent(p)
      && (forall id :: WrapperLoad(p, id) == Lookup(p.store, id))
  {
    if ops != [] {
      var n := |ops| - 1;
      CacheIsTransparent(store, ops[..n], drops[..n]);
      CoherentStep(WrapperRun(Pair(store, map[]), ops[..n], drops[..n]), ops[n], drops[n]);
    }
  }

  // ----- What runs answer, from the list of calls alone -----

  /** Call k is the last to save a plan of that ID, and no later call deletes it. */
  ghost predicate LastSave(ops: seq<Op>, id: string, k: int) {
    && 0 <= k < |ops| && ops[k].SaveOp? && ops[k].plan.id == id
    && forall j :: k < j < |ops| ==> !(ops[j].SaveOp? && ops[j].plan.id == id) && ops[j] != DeleteOp(id)
  }

  lemma LastSaveFront(ops: seq<Op>, id: string)
    requires ops != []
    ensures var n := |ops| - 1;
      forall k :: LastSave(ops, id, k) <==>
        if k == n then ops[n].SaveOp? && ops[n].plan.id == id
        else LastSave(ops[..n], id, k) && !(ops[n].SaveOp? && ops[n].plan.id == id) && ops[n] != DeleteOp(id)
  {
  }

  /** After any run on an empty store, a load gives the plan that was last saved under the ID, unless it
      was deleted since, and is refused for the empty ID. */
  lemma {:induction false} StoreAnswers(ops: seq<Op>, id: string)
    ensures id == "" ==> Lookup(StoreRun(map[], ops), id) == Error(IDRequired)
    ensures forall k :: LastSave(ops, id, k) && id != "" ==> Lookup(StoreRun(map[], ops), id) == Value(ops[k].plan)
    ensures id != "" && (forall k :: !LastSave(ops, id, k)) ==> Lookup(StoreRun(map[], ops), id) == Error(NotFound)
    decreases |ops|
  {
    if ops != [] && id != "" {
      var n := |ops| - 1;
      StoreAnswers(ops[..n], id);
      LastSaveFront(ops, id);
      hide LastSave;
      var before := StoreRun(map[], ops[..n]);
      if ops[n].SaveOp? && ops[n].plan.id == id {
        assert LastSave(ops, id, n);
      } else if ops[n] == DeleteOp(id) {
      } else {
        OtherIds(before, ops[n], id);
      }
    }
  }

  lemma OtherIds(store: map<string, PlanValue>, op: Op, id: string)
    requires !(op.SaveOp? && op.plan.id == id) && op != DeleteOp(id)
    ensures Lookup(StoreStep(store, op), id) == Lookup(store, id)
  {
  }

  /** A delete succeeds exactly when there is such a plan. */
  lemma DeleteAnswers(ops: seq<Op>, id: string)
    ensures id == "" ==> DeleteError(StoreRun(map[], ops), id) == Some(IDRequired)
    ensures id != "" ==>
              DeleteError(StoreRun(map[], ops), id) == if exists k :: LastSave(ops, id, k) then None else Some(NotFound)
  {
    StoreAnswers(ops, id);
    hide LastSave, StoreRun;
  }

  /** Through the wrapper over an empty store the answers are the same, whatever eviction drops. */
  lemma WrapperAnswers(ops: seq<Op>, drops: seq<set<string>>, id: string)
    requires |ops| == |drops|
    ensures var answer := WrapperLoad(WrapperRun(Pair(map[], map[]), ops, drops), id);
      && (id == "" ==> answer == Error(IDRequired))
      && (forall k :: LastSave(ops, id, k) && id != "" ==> answer == Value(ops[k].plan))
      && (id != "" && (forall k :: !LastSave(ops, id, k)) ==> answer == Error(NotFound))
  {
    CacheIsTransparent(map[], ops, drops);
    StoreAnswers(ops, id);
    hide LastSave, StoreRun, WrapperRun, Lookup, WrapperLoad, Coherent;
  }
}
