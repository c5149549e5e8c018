/** What deep copies do and do not separate. A plan and its copy have in common exactly the cells that
    step results and metadata values refer to, and only through these does changing one change the other. */
module PlanSharing {

  import opened Options
  import opened PlanModel
  import opened PlanStorage
  import opened PlanStores

  ghost function Contents(cells: set<Cell>): map<Cell, string>
    reads cells
  {
    map cell | cell in cells :: cell.contents
  }

  /** A plan as a reader sees it, down to the contents of the cells its values refer to. */
  ghost function View(p: Plan, repr: set<object?>, cells: set<Cell>): Option<(PlanValue, map<Cell, string>)>
    reads repr, cells
  {
    match ValueIn(p, repr)
    case None => None
    case Some(v) => if LooseOf(v) == cells then Some((v, Contents(cells))) else None
  }

  /** A plan and its copy have nothing in common exactly when no result and no metadata value is a reference. */
  lemma SeparateIff(p: Plan, objs: set<object?>, q: Plan, repr: set<object?>)
    requires ValueIn(p, objs).Some? && ValueIn(p, objs) == ValueIn(q, repr) && objs !! repr
    ensures Reach(p) * Reach(q) == LooseOf(ValueIn(p, objs).value)
    ensures Reach(p) * Reach(q) == {} <==> LooseOf(ValueIn(p, objs).value) == {}
  {
    Shares(p, objs, q, repr);
    hide Reach, LooseOf, PlanValueOf, PlanObjects;
  }

  /** Whatever is done to a plan short of changing such a cell, its copy looks the same. */
  twostate lemma CopyKeepsView(objs: set<object?>, q: Plan, repr: set<object?>, cells: set<Cell>)
    requires objs !! repr
    requires null !in repr && unchanged(repr - objs) && unchanged(cells)
    ensures View(q, repr, cells) == old(View(q, repr, cells))
  {
    hide *;
    assert repr - objs == repr;
  }

  /** Assigning to a cell leaves the values of all plans as they are: these only name cells. */
  method SetContents(cell: Cell, contents: string, ghost p: Plan, ghost objs: set<object?>,
                     ghost q: Plan, ghost repr: set<object?>)
    modifies cell
    ensures cell.contents == contents
    ensures ValueIn(p, objs) == old(ValueIn(p, objs)) && ValueIn(q, repr) == old(ValueIn(q, repr))
  {
    NoCells(p, cell);
    NoCells(q, cell);
    hide PlanObjects, PlanValueOf;
    cell.contents := contents;
  }

  /** Changing such a cell makes both look different. */
  method ChangeCell(cell: Cell, contents: string, ghost p: Plan, ghost objs: set<object?>,
                    ghost q: Plan, ghost repr: set<object?>, ghost cells: set<Cell>)
    requires View(p, objs, cells).Some? && View(q, repr, cells).Some?
    requires cell in cells && contents != cell.contents
    modifies cell
    ensures View(p, objs, cells) != old(View(p, objs, cells))
    ensures View(q, repr, cells) != old(View(q, repr, cells))
  {
    hide ValueIn, LooseOf;
    ghost var before := Contents(cells);
    assert before[cell] == cell.contents;
    SetContents(cell, contents, p, objs, q, repr);
    assert Contents(cells)[cell] == contents;
  }

  // ----- What store and cache share with their callers -----

  /** The shared cells, spelled out. */
  lemma LooseIff(v: PlanValue, cell: Cell)
    ensures cell in LooseOf(v) <==>
            || (exists i :: 0 <= i < |v.steps| && v.steps[i].result == Handle(cell))
            || (exists i, k :: 0 <= i < |v.steps| && v.steps[i].metadata.Some? && k in v.steps[i].metadata.value
                  && v.steps[i].metadata.value[k] == Handle(cell))
            || (v.metadata.Some? && exists k :: k in v.metadata.value && v.metadata.value[k] == Handle(cell))
  {
    forall i | 0 <= i < |v.steps| && cell in LooseIn(v.steps[i].result) + LooseEntries(v.steps[i].metadata)
      ensures cell in LooseOf(v)
    {
    }
  }

  /** A plan that was saved to or loaded from the store has in common with the stored plan just the
      cells its values refer to. */
  lemma StoreShares(store: InMemoryPlanStore, id: string, plan: Plan, objs: set<object?>)
    requires store.Valid() && id in store.contents
    requires ValueIn(plan, objs) == Some(store.contents[id]) && objs !! store.Repr
    ensures id in store.plans && ShareOnlyLoose(plan, store.plans[id])
  {
    hide ValueIn, ShareOnlyLoose;
    Shares(plan, objs, store.plans[id], store.Repr);
  }

  /** The same through the wrapper, for the stored and the cached plan. */
  lemma WrapperShares(w: PlanStoreWrapper, id: string, plan: Plan, objs: set<object?>)
    requires w.Valid() && id in w.store.contents
    requires ValueIn(plan, objs) == Some(w.store.contents[id]) && objs !! w.store.Repr && objs !! w.Repr
    ensures id in w.store.plans && ShareOnlyLoose(plan, w.store.plans[id])
    ensures id in w.cache ==> ShareOnlyLoose(plan, w.cache[id].plan)
  {
    hide ValueIn, ShareOnlyLoose;
    StoreShares(w.store, id, plan, objs);
    if id in w.cache { Shares(plan, objs, w.cache[id].plan, w.Repr); }
  }

  /** So whoever loads a plan with such a cell can change the stored plan through it. */
  method ChangeLoaded(store: InMemoryPlanStore, planID: string, cell: Cell, contents: string)
    returns (plan: Plan, ghost objs: set<object?>)
    requires store.Valid() && planID in store.plans
    requires cell in LooseOf(store.contents[planID]) && contents != cell.contents
    modifies cell
    ensures fresh(objs) && ValueIn(plan, objs) == Some(old(store.contents[planID]))
    ensures var stored, cells := old(store.plans[planID]), old(LooseOf(store.contents[planID]));
      View(stored, store.Repr, cells) != old(View(stored, store.Repr, cells))
  {
    hide ValueIn, LooseOf;
    ghost var stored, cells := store.plans[planID], LooseOf(store.contents[planID]);
    ghost var before := View(stored, store.Repr, cells);
    var r;
    r, objs := store.Load(planID);
    assert View(stored, store.Repr, cells) == before && before.Some?;
    match r {
      case Missing(_) => assert false;
      case Found(p) =>
        plan := p;
        ChangeCell(cell, contents, plan, objs, stored, store.Repr, cells);
    }
  }
}
