/**
 Collecting a recipe's includes.  The recipe store is a graph: a name is in it
 when its file can be resolved, read, rendered and parsed, and maps to the names
 that file includes.
 */
module Includes {
  import opened Graphs
  import opened Sets

  type RecipeName = string

  datatype IncludeResult =
    | Included(names: seq<RecipeName>)
    | Unreadable

  /** A recipe the root needs cannot be loaded. */
  ghost predicate Unloadable(store: Graph, root: RecipeName) {
    exists name :: Reaches(store, root, name) && name !in store
  }

  class Collector {
    const store: Graph
    ghost const root: RecipeName
    var starter: map<RecipeName, bool>

    ghost function Done(): set<RecipeName>
      reads this
    {
      set name | name in starter && starter[name]
    }

    /** How many names of the store are still to be loaded, at most. */
    ghost function Left(): nat
      reads this
    {
      |store.Keys - Done()|
    }

    /** Only names the root reaches are listed, and those done have been loaded
        and have all their includes listed. */
    ghost predicate Valid()
      reads this
    {
      && (forall name :: name in starter ==> Reaches(store, root, name))
      && (forall name :: name in Done() ==> name in store)
      && (forall a, b :: a in Done() && Edge(store, a, b) ==> b in starter)
    }

    constructor (store: Graph, root: RecipeName)
      requires root in store
      ensures Valid() && this.store == store && this.root == root && root in starter
    {
      this.store := store;
      this.root := root;
      var starterIncludes := store[root] + [root];
      starter := map name | name in starterIncludes :: false;
      new;
      ReachesSelf(store, root);
      forall name | name in starter ensures Reaches(store, root, name) {
        if name != root {
          assert Edge(store, root, name);
          ReachesThen(store, root, root, name);
        }
      }
    }

    /** Load one listed name and list what it includes. */
    method Expand(inc: RecipeName) returns (ok: bool)
      requires Valid() && inc in starter && !starter[inc]
      modifies this
      ensures !ok ==> Unloadable(store, root)
      ensures ok ==> Valid() && inc in store
      ensures ok ==> old(starter.Keys) <= starter.Keys && Done() == old(Done()) + {inc}
    {
      starter := starter[inc := true];
      if inc !in store {
        return false;
      }
      var eIncludes := store[inc];
      for k := 0 to |eIncludes|
        invariant old(starter.Keys) <= starter.Keys
        invariant Done() == old(Done()) + {inc}
        invariant forall name :: name in starter ==> Reaches(store, root, name)
        invariant forall j :: 0 <= j < k ==> eIncludes[j] in starter
      {
        if eIncludes[k] !in starter {
          assert Edge(store, inc, eIncludes[k]);
          ReachesThen(store, root, inc, eIncludes[k]);
          starter := starter[eIncludes[k] := false];
        }
      }
      return true;
    }

    /** The state only moves forward: nothing is unlisted or undone. */
    twostate predicate Grown()
      reads this
    {
      old(starter.Keys) <= starter.Keys && old(Done()) <= Done()
    }

    /** Load one name, then collect everything found so far. */
    method Absorb(inc: RecipeName) returns (ok: bool)
      requires Valid() && inc in starter && !starter[inc]
      modifies this
      ensures !ok ==> Unloadable(store, root)
      ensures ok ==> Valid() && Grown() && Left() < old(Left())
      decreases Left(), 0
    {
      ok := Expand(inc);
      if !ok {
        return false;
      }
      SubsetSize(store.Keys - Done(), (store.Keys - old(Done())) - {inc});
      label expanded:
      ok := CollectRecurse();
      if ok {
        SubsetSize(store.Keys - Done(), store.Keys - old@expanded(Done()));
      }
    }

    /** Every listed name outside `pending` has been done. */
    ghost predicate DoneBut(pending: set<RecipeName>)
      reads this
    {
      forall name :: name in starter && name !in pending ==> starter[name]
    }

    /** Load a name that came up undone.  Of the names this lists, any may still come
        up in the same range. */
    method TakeUp(inc: RecipeName, pending: set<RecipeName>) returns (ok: bool, pending': set<RecipeName>)
      requires Valid() && inc in starter && !starter[inc] && pending <= starter.Keys
      modifies this
      ensures !ok ==> Unloadable(store, root)
      ensures ok ==> Valid() && Grown() && Left() < old(Left()) && pending' <= starter.Keys
      decreases Left(), 1
    {
      var listed := starter.Keys;
      ok := Absorb(inc);
      pending' := pending;
      if ok {
        var late := NamesAdded(listed);
        pending' := pending + late;
      }
    }

    /** One range over the map.  The map grows meanwhile, so a name added on the
        way may or may not still come up. */
    method Pass() returns (ok: bool, allIncluded: bool)
      requires Valid()
      modifies this
      ensures !ok ==> Unloadable(store, root)
      ensures ok ==> Valid() && Grown()
      ensures ok && allIncluded ==> DoneBut({})
      ensures ok && !allIncluded ==> Left() < old(Left())
      decreases Left(), 2
    {
      ok, allIncluded := true, true;
      var pending := starter.Keys;
      while pending != {}
        invariant ok && Valid() && Grown() && pending <= starter.Keys
        invariant allIncluded ==> Left() == old(Left()) && DoneBut(pending)
        invariant !allIncluded ==> Left() < old(Left())
        decreases Left(), |pending|
      {
        var inc :| inc in pending;
        pending := pending - {inc};
        if !starter[inc] {
          allIncluded := false;
          ok, pending := TakeUp(inc, pending);
          if !ok {
            return;
          }
        }
      }
    }

    /** Some of the names listed since, as the runtime pleases. */
    method NamesAdded(listed: set<RecipeName>) returns (late: set<RecipeName>)
      ensures late <= starter.Keys - listed
    {
      assert {} <= starter.Keys - listed;
      late :| late <= starter.Keys - listed;
    }

    /** The self-recursive worklist. */
    method CollectRecurse() returns (ok: bool)
      requires Valid()
      modifies this
      ensures !ok ==> Unloadable(store, root)
      ensures ok ==> Valid() && Grown()
      ensures ok ==> forall name :: name in starter ==> starter[name]
      decreases Left(), 3
    {
      var allIncluded := false;
      while !allIncluded
        invariant Valid() && Grown() && Left() <= old(Left())
        invariant allIncluded ==> DoneBut({})
        decreases Left(), !allIncluded
      {
        label before:
        ok, allIncluded := Pass();
        if !ok {
          return false;
        }
        SubsetSize(store.Keys - Done(), store.Keys - old@before(Done()));
      }
      ok := true;
    }
  }

  /** The includes of a recipe are exactly the names it reaches, each once; the
      collection fails exactly when one of them cannot be loaded. */
  method CollectAllIncludes(store: Graph, root: RecipeName) returns (r: IncludeResult)
    ensures r.Unreadable? <==> Unloadable(store, root)
    ensures r.Included? ==> forall name :: name in r.names <==> Reaches(store, root, name)
    ensures r.Included? ==> forall i, j :: 0 <= i < j < |r.names| ==> r.names[i] != r.names[j]
  {
    ReachesSelf(store, root);
    if root !in store {
      return Unreadable;
    }
    var collector := new Collector(store, root);
    var ok := collector.CollectRecurse();
    if !ok {
      return Unreadable;
    }
    var includeSet := collector.starter.Keys;
    forall name | Reaches(store, root, name) ensures name in includeSet {
      var p :| WalkTo(store, root, name, p);
      ReachStaysInside(store, includeSet, p);
    }
    var includes: seq<RecipeName> := [];
    var todo := includeSet;
    while todo != {}
      invariant todo <= includeSet
      invariant forall name :: name in includes <==> name in includeSet && name !in todo
      invariant forall i, j :: 0 <= i < j < |includes| ==> includes[i] != includes[j]
    {
      var inc :| inc in todo;
      todo := todo - {inc};
      includes := includes + [inc];
    }
    r := Included(includes);
  }
}
