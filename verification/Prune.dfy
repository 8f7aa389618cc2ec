/**
 Cooking a single step: the recipe is pruned to that step and everything it
 transitively requires.
 */
module Prune {
  import opened Graphs
  import opened Sets
  import opened Recipe
  import opened Requisites
  import opened Scheduler
  import opened Confluence
  import opened Rootball

  datatype PruneResult =
    | Pruned(steps: seq<Step>)
    | TargetStepNotFound
    | DanglingRequisite(id: StepID)

  /** The steps a set of IDs selects, in their original order. */
  function Select(steps: seq<Step>, keep: set<StepID>): (kept: seq<Step>) {
    if steps == [] then []
    else
      var front, last := Select(steps[..|steps| - 1], keep), steps[|steps| - 1];
      if last.id in keep then front + [last] else front
  }

  /** The defined steps `target` needs, itself included. */
  ghost function Needed(g: Graph, target: StepID): set<StepID> {
    set id | id in g && Reaches(g, target, id)
  }

  ghost predicate Dangles(g: Graph, target: StepID, id: StepID) {
    Reaches(g, target, id) && id !in g
  }

  // ----- Which undefined requisite is named -----

  /** An undefined step can be reached from `a` without passing `avoid`. */
  ghost predicate Lost(g: Graph, a: StepID, avoid: set<StepID>) {
    exists p :: LostAlong(g, a, avoid, p)
  }

  ghost predicate LostAlong(g: Graph, a: StepID, avoid: set<StepID>, p: seq<StepID>) {
    WalkFrom(g, a, p) && p[|p| - 1] !in g && forall i :: 0 <= i < |p| ==> p[i] !in avoid
  }

  ghost predicate FirstLost(g: Graph, ids: seq<StepID>, k: nat, avoid: set<StepID>) {
    k < |ids| && Lost(g, ids[k], avoid) && forall j :: 0 <= j < k ==> !Lost(g, ids[j], avoid)
  }

  /** The first `n` steps passed, and those in `open`. */
  ghost function Passed(path: seq<StepID>, n: nat, open: set<StepID>): set<StepID>
    requires n <= |path|
  {
    open + set x | x in path[..n]
  }

  /** What follows entry `i` is the first of its requisites from which an undefined
      step can be reached without passing one passed before. */
  ghost predicate LostAt(g: Graph, path: seq<StepID>, i: nat, open: set<StepID>) {
    && i + 1 < |path| && path[i] in g
    && exists k: nat :: FirstLost(g, g[path[i]], k, Passed(path, i + 1, open)) && g[path[i]][k] == path[i + 1]
  }

  ghost predicate LostPath(g: Graph, path: seq<StepID>, open: set<StepID>) {
    path != [] && path[|path| - 1] !in g && forall i :: 0 <= i < |path| - 1 ==> LostAt(g, path, i, open)
  }

  ghost predicate NamedFrom(g: Graph, id: StepID, open: set<StepID>, dangling: StepID) {
    exists path :: LostPath(g, path, open) && path[0] == id && path[|path| - 1] == dangling
  }

  /** Of several undefined steps the one named is the one these paths lead to. */
  ghost predicate Named(g: Graph, target: StepID, dangling: StepID) {
    NamedFrom(g, target, {}, dangling)
  }

  lemma {:induction false} LostPathsAgree(g: Graph, p: seq<StepID>, q: seq<StepID>, open: set<StepID>, i: nat)
    requires LostPath(g, p, open) && LostPath(g, q, open) && p[0] == q[0] && i < |p| && i < |q|
    ensures p[..i + 1] == q[..i + 1]
  {
    if i > 0 {
      var h := i - 1;
      LostPathsAgree(g, p, q, open, h);
      assert p[h] == p[..h + 1][h] == q[..h + 1][h] == q[h];
      assert Passed(p, h + 1, open) == Passed(q, h + 1, open);
      assert LostAt(g, p, h, open) && LostAt(g, q, h, open);
      assert p[h + 1] == q[h + 1];
      assert p[..i + 1] == p[..h + 1] + [p[i]] && q[..i + 1] == q[..h + 1] + [q[i]];
    }
  }

  lemma NoLongerLostPath(g: Graph, p: seq<StepID>, q: seq<StepID>, open: set<StepID>)
    requires LostPath(g, p, open) && LostPath(g, q, open) && p[0] == q[0]
    ensures |q| <= |p|
  {
    var last := |p| - 1;
    if last < |q| {
      LostPathsAgree(g, p, q, open, last);
      assert p[..last + 1][last] == q[..last + 1][last];
      assert !LostAt(g, q, last, open);
    }
  }

  /** Only one is. */
  lemma NamedUnique(g: Graph, target: StepID, a: StepID, b: StepID)
    requires Named(g, target, a) && Named(g, target, b)
    ensures a == b
  {
    var p :| LostPath(g, p, {}) && p[0] == target && p[|p| - 1] == a;
    var q :| LostPath(g, q, {}) && q[0] == target && q[|q| - 1] == b;
    NoLongerLostPath(g, p, q, {});
    NoLongerLostPath(g, q, p, {});
    LostPathsAgree(g, p, q, {}, |p| - 1);
    assert p[..|p|] == p && q[..|q|] == q;
  }

  lemma LostPathShows(g: Graph, path: seq<StepID>, open: set<StepID>)
    requires LostPath(g, path, open) && path[0] !in open
    ensures Lost(g, path[0], open)
  {
    forall i | 0 <= i < |path| - 1 ensures Edge(g, path[i], path[i + 1]) {
      LostStep(g, path, i, open);
    }
    forall i | 0 <= i < |path| ensures path[i] !in open {
      if i > 0 {
        LostStep(g, path, i - 1, open);
      }
    }
    assert LostAlong(g, path[0], open, path);
  }

  lemma LostStep(g: Graph, path: seq<StepID>, i: nat, open: set<StepID>)
    requires LostPath(g, path, open) && i < |path| - 1
    ensures Edge(g, path[i], path[i + 1]) && path[i + 1] !in open
  {
    assert LostAt(g, path, i, open);
    var k: nat :| FirstLost(g, g[path[i]], k, Passed(path, i + 1, open)) && g[path[i]][k] == path[i + 1];
    var p :| LostAlong(g, path[i + 1], Passed(path, i + 1, open), p);
    assert p[0] !in Passed(path, i + 1, open);
  }

  /** Where all that is kept is expanded but for `open`, nothing kept is lost. */
  lemma KeptNotLost(g: Graph, keep: set<StepID>, open: set<StepID>, a: StepID)
    requires keep <= g.Keys && a in keep
    requires forall x, y :: x in keep && x !in open && Edge(g, x, y) ==> y in keep
    ensures !Lost(g, a, open)
  {
    if p :| LostAlong(g, a, open, p) {
      KeptAlong(g, keep, open, p, |p| - 1);
    }
  }

  lemma {:induction false} KeptAlong(g: Graph, keep: set<StepID>, open: set<StepID>, p: seq<StepID>, i: nat)
    requires Walk(g, p) && i < |p| && p[0] in keep && forall j :: 0 <= j < |p| ==> p[j] !in open
    requires forall x, y :: x in keep && x !in open && Edge(g, x, y) ==> y in keep
    ensures p[i] in keep
  {
    if i > 0 {
      KeptAlong(g, keep, open, p, i - 1);
      assert Edge(g, p[i - 1], p[i - 1 + 1]);
    }
  }

  lemma EarlierNotLost(g: Graph, keep: set<StepID>, open: set<StepID>, ids: seq<StepID>, k: nat)
    requires keep <= g.Keys && k <= |ids| && forall j :: 0 <= j < k ==> ids[j] in keep
    requires forall x, y :: x in keep && x !in open && Edge(g, x, y) ==> y in keep
    ensures forall j :: 0 <= j < k ==> !Lost(g, ids[j], open)
  {
    forall j | 0 <= j < k ensures !Lost(g, ids[j], open) {
      KeptNotLost(g, keep, open, ids[j]);
    }
  }

  /** All that was kept on the way from `before` to `after` is reached from `id`. */
  ghost predicate Reached(g: Graph, id: StepID, before: set<StepID>, after: set<StepID>) {
    forall x :: x in after && x !in before ==> Reaches(g, id, x)
  }

  lemma ReachedMore(g: Graph, id: StepID, next: StepID, before: set<StepID>, mid: set<StepID>, after: set<StepID>)
    requires Edge(g, id, next) && Reached(g, id, before, mid) && Reached(g, next, mid, after)
    ensures Reached(g, id, before, after)
  {
    forall x | x in after && x !in before ensures Reaches(g, id, x) {
      if x !in mid {
        ReachesStep(g, id, next, x);
      }
    }
  }

  lemma NamedHere(g: Graph, id: StepID, open: set<StepID>)
    requires id !in g
    ensures NamedFrom(g, id, open, id)
  {
    assert LostPath(g, [id], open);
  }

  lemma NamedBelow(g: Graph, id: StepID, k: nat, open: set<StepID>, dangling: StepID)
    requires id in g && k < |g[id]| && g[id][k] !in open + {id}
    requires forall j :: 0 <= j < k ==> !Lost(g, g[id][j], open + {id})
    requires NamedFrom(g, g[id][k], open + {id}, dangling)
    ensures NamedFrom(g, id, open, dangling)
  {
    var rest :| LostPath(g, rest, open + {id}) && rest[0] == g[id][k] && rest[|rest| - 1] == dangling;
    var path := [id] + rest;
    LostPathShows(g, rest, open + {id});
    forall i | 0 <= i < |path| - 1 ensures LostAt(g, path, i, open) {
      if i == 0 {
        assert path[..1] == [id];
        assert Passed(path, 1, open) == open + {id};
        assert path[0 + 1] == g[id][k];
        assert FirstLost(g, g[id], k, Passed(path, 1, open));
      } else {
        LostShift(g, id, rest, i - 1, open);
      }
    }
    assert LostPath(g, path, open);
  }

  lemma LostShift(g: Graph, id: StepID, rest: seq<StepID>, i: nat, open: set<StepID>)
    requires LostPath(g, rest, open + {id}) && i < |rest| - 1
    ensures LostAt(g, [id] + rest, i + 1, open)
  {
    var path := [id] + rest;
    assert LostAt(g, rest, i, open + {id});
    assert path[..i + 1 + 1] == [id] + rest[..i + 1];
    assert Passed(path, i + 1 + 1, open) == Passed(rest, i + 1, open + {id});
    assert path[i + 1] == rest[i] && path[i + 1 + 1] == rest[i + 1];
  }

  class Pruner {
    const byID: map<StepID, Step>
    var keep: set<StepID>

    constructor (byID: map<StepID, Step>)
      ensures this.byID == byID && keep == {}
    {
      this.byID := byID;
      keep := {};
    }

    ghost function Graph(): Graph {
      RequisiteGraph(byID)
    }

    /** Every kept step, but for the `open` ones still being expanded, has all
        its requisites kept. */
    ghost predicate Expanded(open: set<StepID>)
      reads this
    {
      && keep <= byID.Keys
      && forall x, y :: x in keep && x !in open && Edge(Graph(), x, y) ==> y in keep
    }

    /** Keep `id` and all it reaches; `dangling` names the first undefined step met. */
    method Visit(id: StepID, ghost open: set<StepID>) returns (ok: bool, dangling: StepID)
      requires Expanded(open) && open <= keep
      modifies this
      ensures old(keep) <= keep
      ensures ok ==> id in keep && Expanded(open)
      ensures ok ==> Reached(Graph(), id, old(keep), keep)
      ensures !ok ==> Dangles(Graph(), id, dangling) && NamedFrom(Graph(), id, open, dangling) && id !in old(keep)
      decreases |byID.Keys - keep|, 1
    {
      dangling := id;
      ReachesSelf(Graph(), id);
      if id in keep {
        return true, dangling;
      }
      if id !in byID {
        NamedHere(Graph(), id, open);
        return false, id;
      }
      keep := keep + {id};
      Smaller(byID.Keys, old(keep), keep, id);
      ok, dangling := VisitRequisites(id, open);
    }

    /** The loop over what the step just kept requires. */
    method VisitRequisites(id: StepID, ghost open: set<StepID>) returns (ok: bool, dangling: StepID)
      requires id in keep && Expanded(open + {id}) && open <= keep && id !in open
      modifies this
      ensures old(keep) <= keep
      ensures ok ==> Expanded(open)
      ensures ok ==> Reached(Graph(), id, old(keep), keep)
      ensures !ok ==> Dangles(Graph(), id, dangling) && NamedFrom(Graph(), id, open, dangling)
      decreases |byID.Keys - keep|, 2
    {
      dangling := id;
      ghost var g := Graph();
      var ids := CollectAllIDs(byID[id].requisites);
      for k := 0 to |ids|
        invariant old(keep) <= keep && Expanded(open + {id})
        invariant forall j :: 0 <= j < k ==> ids[j] in keep
        invariant Reached(g, id, old(keep), keep)
      {
        assert Edge(g, id, ids[k]);
        SubsetSize(byID.Keys - keep, byID.Keys - old(keep));
        EarlierNotLost(g, keep, open + {id}, ids, k);
        ghost var before := keep;
        ok, dangling := Visit(ids[k], open + {id});
        if !ok {
          ReachesStep(g, id, ids[k], dangling);
          NamedBelow(g, id, k, open, dangling);
          return;
        }
        ReachedMore(g, id, ids[k], old(keep), before, keep);
      }
      return true, dangling;
    }
  }

  lemma Smaller(all: set<StepID>, before: set<StepID>, after: set<StepID>, id: StepID)
    requires before + {id} <= after && id in all && id !in before
    ensures |all - after| < |all - before|
  {
    SubsetSize(all - after, (all - before) - {id});
  }

  lemma {:induction false} SelectMembers(steps: seq<Step>, keep: set<StepID>)
    ensures forall s :: s in Select(steps, keep) <==> s in steps && s.id in keep
    ensures UniqueIDs(steps) ==> UniqueIDs(Select(steps, keep))
  {
    if steps != [] {
      var front, last := steps[..|steps| - 1], steps[|steps| - 1];
      SelectMembers(front, keep);
      assert steps == front + [last];
      if UniqueIDs(steps) {
        assert forall s :: s in front ==> s.id != last.id;
        var kept := Select(front, keep);
        forall i | 0 <= i < |kept| ensures kept[i].id != last.id {
          assert kept[i] in kept;
        }
      }
    }
  }

  /** Entries `i` and `j` of what is selected come from places in that order. */
  ghost predicate InOriginalOrder(steps: seq<Step>, kept: seq<Step>, i: nat, j: nat)
    requires i < j < |kept|
  {
    exists a, b :: 0 <= a < b < |steps| && steps[a] == kept[i] && steps[b] == kept[j]
  }

  lemma {:induction false} SelectOrder(steps: seq<Step>, keep: set<StepID>, i: nat, j: nat)
    requires i < j < |Select(steps, keep)|
    ensures InOriginalOrder(steps, Select(steps, keep), i, j)
  {
    var front, n, kept := steps[..|steps| - 1], |steps| - 1, Select(steps, keep);
    var before := Select(front, keep);
    if j < |before| {
      SelectOrder(front, keep, i, j);
      var a, b :| 0 <= a < b < |front| && front[a] == before[i] && front[b] == before[j];
      assert steps[a] == kept[i] && steps[b] == kept[j];
    } else {
      SelectMembers(front, keep);
      assert before[i] in before;
      var a :| 0 <= a < |front| && front[a] == before[i];
      assert steps[a] == kept[i] && steps[n] == kept[j];
    }
  }

  /** Step by step: what is kept of one part, then what is kept of the next. */
  lemma {:induction false} SelectInOrder(a: seq<Step>, b: seq<Step>, keep: set<StepID>)
    ensures Select(a + b, keep) == Select(a, keep) + Select(b, keep)
    ensures |a| == 1 ==> Select(a, keep) == if a[0].id in keep then a else []
    decreases |b|
  {
    if b == [] {
      assert a + b == a;
    } else {
      assert (a + b)[..|a + b| - 1] == a + b[..|b| - 1];
      SelectInOrder(a, b[..|b| - 1], keep);
    }
    if |a| == 1 {
      assert a[..0] == [];
    }
  }

  lemma {:induction false} SelectMap(steps: seq<Step>, keep: set<StepID>)
    ensures StepMap(Select(steps, keep)) == map id | id in StepMap(steps) && id in keep :: StepMap(steps)[id]
  {
    if steps != [] {
      var front, last := steps[..|steps| - 1], steps[|steps| - 1];
      SelectMap(front, keep);
      var kept := Select(steps, keep);
      if last.id in keep {
        assert kept[..|kept| - 1] == Select(front, keep);
      }
    }
  }

  method PruneToTarget(steps: seq<Step>, target: StepID) returns (r: PruneResult)
    ensures var g := GraphOf(steps);
      && (r.TargetStepNotFound? <==> target !in g)
      && (r.DanglingRequisite? <==> target in g && exists id :: Dangles(g, target, id))
      && (r.DanglingRequisite? ==> Dangles(g, target, r.id) && Named(g, target, r.id))
      && (r.Pruned? ==> r.steps == Select(steps, Needed(g, target)))
  {
    ghost var g := GraphOf(steps);
    var byID := StepMap(steps);
    if target !in byID {
      return TargetStepNotFound;
    }
    var pruner := new Pruner(byID);
    var ok, dangling := pruner.Visit(target, {});
    if !ok {
      return DanglingRequisite(dangling);
    }
    ghost var keep := pruner.keep;
    forall id | Reaches(g, target, id) ensures id in keep {
      var p :| WalkTo(g, target, id, p);
      ReachStaysInside(g, keep, p);
    }
    assert keep == Needed(g, target);
    var pruned := [];
    for k := 0 to |steps|
      invariant pruned == Select(steps[..k], pruner.keep)
    {
      assert steps[..k + 1][..k] == steps[..k];
      if steps[k].id in pruner.keep {
        pruned := pruned + [steps[k]];
      }
    }
    assert steps[..|steps|] == steps;
    r := Pruned(pruned);
  }

  // ----- What pruning keeps -----

  /** The pruned recipe's graph is the part of the full one that is kept. */
  lemma PrunedGraph(steps: seq<Step>, target: StepID)
    ensures var g := GraphOf(steps); var h := GraphOf(Select(steps, Needed(g, target)));
      && h.Keys == Needed(g, target)
      && forall id :: id in h ==> h[id] == g[id]
  {
    var g := GraphOf(steps);
    SelectMap(steps, Needed(g, target));
  }

  lemma SubgraphCycles(g: Graph, h: Graph)
    requires forall id :: id in h ==> id in g && h[id] == g[id]
    ensures Cyclic(h) ==> Cyclic(g)
  {
    if p :| IsCycle(h, p) {
      forall i | 0 <= i < |p| - 1 ensures Edge(g, p[i], p[i + 1]) {
        assert Edge(h, p[i], p[i + 1]);
      }
      assert IsCycle(g, p);
    }
  }

  /** A valid recipe prunes without error, to a valid recipe. */
  lemma PruningKeepsValid(steps: seq<Step>, target: StepID)
    requires ValidRecipe(steps) && target in StepMap(steps)
    ensures forall id :: !Dangles(GraphOf(steps), target, id)
    ensures ValidRecipe(Select(steps, Needed(GraphOf(steps), target)))
  {
    var g := GraphOf(steps);
    var kept := Needed(g, target);
    var h := GraphOf(Select(steps, kept));
    SelectMembers(steps, kept);
    PrunedGraph(steps, target);
    forall id | Reaches(g, target, id) ensures id in g {
      var p :| WalkTo(g, target, id, p);
      ReachStaysInside(g, g.Keys, p);
    }
    forall a, b | Edge(h, a, b) ensures b in h {
      assert Edge(g, a, b);
      ReachesThen(g, target, a, b);
    }
    SubgraphCycles(g, h);
  }

  lemma PruningShares(steps: seq<Step>, target: StepID, full: Job, pruned: Job)
    requires Closed(GraphOf(steps))
    requires full.steps == StepMap(steps) && pruned.steps == StepMap(Select(steps, Needed(GraphOf(steps), target)))
    requires full.startID !in full.steps && pruned.startID !in pruned.steps
    ensures Shared(full, pruned, Needed(GraphOf(steps), target))
  {
    var g := GraphOf(steps);
    var kept := Needed(g, target);
    SelectMap(steps, kept);
    forall id, n | id in kept && Needs(full.steps[id], n) ensures n in kept {
      NeedsIsAllIDs(full.steps[id], n);
      assert Edge(g, id, n);
      ReachesThen(g, target, id, n);
    }
  }

  /** Pruning keeps meaning: cooked as part of the whole recipe or of the pruned
      one, under any two schedules, every kept step ends the same way. */
  lemma PruningKeepsMeaning(steps: seq<Step>, target: StepID, full: Job, pruned: Job, o: Oracle,
                            tf: seq<State>, tp: seq<State>, id: StepID)
    requires Closed(GraphOf(steps))
    requires full.steps == StepMap(steps) && pruned.steps == StepMap(Select(steps, Needed(GraphOf(steps), target)))
    requires full.startID !in full.steps && pruned.startID !in pruned.steps
    requires IsRun(full, o, tf) && Quiescent(tf[|tf| - 1])
    requires IsRun(pruned, o, tp) && Quiescent(tp[|tp| - 1])
    requires id in pruned.steps
    ensures Same(tf[|tf| - 1], tp[|tp| - 1], id)
  {
    PruningShares(steps, target, full, pruned);
    PrunedGraph(steps, target);
    SharedStepsEndAlike(full, pruned, o, Needed(GraphOf(steps), target), tf, tp, id);
  }
}
