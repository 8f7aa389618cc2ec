/**
 The farmer's recipe checks: duplicate IDs, undefined requisites and dependency
 cycles.
 */
module Rootball {
  import opened Graphs
  import opened Recipe

  ghost function GraphOf(steps: seq<Step>): Graph {
    RequisiteGraph(StepMap(steps))
  }

  function IDs(steps: seq<Step>): (ids: seq<StepID>)
    ensures |ids| == |steps| && forall i :: 0 <= i < |ids| ==> ids[i] == steps[i].id
  {
    seq(|steps|, i requires 0 <= i < |steps| => steps[i].id)
  }

  /** Each ID that has occurred before, where it occurs again. */
  function Repeats(ids: seq<StepID>): seq<StepID> {
    if ids == [] then []
    else
      var front, last := ids[..|ids| - 1], ids[|ids| - 1];
      if last in front then Repeats(front) + [last] else Repeats(front)
  }

  /** Every ID is listed once for each occurrence but its first, in order. */
  lemma {:induction false} RepeatsCounted(ids: seq<StepID>, id: StepID)
    ensures multiset(Repeats(ids))[id] == if id in ids then multiset(ids)[id] - 1 else 0
  {
    if ids != [] {
      var front, last := ids[..|ids| - 1], ids[|ids| - 1];
      RepeatsCounted(front, id);
      assert ids == front + [last];
    }
  }

  lemma {:induction false} RepeatsInOrder(a: seq<StepID>, b: seq<StepID>)
    ensures |Repeats(a)| <= |Repeats(a + b)| && Repeats(a + b)[..|Repeats(a)|] == Repeats(a)
    decreases |b|
  {
    if b == [] {
      assert a + b == a;
    } else {
      assert (a + b)[..|a + b| - 1] == a + b[..|b| - 1];
      RepeatsInOrder(a, b[..|b| - 1]);
    }
  }

  lemma {:induction false} RepeatsMembers(ids: seq<StepID>, id: StepID)
    ensures id in Repeats(ids) <==> exists i, j :: 0 <= i < j < |ids| && ids[i] == id && ids[j] == id
  {
    if ids != [] {
      var front, last := ids[..|ids| - 1], ids[|ids| - 1];
      RepeatsMembers(front, id);
      if last in front && last == id {
        var i :| 0 <= i < |front| && front[i] == id;
        assert ids[i] == id && ids[|ids| - 1] == id;
      }
      if i, j :| 0 <= i < j < |ids| && ids[i] == id && ids[j] == id {
        assert front[i] == id;
        assert j < |front| ==> front[j] == id;
      }
    }
  }

  method NoDuplicateIDs(allSteps: seq<Step>) returns (ok: bool, duplicates: seq<StepID>)
    ensures ok <==> UniqueIDs(allSteps)
    ensures duplicates == Repeats(IDs(allSteps))
    ensures forall id :: id in duplicates <==>
              exists i, j :: 0 <= i < j < |allSteps| && allSteps[i].id == id && allSteps[j].id == id
  {
    duplicates := [];
    ghost var ids := IDs(allSteps);
    var seen: set<StepID> := {};
    for k := 0 to |allSteps|
      invariant forall id :: id in seen <==> id in ids[..k]
      invariant duplicates == Repeats(ids[..k])
    {
      var id := allSteps[k].id;
      assert ids[..k + 1] == ids[..k] + [id] && ids[..k + 1][..k] == ids[..k];
      if id !in seen {
        seen := seen + {id};
      } else {
        duplicates := duplicates + [id];
      }
    }
    assert ids[..|ids|] == ids;
    ok := |duplicates| == 0;
    forall id ensures id in duplicates <==>
                exists i, j :: 0 <= i < j < |allSteps| && allSteps[i].id == id && allSteps[j].id == id {
      RepeatsMembers(ids, id);
    }
    if ok {
      forall i, j | 0 <= i < j < |allSteps| ensures allSteps[i].id != allSteps[j].id {
        assert allSteps[i].id !in duplicates;
      }
    } else {
      assert duplicates[0] in duplicates;
    }
  }

  /** What the steps require, step by step and requisite by requisite. */
  function Demands(steps: seq<Step>): seq<StepID> {
    if steps == [] then [] else Demands(steps[..|steps| - 1]) + AllIDs(steps[|steps| - 1].requisites)
  }

  /** Those of `ids` that are not defined, in order. */
  function Missing(ids: seq<StepID>, defined: set<StepID>): seq<StepID> {
    if ids == [] then []
    else
      var front, last := Missing(ids[..|ids| - 1], defined), ids[|ids| - 1];
      if last in defined then front else front + [last]
  }

  lemma {:induction false} DemandsInOrder(a: seq<Step>, b: seq<Step>)
    ensures Demands(a + b) == Demands(a) + Demands(b)
    ensures |a| == 1 ==> Demands(a) == AllIDs(a[0].requisites)
    decreases |b|
  {
    if b == [] {
      assert a + b == a;
    } else {
      assert (a + b)[..|a + b| - 1] == a + b[..|b| - 1];
      DemandsInOrder(a, b[..|b| - 1]);
    }
    if |a| == 1 {
      assert a[..0] == [];
    }
  }

  lemma {:induction false} MissingInOrder(a: seq<StepID>, b: seq<StepID>, defined: set<StepID>)
    ensures Missing(a + b, defined) == Missing(a, defined) + Missing(b, defined)
    ensures |a| == 1 ==> Missing(a, defined) == if a[0] in defined then [] else a
    decreases |b|
  {
    if b == [] {
      assert a + b == a;
    } else {
      assert (a + b)[..|a + b| - 1] == a + b[..|b| - 1];
      MissingInOrder(a, b[..|b| - 1], defined);
    }
    if |a| == 1 {
      assert a[..0] == [];
    }
  }

  lemma {:induction false} MissingMembers(ids: seq<StepID>, defined: set<StepID>)
    ensures forall id :: id in Missing(ids, defined) <==> id in ids && id !in defined
  {
    if ids != [] {
      MissingMembers(ids[..|ids| - 1], defined);
      assert ids == ids[..|ids| - 1] + [ids[|ids| - 1]];
    }
  }

  ghost predicate Demanded(steps: seq<Step>, id: StepID) {
    exists i :: 0 <= i < |steps| && id in AllIDs(steps[i].requisites)
  }

  lemma NothingMissingMeansClosed(steps: seq<Step>)
    ensures (forall id :: Demanded(steps, id) ==> id in StepMap(steps)) ==> Closed(GraphOf(steps))
    ensures UniqueIDs(steps) && Closed(GraphOf(steps)) ==> forall id :: Demanded(steps, id) ==> id in StepMap(steps)
  {
    StepMapKeys(steps);
    var g := GraphOf(steps);
    if forall id :: Demanded(steps, id) ==> id in StepMap(steps) {
      forall a, b | Edge(g, a, b) ensures b in g {
        assert StepMap(steps)[a] in steps;
        assert Demanded(steps, b);
      }
    }
    if UniqueIDs(steps) && Closed(g) {
      StepMapUnique(steps);
      forall id | Demanded(steps, id) ensures id in StepMap(steps) {
        var i :| 0 <= i < |steps| && id in AllIDs(steps[i].requisites);
        assert steps[i] in steps;
        assert Edge(g, steps[i].id, id);
      }
    }
  }

  lemma {:induction false} DemandsMembers(steps: seq<Step>, id: StepID)
    ensures id in Demands(steps) <==> Demanded(steps, id)
  {
    if steps != [] {
      var front, last := steps[..|steps| - 1], steps[|steps| - 1];
      DemandsMembers(front, id);
      if Demanded(front, id) {
        var i :| 0 <= i < |front| && id in AllIDs(front[i].requisites);
        assert id in AllIDs(steps[i].requisites);
      }
      if Demanded(steps, id) && id !in AllIDs(last.requisites) {
        var i :| 0 <= i < |steps| && id in AllIDs(steps[i].requisites);
        assert id in AllIDs(front[i].requisites);
      }
    }
  }

  method AllRequisitesDefined(allSteps: seq<Step>) returns (ok: bool, unresolved: seq<StepID>)
    ensures unresolved == Missing(Demands(allSteps), StepMap(allSteps).Keys)
    ensures forall id :: id in unresolved <==> id !in StepMap(allSteps) && Demanded(allSteps, id)
    ensures ok <==> unresolved == []
    ensures ok ==> Closed(GraphOf(allSteps))
    ensures UniqueIDs(allSteps) && Closed(GraphOf(allSteps)) ==> ok
  {
    unresolved := [];
    var recipeMap := StepMap(allSteps);
    for k := 0 to |allSteps|
      invariant unresolved == Missing(Demands(allSteps[..k]), recipeMap.Keys)
    {
      var missing := Undefined(recipeMap, allSteps[k]);
      MissingInOrder(Demands(allSteps[..k]), AllIDs(allSteps[k].requisites), recipeMap.Keys);
      assert allSteps[..k + 1][..k] == allSteps[..k];
      unresolved := unresolved + missing;
    }
    assert allSteps[..|allSteps|] == allSteps;
    ok := |unresolved| == 0;
    MissingMembers(Demands(allSteps), recipeMap.Keys);
    forall id ensures id in Demands(allSteps) <==> Demanded(allSteps, id) {
      DemandsMembers(allSteps, id);
    }
    NothingMissingMeansClosed(allSteps);
    if !ok {
      assert unresolved[0] in unresolved;
    }
  }

  method Undefined(recipeMap: map<StepID, Step>, recipe: Step) returns (missing: seq<StepID>)
    ensures missing == Missing(AllIDs(recipe.requisites), recipeMap.Keys)
  {
    missing := [];
    var ids := CollectAllIDs(recipe.requisites);
    for v := 0 to |ids|
      invariant missing == Missing(ids[..v], recipeMap.Keys)
    {
      if ids[v] !in recipeMap {
        missing := missing + [ids[v]];
      }
      assert ids[..v + 1][..v] == ids[..v];
    }
    assert ids[..|ids|] == ids;
  }

  /** What the farmer lets through. */
  ghost predicate ValidRecipe(steps: seq<Step>) {
    UniqueIDs(steps) && Closed(GraphOf(steps)) && !Cyclic(GraphOf(steps))
  }

  // ----- Cycle detection -----

  /** All walks from `b` are bounded and stay off `avoid`. */
  ghost predicate Cleared(g: Graph, b: StepID, avoid: set<StepID>) {
    exists n: nat :: Tame(g, b, avoid, n)
  }

  /** The first `k` of `ids` are cleared. */
  ghost predicate ClearedFirst(g: Graph, ids: seq<StepID>, k: nat, avoid: set<StepID>) {
    k <= |ids| && forall j :: 0 <= j < k ==> Cleared(g, ids[j], avoid)
  }

  lemma ClearedOneMore(g: Graph, ids: seq<StepID>, k: nat, avoid: set<StepID>)
    requires k < |ids| && ClearedFirst(g, ids, k, avoid) && Cleared(g, ids[k], avoid)
    ensures ClearedFirst(g, ids, k + 1, avoid)
  {
  }

  /** `b` is listed by `a`, and what `a` lists before it is cleared. */
  ghost predicate LeadsTo(g: Graph, a: StepID, b: StepID, avoid: set<StepID>) {
    a in g && exists k :: 0 <= k < |g[a]| && g[a][k] == b && forall j :: 0 <= j < k ==> Cleared(g, g[a][j], avoid)
  }

  /** What follows entry `i` of a chain that ends in `end`. */
  ghost function After(chain: seq<StepID>, i: nat, end: StepID): StepID {
    if i + 1 < |chain| then chain[i + 1] else end
  }

  ghost predicate LeadAt(g: Graph, chain: seq<StepID>, end: StepID, i: nat, avoid: set<StepID>) {
    i < |chain| && LeadsTo(g, chain[i], After(chain, i, end), avoid)
  }

  /** A chain of names each leading to the next, and the last to `top`. */
  ghost predicate Lead(g: Graph, lead: seq<StepID>, top: StepID) {
    forall i :: 0 <= i < |lead| ==> LeadAt(g, lead, top, i, {top})
  }

  /** The depth-first stack: each entry leads to the next, and the last to
      `current`, with everything listed earlier cleared of the whole stack. */
  ghost predicate Stacked(g: Graph, stack: seq<StepID>, current: StepID) {
    forall h, i :: 0 <= h <= i < |stack| ==> LeadAt(g, stack, current, i, {stack[h]})
  }

  lemma ClearedMonotone(g: Graph, b: StepID, s: set<StepID>, t: set<StepID>)
    requires Cleared(g, b, s) && t <= s
    ensures Cleared(g, b, t)
  {
    var n: nat :| Tame(g, b, s, n);
    TameMonotone(g, b, s, n, t, n);
  }

  /** A bound for each of finitely many names gives one bound for all. */
  lemma {:induction false} ClearedAll(g: Graph, ids: seq<StepID>, avoid: set<StepID>) returns (n: nat)
    requires forall j :: 0 <= j < |ids| ==> Cleared(g, ids[j], avoid)
    ensures forall id :: id in ids ==> Tame(g, id, avoid, n)
  {
    n := 0;
    for k := 0 to |ids|
      invariant forall j :: 0 <= j < k ==> Tame(g, ids[j], avoid, n)
    {
      var m: nat :| Tame(g, ids[k], avoid, m);
      var next := if m <= n then n else m;
      forall j | 0 <= j <= k ensures Tame(g, ids[j], avoid, next) {
        TameMonotone(g, ids[j], avoid, if j < k then n else m, avoid, next);
      }
      n := next;
    }
  }

  lemma ClearedByList(g: Graph, a: StepID, avoid: set<StepID>)
    requires a in g && a !in avoid && ClearedFirst(g, g[a], |g[a]|, avoid)
    ensures Cleared(g, a, avoid)
  {
    var n := ClearedAll(g, g[a], avoid);
    assert Tame(g, a, avoid, n + 1);
  }

  lemma ClearedNode(g: Graph, a: StepID, avoid: set<StepID>)
    requires a in g && a !in avoid
    requires ClearedFirst(g, g[a], |g[a]|, avoid + {a})
    ensures Cleared(g, a, avoid)
  {
    forall j | 0 <= j < |g[a]| ensures Cleared(g, g[a][j], avoid) {
      ClearedMonotone(g, g[a][j], avoid + {a}, avoid);
    }
    ClearedByList(g, a, avoid);
  }

  /** A cleared name lies on no cycle. */
  lemma AllClearedMeansAcyclic(g: Graph)
    requires forall a :: a in g ==> Cleared(g, a, {})
    ensures !Cyclic(g)
  {
    if p :| IsCycle(g, p) {
      assert Edge(g, p[0], p[0 + 1]);
      var n: nat :| Tame(g, p[0], {}, n);
      TameNotOnCycle(g, p[0], {}, n, p);
    }
  }

  // ----- The search for the cycle to report -----

  /** What a search came to.  A step whose ID is empty is taken for the start of the
      search, which then begins again at `top`, and may do so without end. */
  datatype SearchResult = Found(cycle: seq<StepID>) | NotFound | Endless

  /** The search as the source writes it, given `depth` nested calls; `Endless` if
      they do not suffice. */
  ghost function Search(g: Graph, top: StepID, current: StepID, chain: seq<StepID>, depth: nat): SearchResult
    decreases depth, 0
  {
    if current == top then Found(chain + [current])
    else
      var cur := if current == "" then top else current;
      if cur !in g then NotFound
      else if depth == 0 then Endless
      else SearchList(g, top, g[cur], chain + [cur], depth - 1)
  }

  ghost function SearchList(g: Graph, top: StepID, ids: seq<StepID>, chain: seq<StepID>, depth: nat): SearchResult
    decreases depth, |ids| + 1
  {
    if ids == [] then NotFound
    else if ids[0] == top then Found(chain + [top])
    else
      var first := Search(g, top, ids[0], chain, depth);
      if first.NotFound? then SearchList(g, top, ids[1..], chain, depth) else first
  }

  lemma {:induction false} SearchDeeper(g: Graph, top: StepID, current: StepID, chain: seq<StepID>, d: nat, e: nat)
    requires d <= e && !Search(g, top, current, chain, d).Endless?
    ensures Search(g, top, current, chain, e) == Search(g, top, current, chain, d)
    decreases d, 0
  {
    var cur := if current == "" then top else current;
    if current != top && cur in g {
      SearchListDeeper(g, top, g[cur], chain + [cur], d - 1, e - 1);
    }
  }

  lemma {:induction false} SearchListDeeper(g: Graph, top: StepID, ids: seq<StepID>, chain: seq<StepID>, d: nat, e: nat)
    requires d <= e && !SearchList(g, top, ids, chain, d).Endless?
    ensures SearchList(g, top, ids, chain, e) == SearchList(g, top, ids, chain, d)
    decreases d, |ids| + 1
  {
    if ids != [] && ids[0] != top {
      SearchDeeper(g, top, ids[0], chain, d, e);
      if Search(g, top, ids[0], chain, d).NotFound? {
        SearchListDeeper(g, top, ids[1..], chain, d, e);
      }
    }
  }

  /** Only what is reported depends on the chain so far. */
  ghost predicate SameKind(a: SearchResult, b: SearchResult) {
    a.Found? == b.Found? && a.Endless? == b.Endless?
  }

  lemma {:induction false} ChainIsCarried(g: Graph, top: StepID, current: StepID, x: seq<StepID>, y: seq<StepID>, depth: nat)
    ensures SameKind(Search(g, top, current, x, depth), Search(g, top, current, y, depth))
    decreases depth, 0
  {
    var cur := if current == "" then top else current;
    if current != top && cur in g && depth > 0 {
      ChainIsCarriedAlong(g, top, g[cur], x + [cur], y + [cur], depth - 1);
    }
  }

  lemma {:induction false} ChainIsCarriedAlong(g: Graph, top: StepID, ids: seq<StepID>, x: seq<StepID>, y: seq<StepID>, depth: nat)
    ensures SameKind(SearchList(g, top, ids, x, depth), SearchList(g, top, ids, y, depth))
    decreases depth, |ids| + 1
  {
    if ids != [] && ids[0] != top {
      ChainIsCarried(g, top, ids[0], x, y, depth);
      ChainIsCarriedAlong(g, top, ids[1..], x, y, depth);
    }
  }

  /** The first `k` of `ids` were searched in vain. */
  ghost predicate InVain(g: Graph, top: StepID, ids: seq<StepID>, k: nat, chain: seq<StepID>, depth: nat) {
    k <= |ids| && forall j :: 0 <= j < k ==> ids[j] != top && Search(g, top, ids[j], chain, depth).NotFound?
  }

  lemma InVainDeeper(g: Graph, top: StepID, ids: seq<StepID>, k: nat, chain: seq<StepID>, d: nat, e: nat)
    requires InVain(g, top, ids, k, chain, d) && d <= e
    ensures InVain(g, top, ids, k, chain, e)
  {
    forall j | 0 <= j < k ensures ids[j] != top && Search(g, top, ids[j], chain, e).NotFound? {
      SearchDeeper(g, top, ids[j], chain, d, e);
    }
  }

  /** After some in vain, the rest decides. */
  lemma {:induction false} InVainSkips(g: Graph, top: StepID, ids: seq<StepID>, k: nat, chain: seq<StepID>, depth: nat)
    requires InVain(g, top, ids, k, chain, depth)
    ensures SearchList(g, top, ids, chain, depth) == SearchList(g, top, ids[k..], chain, depth)
    decreases k
  {
    if k == 0 {
      assert ids[0..] == ids;
    } else {
      assert Search(g, top, ids[0], chain, depth).NotFound?;
      forall j | 0 <= j < k - 1
        ensures ids[1..][j] != top && Search(g, top, ids[1..][j], chain, depth).NotFound?
      {
        assert ids[1..][j] == ids[j + 1];
      }
      InVainSkips(g, top, ids[1..], k - 1, chain, depth);
      assert ids[1..][k - 1..] == ids[k..];
    }
  }

  /** A search that does not end at one of the names does not end on the list,
      if it found nothing at those before. */
  lemma {:induction false} EndlessOnList(g: Graph, top: StepID, ids: seq<StepID>, k: nat, chain: seq<StepID>, depth: nat)
    requires k < |ids| && forall j :: 0 <= j <= k ==> ids[j] != top && !Search(g, top, ids[j], chain, depth).Found?
    requires Search(g, top, ids[k], chain, depth).Endless?
    ensures SearchList(g, top, ids, chain, depth).Endless?
    decreases k
  {
    assert ids[0] != top && !Search(g, top, ids[0], chain, depth).Found?;
    if k > 0 {
      var rest := ids[1..];
      forall j | 0 <= j <= k - 1 ensures rest[j] != top && !Search(g, top, rest[j], chain, depth).Found? {
        assert rest[j] == ids[j + 1];
      }
      EndlessOnList(g, top, rest, k - 1, chain, depth);
    }
  }

  lemma InVainFindsNothing(g: Graph, top: StepID, ids: seq<StepID>, k: nat, chain: seq<StepID>, d: nat, e: nat)
    requires InVain(g, top, ids, k, chain, d)
    ensures forall j :: 0 <= j < k ==> ids[j] != top && !Search(g, top, ids[j], chain, e).Found?
  {
    forall j | 0 <= j < k ensures ids[j] != top && !Search(g, top, ids[j], chain, e).Found? {
      if d <= e {
        SearchDeeper(g, top, ids[j], chain, d, e);
      } else if !Search(g, top, ids[j], chain, e).Endless? {
        SearchDeeper(g, top, ids[j], chain, e, d);
      }
    }
  }

  ghost predicate Ends(g: Graph, top: StepID, current: StepID, chain: seq<StepID>, r: SearchResult) {
    exists d: nat :: Search(g, top, current, chain, d) == r
  }

  /** No number of nested calls is enough. */
  ghost predicate NeverEnds(g: Graph, top: StepID) {
    forall d: nat :: Search(g, top, "", [], d).Endless?
  }

  /** Up to `d` nested calls are not enough. */
  ghost predicate Stuck(g: Graph, top: StepID, d: nat) {
    forall e: nat :: e <= d ==> Search(g, top, "", [], e).Endless?
  }

  /** From `current` the search ends no sooner than from the start. */
  ghost predicate Stray(g: Graph, top: StepID, current: StepID, chain: seq<StepID>) {
    forall d: nat :: Stuck(g, top, d) ==> Search(g, top, current, chain, d).Endless?
  }

  /** ... nor with one call more. */
  ghost predicate LateStray(g: Graph, top: StepID, current: StepID, chain: seq<StepID>) {
    forall d: nat :: Stuck(g, top, d) ==> Search(g, top, current, chain, d + 1).Endless?
  }

  /** The step whose requisites are searched. */
  function At(top: StepID, current: StepID): StepID {
    if current == "" then top else current
  }

  /** Another name is searched, in vain or not, within some depth. */
  lemma OneMore(g: Graph, top: StepID, ids: seq<StepID>, k: nat, chain: seq<StepID>, depth: nat, r: SearchResult) returns (deeper: nat)
    requires k < |ids| && ids[k] != top && InVain(g, top, ids, k, chain, depth)
    requires !r.Endless? && Ends(g, top, ids[k], chain, r)
    ensures InVain(g, top, ids, k, chain, deeper) && Search(g, top, ids[k], chain, deeper) == r
    ensures r.NotFound? ==> InVain(g, top, ids, k + 1, chain, deeper)
  {
    var d: nat :| Search(g, top, ids[k], chain, d) == r;
    deeper := if depth <= d then d else depth;
    SearchDeeper(g, top, ids[k], chain, d, deeper);
    InVainDeeper(g, top, ids, k, chain, depth, deeper);
  }

  /** The list of requisites settles the search. */
  lemma Settles(g: Graph, top: StepID, current: StepID, chain: seq<StepID>, k: nat, depth: nat, r: SearchResult)
    requires current != top && At(top, current) in g
    requires var ids, longer := g[At(top, current)], chain + [At(top, current)];
      && InVain(g, top, ids, k, longer, depth)
      && if k == |ids| then r == NotFound
         else if ids[k] == top then r == Found(longer + [top])
         else r.Found? && Search(g, top, ids[k], longer, depth) == r
    ensures Ends(g, top, current, chain, r)
  {
    var cur := At(top, current);
    InVainSkips(g, top, g[cur], k, chain + [cur], depth);
    assert k < |g[cur]| ==> g[cur][k..][0] == g[cur][k];
    assert Search(g, top, current, chain, depth + 1) == r;
  }

  lemma FoundHere(g: Graph, top: StepID, current: StepID, chain: seq<StepID>, k: nat)
    requires current != top && At(top, current) in g
    requires var ids := g[At(top, current)]; k < |ids| && ids[k] == top && ClearedFirst(g, ids, k, {top, ""})
    ensures Ends(g, top, current, chain, Found(chain + [At(top, current)] + [top]))
  {
    var cur := At(top, current);
    var depth := ClearedFirstInVain(g, top, g[cur], k, chain + [cur]);
    Settles(g, top, current, chain, k, depth, Found(chain + [cur] + [top]));
  }

  lemma FoundBelow(g: Graph, top: StepID, current: StepID, chain: seq<StepID>, k: nat, r: SearchResult)
    requires current != top && At(top, current) in g && r.Found?
    requires var ids, longer := g[At(top, current)], chain + [At(top, current)];
      && k < |ids| && ids[k] != top && ClearedFirst(g, ids, k, {top, ""})
      && Ends(g, top, ids[k], longer, r)
    ensures Ends(g, top, current, chain, r)
  {
    var cur := At(top, current);
    var depth := ClearedFirstInVain(g, top, g[cur], k, chain + [cur]);
    depth := OneMore(g, top, g[cur], k, chain + [cur], depth, r);
    Settles(g, top, current, chain, k, depth, r);
  }

  lemma LateStrayIsStray(g: Graph, top: StepID, current: StepID, chain: seq<StepID>)
    requires LateStray(g, top, current, chain)
    ensures Stray(g, top, current, chain)
  {
    forall d: nat | Stuck(g, top, d) ensures Search(g, top, current, chain, d).Endless? {
      if !Search(g, top, current, chain, d).Endless? {
        SearchDeeper(g, top, current, chain, d, d + 1);
      }
    }
  }

  lemma LateStrayNeverEnds(g: Graph, top: StepID)
    requires LateStray(g, top, "", []) && top in g && top != ""
    ensures NeverEnds(g, top)
  {
    forall d: nat ensures Search(g, top, "", [], d).Endless? {
      StuckAt(g, top, d);
    }
  }

  lemma {:induction false} StuckAt(g: Graph, top: StepID, d: nat)
    requires top in g && top != "" && LateStray(g, top, "", [])
    ensures Stuck(g, top, d)
  {
    if d > 0 {
      StuckAt(g, top, d - 1);
      assert Search(g, top, "", [], d - 1 + 1).Endless?;
    }
  }

  /** A search that strays at one requisite, after others in vain, strays as a whole. */
  lemma StraysFrom(g: Graph, top: StepID, current: StepID, chain: seq<StepID>, k: nat, depth: nat)
    requires current != top && At(top, current) in g
    requires var ids, longer := g[At(top, current)], chain + [At(top, current)];
      InVain(g, top, ids, k, longer, depth) && k < |ids| && ids[k] != top && Stray(g, top, ids[k], longer)
    ensures Stray(g, top, current, chain)
    ensures current == "" && chain == [] ==> NeverEnds(g, top)
  {
    var cur := At(top, current);
    forall d: nat | Stuck(g, top, d) ensures Search(g, top, current, chain, d + 1).Endless? {
      InVainFindsNothing(g, top, g[cur], k, chain + [cur], depth, d);
      EndlessOnList(g, top, g[cur], k, chain + [cur], d);
    }
    LateStrayIsStray(g, top, current, chain);
    if current == "" && chain == [] {
      LateStrayNeverEnds(g, top);
    }
  }

  /** A step whose ID is empty starts the search over. */
  lemma EmptyIDStrays(g: Graph, top: StepID, chain: seq<StepID>)
    ensures Stray(g, top, "", chain)
  {
    forall d: nat | Stuck(g, top, d) ensures Search(g, top, "", chain, d).Endless? {
      ChainIsCarried(g, top, "", chain, [], d);
    }
  }

  // ----- When the search goes astray -----

  /** What `at` lists at `k` is not `top`, and all it lists before is cleared of both
      `top` and the empty ID. */
  ghost predicate TurnsAt(g: Graph, top: StepID, at: StepID, k: nat) {
    at in g && k < |g[at]| && g[at][k] != top && ClearedFirst(g, g[at], k, {top, ""})
  }

  /** In the order of the search, `at` leads to the empty ID before it leads to `top`,
      within `n` further steps. */
  ghost predicate LeadsOff(g: Graph, top: StepID, at: StepID, n: nat)
    decreases n
  {
    exists k: nat :: TurnsAt(g, top, at, k) && (g[at][k] == "" || (n > 0 && LeadsOff(g, top, g[at][k], n - 1)))
  }

  ghost predicate Off(g: Graph, top: StepID, at: StepID) {
    exists n: nat :: LeadsOff(g, top, at, n)
  }

  /** The requisites of `top` lead to the empty ID before they lead back to `top`. */
  ghost predicate GoesAstray(g: Graph, top: StepID) {
    top != "" && Off(g, top, top)
  }

  /** A name cleared of both is searched in vain. */
  lemma {:induction false} ClearedInVain(g: Graph, top: StepID, w: StepID, chain: seq<StepID>, n: nat)
    requires Tame(g, w, {top, ""}, n)
    ensures w != top && Search(g, top, w, chain, n + 1).NotFound?
    decreases n
  {
    var longer := chain + [w];
    forall j | 0 <= j < |g[w]| ensures g[w][j] != top && Search(g, top, g[w][j], longer, n).NotFound? {
      assert g[w][j] in g[w];
      ClearedInVain(g, top, g[w][j], longer, n - 1);
    }
    InVainSkips(g, top, g[w], |g[w]|, longer, n);
  }

  lemma ClearedFirstInVain(g: Graph, top: StepID, ids: seq<StepID>, k: nat, chain: seq<StepID>) returns (depth: nat)
    requires ClearedFirst(g, ids, k, {top, ""})
    ensures InVain(g, top, ids, k, chain, depth)
  {
    var n := ClearedAll(g, ids[..k], {top, ""});
    depth := n + 1;
    forall j | 0 <= j < k ensures ids[j] != top && Search(g, top, ids[j], chain, depth).NotFound? {
      assert ids[j] == ids[..k][j];
      ClearedInVain(g, top, ids[j], chain, n);
    }
  }

  /** A search that leads off strays, and from the start it never ends. */
  lemma {:induction false} LeadsOffStrays(g: Graph, top: StepID, current: StepID, chain: seq<StepID>, n: nat)
    requires current != top && LeadsOff(g, top, At(top, current), n)
    ensures Stray(g, top, current, chain)
    ensures current == "" && chain == [] ==> NeverEnds(g, top)
    decreases n
  {
    var at := At(top, current);
    var k: nat :| TurnsAt(g, top, at, k) && (g[at][k] == "" || (n > 0 && LeadsOff(g, top, g[at][k], n - 1)));
    var longer := chain + [at];
    if g[at][k] == "" {
      EmptyIDStrays(g, top, longer);
    } else {
      LeadsOffStrays(g, top, g[at][k], longer, n - 1);
    }
    var depth := ClearedFirstInVain(g, top, g[at], k, longer);
    StraysFrom(g, top, current, chain, k, depth);
  }

  lemma AstrayNeverEnds(g: Graph, top: StepID)
    requires GoesAstray(g, top)
    ensures NeverEnds(g, top)
  {
    var n: nat :| LeadsOff(g, top, top, n);
    LeadsOffStrays(g, top, "", [], n);
  }

  lemma {:induction false} LeadsOffReaches(g: Graph, top: StepID, at: StepID, n: nat)
    requires Closed(g) && LeadsOff(g, top, at, n)
    ensures Reaches(g, at, "") && "" in g
    decreases n
  {
    var k: nat :| TurnsAt(g, top, at, k) && (g[at][k] == "" || (n > 0 && LeadsOff(g, top, g[at][k], n - 1)));
    assert Edge(g, at, g[at][k]);
    if g[at][k] == "" {
      ReachesSelf(g, "");
    } else {
      LeadsOffReaches(g, top, g[at][k], n - 1);
    }
    ReachesStep(g, at, g[at][k], "");
  }

  /** From `at`, the `k`-th requisite leads off. */
  lemma TurnsOff(g: Graph, top: StepID, at: StepID, k: nat)
    requires TurnsAt(g, top, at, k) && (g[at][k] == "" || Off(g, top, g[at][k]))
    ensures Off(g, top, at)
  {
    if g[at][k] == "" {
      assert LeadsOff(g, top, at, 0);
    } else {
      var n: nat :| LeadsOff(g, top, g[at][k], n);
      assert LeadsOff(g, top, at, n + 1);
    }
  }

  /** Where the search may be: in a branch cleared of `top`, or at the first name of
      a lead back to it. */
  ghost predicate Placed(g: Graph, top: StepID, current: StepID, chain: seq<StepID>, lead: seq<StepID>, n: nat) {
    && (lead == [] ==> chain != [] && Tame(g, current, {top}, n))
    && (lead != [] ==>
          && Lead(g, lead, top)
          && lead[0] == (if chain == [] then top else current)
          && (chain == [] ==> current == "")
          && (chain != [] ==> current != top)
          && Walk(g, chain + [lead[0]])
          && (chain + [lead[0]])[0] == top)
  }

  /** What may be reported of a cycle through `top`: the cycle, or the empty ID alone. */
  ghost predicate Reported(g: Graph, top: StepID, cycle: seq<StepID>) {
    (IsCycle(g, cycle) && cycle[0] == top) || (top == "" && cycle == [""])
  }

  /** The first name of the lead, if any, lists the next at `at`, after cleared ones. */
  ghost predicate LeadsAt(g: Graph, lead: seq<StepID>, top: StepID, at: nat) {
    lead != [] ==>
      && lead[0] in g && at < |g[lead[0]]| && g[lead[0]][at] == After(lead, 0, top)
      && forall j :: 0 <= j < at ==> Cleared(g, g[lead[0]][j], {top})
  }

  lemma LeadPosition(g: Graph, lead: seq<StepID>, top: StepID) returns (at: nat)
    requires Lead(g, lead, top)
    ensures LeadsAt(g, lead, top, at)
  {
    at := 0;
    if lead != [] {
      assert LeadAt(g, lead, top, 0, {top});
      var k :| 0 <= k < |g[lead[0]]| && g[lead[0]][k] == After(lead, 0, top)
               && forall j :: 0 <= j < k ==> Cleared(g, g[lead[0]][j], {top});
      at := k;
    }
  }

  lemma TameAvoids(g: Graph, a: StepID, avoid: set<StepID>, n: nat)
    requires Tame(g, a, avoid, n)
    ensures forall b :: b in g[a] ==> b !in avoid
  {
    forall b | b in g[a] ensures b !in avoid {
      assert n > 0 && Tame(g, b, avoid, n - 1);
    }
  }

  /** Only on the lead is `top` met again, and that closes a cycle. */
  lemma ClosesCycle(g: Graph, top: StepID, current: StepID, chain: seq<StepID>, lead: seq<StepID>, n: nat, k: nat)
    requires Placed(g, top, current, chain, lead, n) && current != top && (chain != [] ==> current != "")
    requires var cur := At(top, current); cur in g && k < |g[cur]| && g[cur][k] == top
    ensures lead != [] && Reported(g, top, chain + [At(top, current)] + [top])
  {
    var cur := At(top, current);
    assert g[cur][k] in g[cur];
    if lead == [] {
      TameAvoids(g, cur, {top}, n);
    } else {
      WalkSnoc(g, chain + [cur], top);
    }
  }

  /** One requisite on, the search follows the lead, or is in a cleared branch. */
  lemma NextPlace(g: Graph, top: StepID, current: StepID, chain: seq<StepID>, lead: seq<StepID>, n: nat, at: nat, k: nat)
    returns (rest: seq<StepID>, bound: nat)
    requires Placed(g, top, current, chain, lead, n) && LeadsAt(g, lead, top, at)
    requires current != top && (chain != [] ==> current != "")
    requires var cur := At(top, current);
      cur in g && k < |g[cur]| && g[cur][k] != top && (lead != [] ==> k <= at)
    ensures Placed(g, top, g[At(top, current)][k], chain + [At(top, current)], rest, bound)
    ensures rest != [] <==> lead != [] && k == at
    ensures |rest| < |lead| || (|rest| == |lead| && bound < n)
  {
    var cur := At(top, current);
    var w := g[cur][k];
    rest, bound := [], 0;
    if lead == [] {
      assert w in g[cur];
      bound := n - 1;
    } else if k < at {
      bound :| Tame(g, w, {top}, bound);
    } else {
      rest := lead[1..];
      WalkSnoc(g, chain + [cur], w);
      TailLead(g, lead, top);
    }
  }

  /** The search for the cycle to report.  It marks nothing, so on a graph with
      some other cycle it could run for ever; it is only called along a lead
      back to `top`, and then it follows that lead.  `lead` is what remains of
      it, or nothing in a branch that is cleared of `top`.  Where it begins again
      at a step with an empty ID it never ends, and that is returned at once. */
  method FindCycle(allRecipes: map<StepID, Step>, top: StepID, current: StepID, chain: seq<StepID>,
                   ghost lead: seq<StepID>, ghost n: nat)
    returns (r: SearchResult)
    requires var g := RequisiteGraph(allRecipes);
      Closed(g) && top in g && Placed(g, top, current, chain, lead, n)
    ensures if lead == [] then !r.Found? else !r.NotFound?
    ensures r.Found? ==> Reported(RequisiteGraph(allRecipes), top, r.cycle)
    ensures r.Found? ==> Ends(RequisiteGraph(allRecipes), top, current, chain, r)
    ensures r.NotFound? ==> Cleared(RequisiteGraph(allRecipes), current, {top, ""})
    ensures r.Endless? ==> current != top
    ensures r.Endless? ==> (current == "" && chain != []) || Off(RequisiteGraph(allRecipes), top, At(top, current))
    decreases |lead|, n
  {
    ghost var g := RequisiteGraph(allRecipes);
    if current == top {
      assert Search(g, top, current, chain, 0) == Found(chain + [current]);
      return Found(chain + [current]);
    }
    if current == "" && chain != [] {
      return Endless;
    }
    ghost var at := LeadPosition(g, lead, top);
    var cur := At(top, current);
    var chain' := chain + [cur];
    var ids := CollectAllIDs(allRecipes[cur].requisites);
    for k := 0 to |ids|
      invariant lead != [] ==> k <= at
      invariant ClearedFirst(g, ids, k, {top, ""})
    {
      var w := ids[k];
      assert Edge(g, cur, w);
      if w == top {
        ClosesCycle(g, top, current, chain, lead, n, k);
        FoundHere(g, top, current, chain, k);
        return Found(chain' + [w]);
      }
      ghost var rest, bound := NextPlace(g, top, current, chain, lead, n, at, k);
      r := FindCycle(allRecipes, top, w, chain', rest, bound);
      if r.Endless? {
        TurnsOff(g, top, cur, k);
        return;
      }
      if r.Found? {
        FoundBelow(g, top, current, chain, k, r);
        return;
      }
      ClearedOneMore(g, ids, k, {top, ""});
    }
    ClearedByList(g, cur, {top, ""});
    return NotFound;
  }

  lemma TailLead(g: Graph, lead: seq<StepID>, top: StepID)
    requires Lead(g, lead, top) && lead != []
    ensures Lead(g, lead[1..], top)
  {
    var rest := lead[1..];
    forall i | 0 <= i < |rest|
      ensures LeadAt(g, rest, top, i, {top})
    {
      assert LeadAt(g, lead, top, i + 1, {top});
    }
  }

  lemma StackGivesLead(g: Graph, stack: seq<StepID>, h: nat)
    requires h < |stack| && Stacked(g, stack, stack[h])
    ensures Lead(g, stack[h..], stack[h])
  {
    var lead, top := stack[h..], stack[h];
    forall i | 0 <= i < |lead|
      ensures LeadAt(g, lead, top, i, {top})
    {
      assert LeadAt(g, stack, top, h + i, {stack[h]});
    }
  }

  lemma PushStack(g: Graph, stack: seq<StepID>, seen: set<StepID>, current: StepID, k: nat)
    requires Stacked(g, stack, current) && current in g && k < |g[current]|
    requires Holds(stack, seen) && current !in seen
    requires ClearedFirst(g, g[current], k, seen + {current})
    ensures Stacked(g, stack + [current], g[current][k]) && Holds(stack + [current], seen + {current})
  {
    var taller := stack + [current];
    forall h, i | 0 <= h <= i < |taller|
      ensures LeadAt(g, taller, g[current][k], i, {taller[h]})
    {
      if i < |stack| {
        assert LeadAt(g, stack, current, i, {stack[h]});
      } else {
        assert h < |stack| ==> stack[h] in stack;
        forall j | 0 <= j < k ensures Cleared(g, g[current][j], {taller[h]}) {
          ClearedMonotone(g, g[current][j], seen + {current}, {taller[h]});
        }
      }
    }
  }

  /** The stack holds the names in `seen`, each once. */
  ghost predicate Holds(stack: seq<StepID>, seen: set<StepID>) {
    && (forall x :: x in seen <==> x in stack)
    && NoRepeats(stack)
  }

  ghost predicate NoRepeats(ids: seq<StepID>) {
    forall i, j :: 0 <= i < j < |ids| ==> ids[i] != ids[j]
  }

  ghost predicate OnCycle(g: Graph, top: StepID) {
    exists p :: IsCycle(g, p) && p[0] == top
  }

  /** A lead from `top` back to it is a cycle. */
  lemma LeadIsCycle(g: Graph, lead: seq<StepID>, top: StepID)
    requires Lead(g, lead, top) && lead != [] && lead[0] == top
    ensures OnCycle(g, top) && Cyclic(g)
  {
    var p := lead + [top];
    forall i | 0 <= i < |p| - 1 ensures Edge(g, p[i], p[i + 1]) {
      assert LeadAt(g, lead, top, i, {top});
    }
    assert IsCycle(g, p);
  }

  /** What the search for a cycle through `top` comes to: a cycle, the empty ID if that
      is `top`, or no end, exactly if it goes astray. */
  ghost predicate Told(g: Graph, top: StepID, r: SearchResult) {
    && OnCycle(g, top) && !r.NotFound?
    && (r.Found? ==> Reported(g, top, r.cycle) && Ends(g, top, "", [], r))
    && (r.Endless? <==> GoesAstray(g, top))
    && (r.Endless? ==> NeverEnds(g, top) && Reaches(g, top, "") && "" in g)
  }

  lemma SearchTold(g: Graph, top: StepID, r: SearchResult)
    requires Closed(g) && OnCycle(g, top) && !r.NotFound?
    requires r.Found? ==> Reported(g, top, r.cycle) && Ends(g, top, "", [], r)
    requires r.Endless? ==> GoesAstray(g, top)
    ensures Told(g, top, r)
  {
    if GoesAstray(g, top) {
      AstrayNeverEnds(g, top);
      var n: nat :| LeadsOff(g, top, top, n);
      LeadsOffReaches(g, top, top, n);
    }
  }

  // ----- What is not cleared leads to a cycle -----

  lemma CycleNotCleared(g: Graph, a: StepID)
    requires OnCycle(g, a)
    ensures !Cleared(g, a, {})
  {
    if Cleared(g, a, {}) {
      var n: nat :| Tame(g, a, {}, n);
      var p :| IsCycle(g, p) && p[0] == a;
      TameNotOnCycle(g, a, {}, n, p);
    }
  }

  lemma ClearedEdge(g: Graph, a: StepID, b: StepID)
    requires Edge(g, a, b) && Cleared(g, a, {})
    ensures Cleared(g, b, {})
  {
    var n: nat :| Tame(g, a, {}, n);
    assert n > 0 && Tame(g, b, {}, n - 1);
  }

  lemma {:induction false} ClearedWalk(g: Graph, p: seq<StepID>)
    requires Walk(g, p) && Cleared(g, p[0], {})
    ensures Cleared(g, p[|p| - 1], {})
    decreases |p|
  {
    if |p| > 1 {
      WalkTail(g, p);
      ClearedEdge(g, p[0], p[1]);
      ClearedWalk(g, p[1..]);
    }
  }

  /** The part of the graph that `a` reaches. */
  ghost function Below(g: Graph, a: StepID): Graph {
    map x | x in g && Reaches(g, a, x) :: g[x]
  }

  lemma {:induction false} TameBelow(g: Graph, a: StepID, b: StepID, n: nat)
    requires Tame(Below(g, a), b, {}, n)
    ensures Tame(g, b, {}, n)
    decreases n
  {
    forall c | c in g[b] ensures n > 0 && Tame(g, c, {}, n - 1) {
      TameBelow(g, a, c, n - 1);
    }
  }

  lemma CycleBelow(g: Graph, a: StepID, p: seq<StepID>)
    requires IsCycle(Below(g, a), p)
    ensures IsCycle(g, p) && Reaches(g, a, p[0])
  {
    forall i | 0 <= i < |p| - 1 ensures Edge(g, p[i], p[i + 1]) {
      assert Edge(Below(g, a), p[i], p[i + 1]);
    }
    assert Edge(Below(g, a), p[0], p[0 + 1]);
  }

  ghost predicate LeadsToCycle(g: Graph, a: StepID) {
    exists c :: Reaches(g, a, c) && OnCycle(g, c)
  }

  /** A step is not cleared iff its requisites lead to a cycle. */
  lemma ClearedUnlessCycle(g: Graph, a: StepID)
    requires Closed(g) && a in g
    ensures !Cleared(g, a, {}) <==> LeadsToCycle(g, a)
  {
    if LeadsToCycle(g, a) {
      var c :| Reaches(g, a, c) && OnCycle(g, c);
      var p :| WalkTo(g, a, c, p);
      CycleNotCleared(g, c);
      if Cleared(g, a, {}) {
        ClearedWalk(g, p);
      }
    } else {
      NoCycleCleared(g, a);
    }
  }

  lemma NoCycleCleared(g: Graph, a: StepID)
    requires Closed(g) && a in g
    ensures Cleared(g, a, {}) || LeadsToCycle(g, a)
  {
    var h := Below(g, a);
    ReachesSelf(g, a);
    forall x, y | Edge(h, x, y) ensures y in h {
      assert Edge(g, x, y);
      ReachesThen(g, a, x, y);
    }
    if p :| IsCycle(h, p) {
      CycleBelow(g, a, p);
      assert OnCycle(g, p[0]);
    } else {
      AcyclicTame(h, a);
      TameBelow(g, a, a, |h.Keys|);
    }
  }

  // ----- Which step is met twice -----

  /** The first of `ids` that leads to a cycle is at `k`; see ClearedUnlessCycle. */
  ghost predicate FirstDoomed(g: Graph, ids: seq<StepID>, k: nat) {
    k < |ids| && ClearedFirst(g, ids, k, {}) && !Cleared(g, ids[k], {})
  }

  ghost predicate FirstDoomedIs(g: Graph, ids: seq<StepID>, a: StepID) {
    exists k: nat :: FirstDoomed(g, ids, k) && ids[k] == a
  }

  /** What follows entry `i` is the first of its requisites to lead to a cycle. */
  ghost predicate DrawnAt(g: Graph, path: seq<StepID>, i: nat) {
    i + 1 < |path| && path[i] in g && FirstDoomedIs(g, g[path[i]], path[i + 1])
  }

  ghost predicate Drawn(g: Graph, path: seq<StepID>) {
    forall i :: 0 <= i < |path| - 1 ==> DrawnAt(g, path, i)
  }

  /** From its first entry on, always to the first requisite that leads to a cycle,
      until one is met again. */
  ghost predicate Circles(g: Graph, path: seq<StepID>) {
    && |path| >= 2 && Drawn(g, path)
    && NoRepeats(path[..|path| - 1])
    && path[|path| - 1] in path[..|path| - 1]
  }

  ghost predicate MeetsTwice(steps: seq<Step>, path: seq<StepID>, top: StepID) {
    && Circles(GraphOf(steps), path) && path[|path| - 1] == top
    && FirstDoomedIs(GraphOf(steps), IDs(steps), path[0])
  }

  /** Starting at the first step that leads to a cycle, and going on to the first
      requisite that does, `top` is the first step met again. */
  ghost predicate MetTwice(steps: seq<Step>, top: StepID) {
    exists path :: MeetsTwice(steps, path, top)
  }

  lemma FirstDoomedUnique(g: Graph, ids: seq<StepID>, a: StepID, b: StepID)
    requires FirstDoomedIs(g, ids, a) && FirstDoomedIs(g, ids, b)
    ensures a == b
  {
    var k: nat :| FirstDoomed(g, ids, k) && ids[k] == a;
    var l: nat :| FirstDoomed(g, ids, l) && ids[l] == b;
  }

  lemma {:induction false} DrawnAgree(g: Graph, p: seq<StepID>, q: seq<StepID>, i: nat)
    requires Drawn(g, p) && Drawn(g, q) && i < |p| && i < |q| && p[0] == q[0]
    ensures p[i] == q[i]
  {
    if i > 0 {
      DrawnAgree(g, p, q, i - 1);
      assert DrawnAt(g, p, i - 1) && DrawnAt(g, q, i - 1);
      FirstDoomedUnique(g, g[p[i - 1]], p[i], q[i]);
    }
  }

  lemma LongerRepeats(g: Graph, p: seq<StepID>, q: seq<StepID>)
    requires Circles(g, p) && Drawn(g, q) && |p| < |q| && p[0] == q[0]
    ensures !NoRepeats(q[..|q| - 1])
  {
    var last := |p| - 1;
    var h :| 0 <= h < last && p[..last][h] == p[last];
    DrawnAgree(g, p, q, h);
    DrawnAgree(g, p, q, last);
    var front := q[..|q| - 1];
    assert front[h] == front[last];
  }

  /** There is only one such step. */
  lemma MetTwiceUnique(steps: seq<Step>, a: StepID, b: StepID)
    requires MetTwice(steps, a) && MetTwice(steps, b)
    ensures a == b
  {
    var g := GraphOf(steps);
    var p :| MeetsTwice(steps, p, a);
    var q :| MeetsTwice(steps, q, b);
    FirstDoomedUnique(g, IDs(steps), p[0], q[0]);
    if |p| < |q| {
      LongerRepeats(g, p, q);
    } else if |q| < |p| {
      LongerRepeats(g, q, p);
    }
    DrawnAgree(g, p, q, |p| - 1);
  }

  /** Everything on a stack that leads to a cycle leads to one, first of its list. */
  lemma {:induction false} StackDoomed(g: Graph, stack: seq<StepID>, current: StepID, i: nat)
    requires Stacked(g, stack, current) && !Cleared(g, current, {}) && i < |stack|
    ensures !Cleared(g, stack[i], {}) && DrawnAt(g, stack + [current], i)
    decreases |stack| - i
  {
    var next := After(stack, i, current);
    if i + 1 < |stack| {
      StackDoomed(g, stack, current, i + 1);
    }
    assert LeadAt(g, stack, current, i, {stack[i]});
    var ids := g[stack[i]];
    var k :| 0 <= k < |ids| && ids[k] == next && forall j :: 0 <= j < k ==> Cleared(g, ids[j], {stack[i]});
    forall j | 0 <= j < k ensures Cleared(g, ids[j], {}) {
      ClearedMonotone(g, ids[j], {stack[i]}, {});
    }
    if Cleared(g, stack[i], {}) {
      ClearedEdge(g, stack[i], next);
    }
    assert FirstDoomed(g, ids, k);
    assert (stack + [current])[i + 1] == next;
  }

  lemma StackCircles(g: Graph, stack: seq<StepID>, current: StepID)
    requires Stacked(g, stack, current) && NoRepeats(stack) && current in stack && OnCycle(g, current)
    ensures Circles(g, stack + [current])
  {
    var path := stack + [current];
    CycleNotCleared(g, current);
    forall i | 0 <= i < |path| - 1 ensures DrawnAt(g, path, i) {
      StackDoomed(g, stack, current, i);
    }
    assert path[..|path| - 1] == stack;
  }

  ghost predicate StartsWith(path: seq<StepID>, start: seq<StepID>) {
    |start| <= |path| && path[..|start|] == start
  }

  ghost predicate TellsAlong(g: Graph, path: seq<StepID>, start: seq<StepID>, r: SearchResult) {
    StartsWith(path, start) && Circles(g, path) && Told(g, path[|path| - 1], r)
  }

  /** Going on from `start` a step was met again, and `r` is what the search for a
      cycle through it comes to. */
  ghost predicate TellsFrom(g: Graph, start: seq<StepID>, r: SearchResult) {
    exists path :: TellsAlong(g, path, start, r)
  }

  lemma TellsFromLess(g: Graph, start: seq<StepID>, more: StepID, r: SearchResult)
    requires TellsFrom(g, start + [more], r)
    ensures TellsFrom(g, start, r)
  {
    var path :| TellsAlong(g, path, start + [more], r);
    assert path[..|start|] == path[..|start| + 1][..|start|] == start;
    assert TellsAlong(g, path, start, r);
  }

  /** What is told of the recipe's cycles: what the search comes to for the step that
      is met twice first. */
  ghost predicate Tells(steps: seq<Step>, r: SearchResult) {
    exists top :: MetTwice(steps, top) && Told(GraphOf(steps), top, r)
  }

  class CycleSearch {
    const allSteps: map<StepID, Step>
    var isVisited: map<StepID, bool>
    var isValidated: map<StepID, bool>

    predicate Visited(id: StepID)
      reads this
    {
      id in isVisited && isVisited[id]
    }

    predicate Validated(id: StepID)
      reads this
    {
      id in isValidated && isValidated[id]
    }

    ghost function Graph(): Graph {
      RequisiteGraph(allSteps)
    }

    /** Whatever is marked validated is on no cycle. */
    ghost predicate Valid()
      reads this
    {
      && Closed(Graph())
      && forall id :: Validated(id) ==> Cleared(Graph(), id, {})
    }

    /** The visited marks are those of `seen`. */
    ghost predicate Marked(seen: set<StepID>)
      reads this
    {
      forall id :: Visited(id) <==> id in seen
    }

    /** Nothing is unmarked as validated. */
    twostate predicate KeepsValidated()
      reads this
    {
      forall id :: old(Validated(id)) ==> Validated(id)
    }

    constructor (steps: map<StepID, Step>)
      requires Closed(RequisiteGraph(steps))
      ensures Valid() && allSteps == steps
      ensures Marked({})
    {
      allSteps := steps;
      isVisited := map id | id in steps :: false;
      isValidated := map id | id in steps :: false;
    }

    /** Depth-first search; the visited marks, `seen`, are those of `stack`. */
    method Dfs(current: StepID, ghost stack: seq<StepID>, ghost seen: set<StepID>)
      returns (r: SearchResult)
      requires Valid() && current in allSteps && Stacked(Graph(), stack, current)
      requires Marked(seen)
      requires Holds(stack, seen) && seen <= allSteps.Keys
      modifies this
      ensures Valid()
      ensures r.NotFound? || TellsFrom(Graph(), stack + [current], r)
      ensures r.NotFound? ==> Cleared(Graph(), current, seen) && Validated(current)
      ensures r.NotFound? ==> Marked(seen)
      ensures r.NotFound? ==> KeepsValidated()
      decreases |allSteps.Keys - seen|
    {
      if Visited(current) {
        ghost var h :| 0 <= h < |stack| && stack[h] == current;
        StackGivesLead(Graph(), stack, h);
        LeadIsCycle(Graph(), stack[h..], current);
        r := FindCycle(allSteps, current, "", [], stack[h..], 0);
        SearchTold(Graph(), current, r);
        StackCircles(Graph(), stack, current);
        assert TellsAlong(Graph(), stack + [current], stack + [current], r);
        return;
      }
      isVisited := isVisited[current := true];
      r := DfsRequisites(current, stack, seen);
      if !r.NotFound? {
        return;
      }
      ClearedNode(Graph(), current, seen);
      ClearedMonotone(Graph(), current, seen, {});
      label explored:
      isValidated := isValidated[current := true];
      isVisited := isVisited[current := false];
      assert forall id :: Validated(id) <==> old@explored(Validated(id)) || id == current;
      assert forall id :: Visited(id) <==> old@explored(Visited(id)) && id != current;
    }

    /** The loop over what `current` requires. */
    method DfsRequisites(current: StepID, ghost stack: seq<StepID>, ghost seen: set<StepID>)
      returns (r: SearchResult)
      requires Valid() && current in allSteps && current !in seen && Stacked(Graph(), stack, current)
      requires Marked(seen + {current})
      requires Holds(stack, seen) && seen <= allSteps.Keys
      modifies this
      ensures Valid()
      ensures r.NotFound? || TellsFrom(Graph(), stack + [current], r)
      ensures r.NotFound? ==> ClearedFirst(Graph(), Graph()[current], |Graph()[current]|, seen + {current})
      ensures r.NotFound? ==> Marked(seen + {current})
      ensures r.NotFound? ==> KeepsValidated()
      decreases |allSteps.Keys - seen|, 0
    {
      ghost var g := Graph();
      ghost var taller := stack + [current];
      assert allSteps.Keys - (seen + {current}) == (allSteps.Keys - seen) - {current};
      var ids := CollectAllIDs(allSteps[current].requisites);
      for k := 0 to |ids|
        invariant Valid()
        invariant Marked(seen + {current})
        invariant KeepsValidated()
        invariant ClearedFirst(g, ids, k, seen + {current})
      {
        assert Edge(g, current, ids[k]);
        PushStack(g, stack, seen, current, k);
        r := Dfs(ids[k], taller, seen + {current});
        if !r.NotFound? {
          TellsFromLess(g, taller, ids[k], r);
          return;
        }
        ClearedOneMore(g, ids, k, seen + {current});
      }
      return NotFound;
    }
  }

  /** A cycle is met iff there is one; what is then told is what the search comes to
      for the step that is met twice. */
  ghost predicate CycleVerdict(steps: seq<Step>, r: SearchResult) {
    && (r.NotFound? <==> !Cyclic(GraphOf(steps)))
    && (r.NotFound? || Tells(steps, r))
  }

  method HasCycle(allRecipes: seq<Step>) returns (r: SearchResult)
    requires Closed(GraphOf(allRecipes))
    ensures CycleVerdict(allRecipes, r)
    ensures "" !in StepMap(allRecipes) && !r.NotFound? ==> r.Found? && IsCycle(GraphOf(allRecipes), r.cycle)
  {
    ghost var g := GraphOf(allRecipes);
    StepMapKeys(allRecipes);
    var search := new CycleSearch(StepMap(allRecipes));
    for k := 0 to |allRecipes|
      invariant search.Valid() && search.allSteps == StepMap(allRecipes)
      invariant search.Marked({})
      invariant forall i :: 0 <= i < k ==> search.Validated(allRecipes[i].id)
    {
      if !search.Validated(allRecipes[k].id) {
        r := search.Dfs(allRecipes[k].id, [], {});
        if !r.NotFound? {
          FirstToTell(allRecipes, k, r);
          return;
        }
      }
    }
    forall a | a in g ensures Cleared(g, a, {}) {
      var s :| s in allRecipes && s.id == a;
    }
    AllClearedMeansAcyclic(g);
    return NotFound;
  }

  /** If no step before the `k`-th leads to a cycle, what is met from there is met first. */
  lemma FirstToTell(steps: seq<Step>, k: nat, r: SearchResult)
    requires k < |steps| && TellsFrom(GraphOf(steps), [] + [steps[k].id], r)
    requires forall i :: 0 <= i < k ==> Cleared(GraphOf(steps), steps[i].id, {})
    ensures Tells(steps, r) && Cyclic(GraphOf(steps))
    ensures "" !in StepMap(steps) ==> r.Found? && IsCycle(GraphOf(steps), r.cycle)
  {
    var g := GraphOf(steps);
    var start := [] + [steps[k].id];
    var path :| TellsAlong(g, path, start, r);
    var top := path[|path| - 1];
    assert path[0] == path[..1][0] == steps[k].id;
    PathStartsDoomed(g, path);
    assert FirstDoomed(g, IDs(steps), k);
    assert MeetsTwice(steps, path, top);
    var p :| IsCycle(g, p) && p[0] == top;
    assert Edge(g, p[0], p[0 + 1]);
  }

  lemma PathStartsDoomed(g: Graph, path: seq<StepID>)
    requires Circles(g, path)
    ensures !Cleared(g, path[0], {})
  {
    assert DrawnAt(g, path, 0);
    var k: nat :| FirstDoomed(g, g[path[0]], k) && g[path[0]][k] == path[1];
    if Cleared(g, path[0], {}) {
      ClearedEdge(g, path[0], path[1]);
    }
  }

  /** When a cycle is shown.  With `top` the step met twice: a real one, iff `top` has
      a name and the search does not go astray; the empty ID alone, iff `top` is
      unnamed; and the search never ends iff it goes astray. */
  lemma CycleShownExactly(steps: seq<Step>, r: SearchResult, top: StepID)
    requires CycleVerdict(steps, r) && Cyclic(GraphOf(steps)) && MetTwice(steps, top)
    ensures r.Found? && IsCycle(GraphOf(steps), r.cycle) <==> top != "" && !GoesAstray(GraphOf(steps), top)
    ensures r == Found([""]) <==> top == ""
    ensures r.Endless? <==> GoesAstray(GraphOf(steps), top)
    ensures Told(GraphOf(steps), top, r)
  {
    var t :| MetTwice(steps, t) && Told(GraphOf(steps), t, r);
    MetTwiceUnique(steps, t, top);
    if top == "" {
      AtOnce(GraphOf(steps), r);
    }
  }

  /** An unnamed step is reported at once. */
  lemma AtOnce(g: Graph, r: SearchResult)
    requires Told(g, "", r)
    ensures r == Found([""])
  {
    var d: nat :| Search(g, "", "", [], d) == r;
  }

  /** A step `a` that requires an unnamed step and then itself. */
  function Unending(): seq<Step> {
    [Step("a", [Requisite(Require, ["", "a"])]), Step("", [])]
  }

  lemma UnendingGraph()
    ensures GraphOf(Unending()) == map["a" := ["", "a"], "" := []]
  {
    var steps := Unending();
    assert steps[..1][..0] == [];
    assert StepMap(steps[..1]) == map["a" := steps[0]];
    assert StepMap(steps) == map["a" := steps[0], "" := steps[1]];
    var reqs := steps[0].requisites;
    assert reqs[..0] == [] && AllIDs(reqs) == ["", "a"];
  }

  lemma UnendingAstray(g: Graph)
    requires g == map["a" := ["", "a"], "" := []]
    ensures Closed(g) && Cyclic(g) && GoesAstray(g, "a")
    ensures forall top :: OnCycle(g, top) ==> top == "a"
  {
    assert IsCycle(g, ["a", "a"]);
    assert TurnsAt(g, "a", "a", 0);
    TurnsOff(g, "a", "a", 0);
    forall top | OnCycle(g, top) ensures top == "a" {
      var p :| IsCycle(g, p) && p[0] == top;
      assert Edge(g, p[0], p[0 + 1]);
    }
  }

  /** On that recipe the search for its cycle starts over at the unnamed step, for ever. */
  lemma EmptyIDNeverEnds(r: SearchResult)
    requires CycleVerdict(Unending(), r)
    ensures Closed(GraphOf(Unending())) && r.Endless? && NeverEnds(GraphOf(Unending()), "a")
  {
    UnendingGraph();
    var g := GraphOf(Unending());
    UnendingAstray(g);
    AstrayNeverEnds(g, "a");
    var top :| MetTwice(Unending(), top) && Told(g, top, r);
  }
}
