/**
 The farmer's recipe validation as a whole: the checks, then the linking of the
 step objects into trees.
 */
module Trees {
  import opened Graphs
  import opened Recipe
  import opened Rootball

  /** A step object; `linked[i]` are the steps its i-th requisite points at. */
  class StepNode {
    const step: Step
    var linked: seq<seq<StepNode>>
    var isRequisite: bool

    constructor (step: Step)
      ensures this.step == step && Shaped() && Unlinked() && !isRequisite
    {
      this.step := step;
      linked := seq(|step.requisites|, _ => []);
      isRequisite := false;
    }

    /** Each requisite holds its own links. */
    ghost predicate Shaped()
      reads this`linked
    {
      |linked| == |step.requisites|
    }

    ghost predicate Unlinked()
      reads this`linked
    {
      forall i :: 0 <= i < |linked| ==> linked[i] == []
    }
  }

  datatype CheckResult =
    | Passed
    | DuplicateIDs(ids: seq<StepID>)
    | UndefinedRequisites(ids: seq<StepID>)
    | DependencyCycle(chain: seq<StepID>)
    | NeverReturns

  function Plain(nodes: seq<StepNode>): (steps: seq<Step>)
    ensures |steps| == |nodes| && forall i :: 0 <= i < |nodes| ==> steps[i] == nodes[i].step
  {
    seq(|nodes|, i requires 0 <= i < |nodes| => nodes[i].step)
  }

  /** Freshly built steps. */
  ghost predicate Fresh(nodes: seq<StepNode>)
    reads nodes
  {
    forall n :: n in nodes ==> n.Unlinked() && !n.isRequisite
  }

  ghost predicate Catalogued(byID: map<StepID, StepNode>) {
    forall id :: id in byID ==> byID[id].step.id == id
  }

  ghost predicate LinkMatches(byID: map<StepID, StepNode>, ids: seq<StepID>, links: seq<StepNode>) {
    |links| == |ids| && forall k :: 0 <= k < |ids| ==> ids[k] in byID && links[k] == byID[ids[k]]
  }

  /** The links the requisites name. */
  ghost predicate LinksMatch(byID: map<StepID, StepNode>, n: StepNode)
    reads n`linked
  {
    && n.Shaped()
    && forall i :: 0 <= i < |n.linked| ==> LinkMatches(byID, n.step.requisites[i].stepIDs, n.linked[i])
  }

  /** The links there were, and after them those `ids` name. */
  ghost predicate LinkAppended(byID: map<StepID, StepNode>, ids: seq<StepID>, before: seq<StepNode>, after: seq<StepNode>) {
    |before| <= |after| && before == after[..|before|] && LinkMatches(byID, ids, after[|before|..])
  }

  ghost predicate LinksAppended(byID: map<StepID, StepNode>, n: StepNode, before: seq<seq<StepNode>>)
    reads n`linked
  {
    && n.Shaped() && |before| == |n.linked|
    && forall i :: 0 <= i < |n.linked| ==> LinkAppended(byID, n.step.requisites[i].stepIDs, before[i], n.linked[i])
  }

  lemma AppendOne(byID: map<StepID, StepNode>, ids: seq<StepID>, k: nat, before: seq<StepNode>, after: seq<StepNode>)
    requires k < |ids| && ids[k] in byID && LinkAppended(byID, ids[..k], before, after)
    ensures LinkAppended(byID, ids[..k + 1], before, after + [byID[ids[k]]])
  {
    var more := after + [byID[ids[k]]];
    assert more[|before|..] == after[|before|..] + [byID[ids[k]]];
    assert ids[..k + 1] == ids[..k] + [ids[k]];
  }

  /** Link one requisite of `n`, marking each step it points at. */
  method LinkRequisite(n: StepNode, i: nat, byID: map<StepID, StepNode>)
    requires Catalogued(byID) && n.Shaped() && i < |n.linked|
    requires forall id :: id in n.step.requisites[i].stepIDs ==> id in byID
    modifies n`linked, byID.Values`isRequisite
    ensures n.Shaped()
    ensures LinkAppended(byID, n.step.requisites[i].stepIDs, old(n.linked[i]), n.linked[i])
    ensures forall j :: 0 <= j < |n.linked| && j != i ==> n.linked[j] == old(n.linked[j])
    ensures forall x :: x in byID.Values ==>
              (x.isRequisite <==> old(x.isRequisite) || x.step.id in n.step.requisites[i].stepIDs)
  {
    var ids := n.step.requisites[i].stepIDs;
    for k := 0 to |ids|
      invariant n.Shaped()
      invariant LinkAppended(byID, ids[..k], old(n.linked[i]), n.linked[i])
      invariant forall j :: 0 <= j < |n.linked| && j != i ==> n.linked[j] == old(n.linked[j])
      invariant forall x :: x in byID.Values ==> (x.isRequisite <==> old(x.isRequisite) || x.step.id in ids[..k])
    {
      var target := byID[ids[k]];
      AppendOne(byID, ids, k, old(n.linked[i]), n.linked[i]);
      n.linked := n.linked[i := n.linked[i] + [target]];
      target.isRequisite := true;
      assert forall x :: x in byID.Values ==> (x == target <==> x.step.id == ids[k]);
      assert ids[..k + 1] == ids[..k] + [ids[k]];
    }
    assert ids[..|ids|] == ids;
  }

  /** Link every requisite of `n`. */
  method LinkStep(n: StepNode, byID: map<StepID, StepNode>)
    requires Catalogued(byID) && n.Shaped()
    requires forall id :: id in AllIDs(n.step.requisites) ==> id in byID
    modifies n`linked, byID.Values`isRequisite
    ensures LinksAppended(byID, n, old(n.linked))
    ensures forall x :: x in byID.Values ==>
              (x.isRequisite <==> old(x.isRequisite) || x.step.id in AllIDs(n.step.requisites))
  {
    var reqs := n.step.requisites;
    for i := 0 to |reqs|
      invariant n.Shaped()
      invariant forall j :: 0 <= j < i ==> LinkAppended(byID, reqs[j].stepIDs, old(n.linked[j]), n.linked[j])
      invariant forall j :: i <= j < |reqs| ==> n.linked[j] == old(n.linked[j])
      invariant forall x :: x in byID.Values ==> (x.isRequisite <==> old(x.isRequisite) || x.step.id in AllIDs(reqs[..i]))
    {
      forall id | id in reqs[i].stepIDs ensures id in byID {
        assert reqs[i] in reqs;
        AllIDsMembers(reqs, id);
      }
      LinkRequisite(n, i, byID);
      assert reqs[..i + 1][..i] == reqs[..i];
    }
    assert reqs[..|reqs|] == reqs;
  }

  ghost predicate RequiredBy(byID: map<StepID, StepNode>, among: set<StepID>, id: StepID) {
    exists d :: d in among && d in byID && id in AllIDs(byID[d].step.requisites)
  }

  lemma RequiredByMore(byID: map<StepID, StepNode>, among: set<StepID>, d: StepID)
    requires d in byID
    ensures forall id :: RequiredBy(byID, among + {d}, id) <==>
              RequiredBy(byID, among, id) || id in AllIDs(byID[d].step.requisites)
  {
  }

  type LinkLists = map<StepID, seq<seq<StepNode>>>

  /** All steps but those in `todo` are linked; `before` holds the links there were. */
  ghost predicate LinkedBut(byID: map<StepID, StepNode>, todo: set<StepID>, before: LinkLists)
    reads byID.Values`linked
  {
    && before.Keys == byID.Keys
    && (forall d :: d in byID && d in todo ==> byID[d].linked == before[d])
    && (forall d :: d in byID && d !in todo ==> LinksAppended(byID, byID[d], before[d]))
  }

  /** Marked are the steps marked before and those `among` require. */
  ghost predicate MarkedBy(byID: map<StepID, StepNode>, among: set<StepID>, before: set<StepNode>)
    reads byID.Values`isRequisite
  {
    forall x :: x in byID.Values ==> (x.isRequisite <==> x in before || RequiredBy(byID, among, x.step.id))
  }

  /** Link the next step. */
  method LinkNext(byID: map<StepID, StepNode>, d: StepID, ghost todo: set<StepID>, ghost links: LinkLists, ghost marks: set<StepNode>)
    requires Catalogued(byID) && d in todo && todo <= byID.Keys && byID[d].Shaped()
    requires forall id :: id in AllIDs(byID[d].step.requisites) ==> id in byID
    requires LinkedBut(byID, todo, links) && MarkedBy(byID, byID.Keys - todo, marks)
    modifies byID.Values`linked, byID.Values`isRequisite
    ensures LinkedBut(byID, todo - {d}, links) && MarkedBy(byID, byID.Keys - (todo - {d}), marks)
  {
    RequiredByMore(byID, byID.Keys - todo, d);
    assert byID.Keys - (todo - {d}) == byID.Keys - todo + {d};
    LinkStep(byID[d], byID);
    assert forall e :: e in byID && e != d ==> byID[e] != byID[d];
  }

  /** Link all steps, in whatever order the map yields them. */
  method LinkAll(byID: map<StepID, StepNode>)
    requires Catalogued(byID)
    requires forall d, id :: d in byID && id in AllIDs(byID[d].step.requisites) ==> id in byID
    requires forall d :: d in byID ==> byID[d].Shaped()
    modifies byID.Values
    ensures forall x :: x in byID.Values ==> LinksAppended(byID, x, old(x.linked))
    ensures forall x :: x in byID.Values ==>
              (x.isRequisite <==> old(x.isRequisite) || RequiredBy(byID, byID.Keys, x.step.id))
  {
    ghost var links := map d | d in byID :: byID[d].linked;
    ghost var marks := set x: StepNode | x in byID.Values && x.isRequisite;
    var todo := byID.Keys;
    while todo != {}
      invariant todo <= byID.Keys
      invariant LinkedBut(byID, todo, links)
      invariant MarkedBy(byID, byID.Keys - todo, marks)
    {
      var d :| d in todo;
      LinkNext(byID, d, todo, links, marks);
      todo := todo - {d};
    }
    assert byID.Keys - todo == byID.Keys;
  }

  /** Nodes by ID; a later node with the same ID replaces an earlier one. */
  function NodeMap(nodes: seq<StepNode>): (m: map<StepID, StepNode>)
    ensures Catalogued(m)
  {
    if nodes == [] then map[]
    else
      var last := nodes[|nodes| - 1];
      NodeMap(nodes[..|nodes| - 1])[last.step.id := last]
  }

  lemma {:induction false} NodeMapPlain(nodes: seq<StepNode>)
    ensures NodeMap(nodes).Keys == StepMap(Plain(nodes)).Keys
    ensures forall id :: id in NodeMap(nodes) ==> NodeMap(nodes)[id] in nodes && NodeMap(nodes)[id].step == StepMap(Plain(nodes))[id]
  {
    if nodes != [] {
      var front := nodes[..|nodes| - 1];
      NodeMapPlain(front);
      assert Plain(nodes)[..|nodes| - 1] == Plain(front);
    }
  }

  lemma NodeMapValues(nodes: seq<StepNode>)
    requires UniqueIDs(Plain(nodes))
    ensures forall n :: n in NodeMap(nodes).Values <==> n in nodes
  {
    NodeMapPlain(nodes);
    forall n | n in nodes ensures n in NodeMap(nodes).Values {
      NodeIsMapped(nodes, n);
    }
  }

  lemma NodeIsMapped(nodes: seq<StepNode>, n: StepNode)
    requires UniqueIDs(Plain(nodes)) && n in nodes
    ensures n.step.id in NodeMap(nodes) && NodeMap(nodes)[n.step.id] == n
  {
    var steps, byID := Plain(nodes), NodeMap(nodes);
    NodeMapPlain(nodes);
    StepMapUnique(steps);
    var i :| 0 <= i < |nodes| && nodes[i] == n;
    assert steps[i] in steps;
    var j :| 0 <= j < |nodes| && nodes[j] == byID[n.step.id];
    assert steps[i].id == steps[j].id;
  }

  ghost predicate Required(steps: map<StepID, Step>, id: StepID) {
    exists a :: Edge(RequisiteGraph(steps), a, id)
  }

  /** Above every node of a finite acyclic graph there is one nobody lists.
      `h` is a length that some walk from `id` reaches. */
  lemma {:induction false} RootAbove(g: Graph, id: StepID, h: nat) returns (root: StepID)
    requires Closed(g) && !Cyclic(g) && id in g
    requires h == 0 || !Tame(g, id, {}, h - 1)
    ensures root in g && Reaches(g, root, id) && forall a :: !Edge(g, a, root)
    decreases |g.Keys| - h
  {
    if a :| Edge(g, a, id) {
      AcyclicTame(g, a);
      if |g.Keys| <= h {
        TameMonotone(g, a, {}, |g.Keys|, {}, h);
      }
      root := RootAbove(g, a, h + 1);
      ReachesThen(g, root, a, id);
    } else {
      root := id;
      ReachesSelf(g, id);
    }
  }

  method FindRoots(nodes: seq<StepNode>) returns (roots: seq<StepNode>)
    ensures roots == NotRequisite(nodes)
  {
    roots := [];
    for k := 0 to |nodes|
      invariant roots == NotRequisite(nodes[..k])
    {
      assert nodes[..k + 1][..k] == nodes[..k];
      if !nodes[k].isRequisite {
        roots := roots + [nodes[k]];
      }
    }
    assert nodes[..|nodes|] == nodes;
  }

  /** The nodes nothing requires, in order. */
  function NotRequisite(nodes: seq<StepNode>): (roots: seq<StepNode>)
    reads nodes
    ensures forall n :: n in roots ==> n in nodes && !n.isRequisite
    ensures forall n :: n in nodes && !n.isRequisite ==> n in roots
  {
    if nodes == [] then []
    else
      var front, last := NotRequisite(nodes[..|nodes| - 1]), nodes[|nodes| - 1];
      assert nodes == nodes[..|nodes| - 1] + [last];
      if last.isRequisite then front else front + [last]
  }

  /** In order, and each node once for every time it comes up. */
  lemma {:induction false} RootsInOrder(a: seq<StepNode>, b: seq<StepNode>)
    ensures NotRequisite(a + b) == NotRequisite(a) + NotRequisite(b)
    ensures |a| == 1 ==> NotRequisite(a) == if a[0].isRequisite then [] else a
    decreases |b|
  {
    if b == [] {
      assert a + b == a;
    } else {
      assert (a + b)[..|a + b| - 1] == a + b[..|b| - 1];
      RootsInOrder(a, b[..|b| - 1]);
    }
    if |a| == 1 {
      assert a[..0] == [];
    }
  }

  ghost predicate Forest(nodes: seq<StepNode>, roots: seq<StepNode>)
    reads nodes
  {
    var steps := StepMap(Plain(nodes));
    && (forall n :: n in nodes ==> LinksMatch(NodeMap(nodes), n))
    && (forall n :: n in nodes ==> (n.isRequisite <==> Required(steps, n.step.id)))
    && roots == NotRequisite(nodes)
    && (forall n :: n in nodes ==> exists r :: r in roots && Reaches(RequisiteGraph(steps), r.step.id, n.step.id))
  }

  lemma RequiredIsEdge(nodes: seq<StepNode>, id: StepID)
    ensures RequiredBy(NodeMap(nodes), NodeMap(nodes).Keys, id) <==> Required(StepMap(Plain(nodes)), id)
  {
    NodeMapPlain(nodes);
    var byID, g := NodeMap(nodes), GraphOf(Plain(nodes));
    if d :| d in byID && id in AllIDs(byID[d].step.requisites) {
      assert Edge(g, d, id);
    }
    if a :| Edge(g, a, id) {
      assert id in AllIDs(byID[a].step.requisites);
    }
  }

  lemma EveryStepUnderARoot(nodes: seq<StepNode>, n: StepNode)
    requires ValidRecipe(Plain(nodes))
    requires forall x :: x in nodes ==> (x.isRequisite <==> Required(StepMap(Plain(nodes)), x.step.id))
    requires n in nodes
    ensures exists r :: r in NotRequisite(nodes) && Reaches(GraphOf(Plain(nodes)), r.step.id, n.step.id)
  {
    NodeMapPlain(nodes);
    NodeMapValues(nodes);
    var root := RootAbove(GraphOf(Plain(nodes)), n.step.id, 0);
    var r := NodeMap(nodes)[root];
    assert !Required(StepMap(Plain(nodes)), root);
    assert r in NotRequisite(nodes);
  }

  lemma AppendedToNothing(byID: map<StepID, StepNode>, n: StepNode, before: seq<seq<StepNode>>)
    requires LinksAppended(byID, n, before) && forall i :: 0 <= i < |before| ==> before[i] == []
    ensures LinksMatch(byID, n)
  {
    forall i | 0 <= i < |n.linked| ensures LinkMatches(byID, n.step.requisites[i].stepIDs, n.linked[i]) {
      assert LinkAppended(byID, n.step.requisites[i].stepIDs, before[i], n.linked[i]);
      assert n.linked[i][0..] == n.linked[i];
    }
  }

  lemma ForestHolds(nodes: seq<StepNode>, roots: seq<StepNode>)
    requires ValidRecipe(Plain(nodes))
    requires forall x :: x in nodes ==> LinksMatch(NodeMap(nodes), x)
    requires forall x :: x in nodes ==> (x.isRequisite <==> Required(StepMap(Plain(nodes)), x.step.id))
    requires roots == NotRequisite(nodes)
    ensures Forest(nodes, roots)
  {
    forall n | n in nodes
      ensures exists r :: r in roots && Reaches(GraphOf(Plain(nodes)), r.step.id, n.step.id)
    {
      EveryStepUnderARoot(nodes, n);
    }
  }

  /** What is said of a cycle is what the search for it comes to. */
  ghost predicate CycleTold(steps: seq<Step>, r: CheckResult) {
    match r
    case DependencyCycle(chain) => Tells(steps, Found(chain))
    case NeverReturns => Tells(steps, Endless)
    case _ => true
  }

  /** The IDs an error names: each ID where it occurs again, or each one that is
      required and not defined, in order. */
  ghost predicate ErrorsNamed(steps: seq<Step>, r: CheckResult) {
    && (r.DuplicateIDs? ==>
          && r.ids == Repeats(IDs(steps))
          && forall id :: id in r.ids <==> exists i, j :: 0 <= i < j < |steps| && steps[i].id == id && steps[j].id == id)
    && (r.UndefinedRequisites? ==>
          && r.ids == Missing(Demands(steps), StepMap(steps).Keys)
          && forall id :: id in r.ids <==> id !in StepMap(steps) && Demanded(steps, id))
  }

  /** The three checks: an error is reported exactly when its cause is there,
      the earlier check first. */
  method CheckRecipe(steps: seq<Step>) returns (r: CheckResult)
    ensures r.DuplicateIDs? <==> !UniqueIDs(steps)
    ensures r.UndefinedRequisites? <==> UniqueIDs(steps) && !Closed(GraphOf(steps))
    ensures r.DependencyCycle? || r.NeverReturns? <==> UniqueIDs(steps) && Closed(GraphOf(steps)) && Cyclic(GraphOf(steps))
    ensures ErrorsNamed(steps, r)
    ensures CycleTold(steps, r)
  {
    var hasNoDups, dups := NoDuplicateIDs(steps);
    if !hasNoDups {
      return DuplicateIDs(dups);
    }
    var allDefined, missing := AllRequisitesDefined(steps);
    if !allDefined {
      return UndefinedRequisites(missing);
    }
    var outcome := HasCycle(steps);
    if outcome.NotFound? {
      return Passed;
    }
    r := if outcome.Found? then DependencyCycle(outcome.cycle) else NeverReturns;
  }

  /** Without an empty ID every cycle is shown. */
  lemma NamedCyclesAreShown(steps: seq<Step>, r: CheckResult)
    requires "" !in StepMap(steps) && CycleTold(steps, r)
    ensures r.DependencyCycle? ==> IsCycle(GraphOf(steps), r.chain)
    ensures !r.NeverReturns?
  {
    var g := GraphOf(steps);
    if r.DependencyCycle? {
      var top :| MetTwice(steps, top) && Told(g, top, Found(r.chain));
      var p :| IsCycle(g, p) && p[0] == top;
      assert Edge(g, p[0], p[0 + 1]);
    }
  }

  /** With `top` the step met twice: a cycle is shown iff `top` has a name and its
      requisites do not lead to the empty ID before they lead back to it. */
  lemma CycleTruthfullyShown(steps: seq<Step>, r: CheckResult, top: StepID)
    requires (r.DependencyCycle? || r.NeverReturns?) && CycleTold(steps, r) && MetTwice(steps, top)
    ensures r.DependencyCycle? && IsCycle(GraphOf(steps), r.chain) <==> top != "" && !GoesAstray(GraphOf(steps), top)
    ensures r.NeverReturns? <==> GoesAstray(GraphOf(steps), top)
  {
    var outcome := if r.DependencyCycle? then Found(r.chain) else Endless;
    var t :| MetTwice(steps, t) && Told(GraphOf(steps), t, outcome);
    assert CycleVerdict(steps, outcome);
    CycleShownExactly(steps, outcome, top);
  }

  /** The links and the marks the nodes bear. */
  ghost function LinksOf(nodes: seq<StepNode>): map<StepNode, seq<seq<StepNode>>>
    reads nodes
  {
    map n | n in nodes :: n.linked
  }

  ghost function MarksOf(nodes: seq<StepNode>): set<StepNode>
    reads nodes
  {
    set n | n in nodes && n.isRequisite
  }

  /** To the links before, those the requisites name were added. */
  ghost predicate LinkedOnto(nodes: seq<StepNode>, before: map<StepNode, seq<seq<StepNode>>>)
    reads nodes
  {
    forall n :: n in nodes ==> n in before && LinksAppended(NodeMap(nodes), n, before[n])
  }

  /** To the marks before, those of the required steps were added. */
  ghost predicate MarkedOnto(nodes: seq<StepNode>, before: set<StepNode>)
    reads nodes
  {
    forall n :: n in nodes ==> (n.isRequisite <==> n in before || Required(StepMap(Plain(nodes)), n.step.id))
  }

  lemma MarksExact(nodes: seq<StepNode>, before: set<StepNode>)
    requires UniqueIDs(Plain(nodes)) && MarkedBy(NodeMap(nodes), NodeMap(nodes).Keys, before)
    ensures MarkedOnto(nodes, before)
  {
    NodeMapValues(nodes);
    forall x | x in nodes ensures x.isRequisite <==> x in before || Required(StepMap(Plain(nodes)), x.step.id) {
      RequiredIsEdge(nodes, x.step.id);
    }
  }

  lemma FreshForest(nodes: seq<StepNode>, roots: seq<StepNode>, links: map<StepNode, seq<seq<StepNode>>>)
    requires ValidRecipe(Plain(nodes)) && LinkedOnto(nodes, links) && MarkedOnto(nodes, {})
    requires forall n :: n in links ==> forall i :: 0 <= i < |links[n]| ==> links[n][i] == []
    requires roots == NotRequisite(nodes)
    ensures Forest(nodes, roots)
  {
    forall n | n in nodes ensures LinksMatch(NodeMap(nodes), n) {
      AppendedToNothing(NodeMap(nodes), n, links[n]);
    }
    ForestHolds(nodes, roots);
  }

  /** Link the nodes of a recipe whose requisites are defined. */
  method LinkNodes(nodes: seq<StepNode>)
    requires UniqueIDs(Plain(nodes)) && Closed(GraphOf(Plain(nodes)))
    requires forall n :: n in nodes ==> n.Shaped()
    modifies nodes
    ensures LinkedOnto(nodes, old(LinksOf(nodes))) && MarkedOnto(nodes, old(MarksOf(nodes)))
  {
    NodeMapPlain(nodes);
    NodeMapValues(nodes);
    var byID := NodeMap(nodes);
    ghost var marks := MarksOf(nodes);
    forall d, id | d in byID && id in AllIDs(byID[d].step.requisites) ensures id in byID {
      assert Edge(GraphOf(Plain(nodes)), d, id);
    }
    LinkAll(byID);
    assert MarkedBy(byID, byID.Keys, marks);
    MarksExact(nodes, marks);
  }

  /** Link the steps of a recipe that passed the checks, on top of what links and
      marks they bear; on freshly built steps this gives the forest. */
  method LinkTrees(nodes: seq<StepNode>) returns (roots: seq<StepNode>)
    requires ValidRecipe(Plain(nodes))
    requires forall n :: n in nodes ==> n.Shaped()
    modifies nodes
    ensures LinkedOnto(nodes, old(LinksOf(nodes))) && MarkedOnto(nodes, old(MarksOf(nodes)))
    ensures roots == NotRequisite(nodes)
    ensures old(Fresh(nodes)) ==> Forest(nodes, roots)
  {
    ghost var links, marks := LinksOf(nodes), MarksOf(nodes);
    assert Fresh(nodes) ==> marks == {};
    LinkNodes(nodes);
    roots := FindRoots(nodes);
    if old(Fresh(nodes)) {
      FreshForest(nodes, roots, links);
    }
  }

  /** Check the recipe and, if it passes, link its steps into trees; a recipe
      that fails a check is left as it was. */
  method ValidateTrees(nodes: seq<StepNode>) returns (r: CheckResult, roots: seq<StepNode>)
    requires forall n :: n in nodes ==> n.Shaped()
    modifies nodes
    ensures r.Passed? <==> ValidRecipe(Plain(nodes))
    ensures ErrorsNamed(Plain(nodes), r)
    ensures CycleTold(Plain(nodes), r)
    ensures !r.Passed? ==> unchanged(nodes) && roots == []
    ensures r.Passed? ==> LinkedOnto(nodes, old(LinksOf(nodes))) && MarkedOnto(nodes, old(MarksOf(nodes)))
    ensures r.Passed? ==> roots == NotRequisite(nodes)
    ensures r.Passed? && old(Fresh(nodes)) ==> Forest(nodes, roots)
  {
    roots := [];
    NodeMapPlain(nodes);
    r := CheckRecipe(Plain(nodes));
    if r.Passed? {
      roots := LinkTrees(nodes);
    }
  }
}
