/**
 Steps, requisites and step completions, as the farmer sends them to a sprout
 and the sprout reports them back.
 */
module Recipe {
  import opened Graphs

  type StepID = string

  /** The six requisite conditions; any other text is carried as it came. */
  datatype Condition =
    | Require | OnFail | OnChanges
    | RequireAny | OnFailAny | OnChangesAny
    | Unrecognised(text: string)

  datatype Requisite = Requisite(condition: Condition, stepIDs: seq<StepID>)

  datatype Step = Step(id: StepID, requisites: seq<Requisite>)

  datatype Status = NotStarted | InProgress | Completed | Failed | Skipped

  /** What the sprout knows of one step. */
  datatype Entry = Entry(status: Status, changed: bool) {
    /** Completed or failed: what requisites can look at. */
    predicate Settled() {
      status.Completed? || status.Failed?
    }

    /** The step will not report again. */
    predicate Ended() {
      Settled() || status.Skipped?
    }
  }

  /** How a launched step turns out. */
  type Outcome = e: Entry | e.Ended() witness Entry(Completed, false)

  datatype Completion = Completion(id: StepID, result: Entry)

  function AllIDs(requisites: seq<Requisite>): (ids: seq<StepID>) {
    if requisites == [] then []
    else AllIDs(requisites[..|requisites| - 1]) + requisites[|requisites| - 1].stepIDs
  }

  /** The IDs collected are exactly those some requisite lists. */
  lemma {:induction false} AllIDsMembers(requisites: seq<Requisite>, id: StepID)
    ensures id in AllIDs(requisites) <==> exists r :: r in requisites && id in r.stepIDs
  {
    if requisites != [] {
      var front, last := requisites[..|requisites| - 1], requisites[|requisites| - 1];
      assert requisites == front + [last];
      AllIDsMembers(front, id);
    }
  }

  /** In order: requisite by requisite, each with its IDs as listed. */
  lemma {:induction false} AllIDsInOrder(a: seq<Requisite>, b: seq<Requisite>)
    ensures AllIDs(a + b) == AllIDs(a) + AllIDs(b)
    ensures |a| == 1 ==> AllIDs(a) == a[0].stepIDs
    decreases |b|
  {
    if b == [] {
      assert a + b == a;
    } else {
      var front := b[..|b| - 1];
      assert (a + b)[..|a + b| - 1] == a + front;
      AllIDsInOrder(a, front);
    }
    if |a| == 1 {
      assert a[..0] == [];
    }
  }

  method CollectAllIDs(requisites: seq<Requisite>) returns (collection: seq<StepID>)
    ensures collection == AllIDs(requisites)
  {
    collection := [];
    for i := 0 to |requisites|
      invariant collection == AllIDs(requisites[..i])
    {
      collection := collection + requisites[i].stepIDs;
      assert requisites[..i + 1][..i] == requisites[..i];
    }
    assert requisites[..|requisites|] == requisites;
  }

  /** Steps by ID; a later step with the same ID replaces an earlier one. */
  function StepMap(steps: seq<Step>): (m: map<StepID, Step>) {
    if steps == [] then map[]
    else
      var last := steps[|steps| - 1];
      StepMap(steps[..|steps| - 1])[last.id := last]
  }

  ghost predicate UniqueIDs(steps: seq<Step>) {
    forall i, j :: 0 <= i < j < |steps| ==> steps[i].id != steps[j].id
  }

  lemma {:induction false} StepMapKeys(steps: seq<Step>)
    ensures forall id :: id in StepMap(steps) <==> exists s :: s in steps && s.id == id
    ensures forall id :: id in StepMap(steps) ==> StepMap(steps)[id] in steps && StepMap(steps)[id].id == id
  {
    if steps != [] {
      var front, last := steps[..|steps| - 1], steps[|steps| - 1];
      StepMapKeys(front);
      assert steps == front + [last];
      var whole := StepMap(steps);
      assert whole == StepMap(front)[last.id := last];
      forall id
        ensures id in whole <==> exists s :: s in steps && s.id == id
      {
        if id in whole {
          assert whole[id] in steps && whole[id].id == id;
        }
        if s :| s in steps && s.id == id {
          if s in front {
            assert id in StepMap(front);
          } else {
            assert s == last;
          }
        }
      }
    }
  }

  /** The last step that bears an ID is the one it stands for. */
  lemma {:induction false} StepMapLast(steps: seq<Step>, k: nat)
    requires k < |steps| && forall j :: k < j < |steps| ==> steps[j].id != steps[k].id
    ensures steps[k].id in StepMap(steps) && StepMap(steps)[steps[k].id] == steps[k]
    decreases |steps|
  {
    if k < |steps| - 1 {
      StepMapLast(steps[..|steps| - 1], k);
    }
  }

  lemma StepMapUnique(steps: seq<Step>)
    requires UniqueIDs(steps)
    ensures forall s :: s in steps ==> s.id in StepMap(steps) && StepMap(steps)[s.id] == s
  {
    StepMapKeys(steps);
    var m := StepMap(steps);
    forall s | s in steps ensures s.id in m && m[s.id] == s {
      assert s.id in m;
      var i :| 0 <= i < |steps| && steps[i] == s;
      var j :| 0 <= j < |steps| && steps[j] == m[s.id];
    }
  }

  lemma UniqueMore(steps: seq<Step>)
    requires steps != []
    ensures var front, last := steps[..|steps| - 1], steps[|steps| - 1];
      UniqueIDs(steps) <==> UniqueIDs(front) && last.id !in StepMap(front)
  {
    var front, last := steps[..|steps| - 1], steps[|steps| - 1];
    StepMapKeys(front);
    if last.id in StepMap(front) {
      var k :| 0 <= k < |front| && front[k] == StepMap(front)[last.id];
      assert steps[k].id == last.id;
    } else {
      assert forall i :: 0 <= i < |front| ==> front[i] in front && steps[i] == front[i];
    }
  }

  /** There are as many IDs as steps iff no ID repeats. */
  lemma {:induction false} StepMapSize(steps: seq<Step>)
    ensures |StepMap(steps).Keys| <= |steps|
    ensures |StepMap(steps).Keys| == |steps| <==> UniqueIDs(steps)
  {
    if steps != [] {
      var front, last := steps[..|steps| - 1], steps[|steps| - 1];
      StepMapSize(front);
      UniqueMore(steps);
      assert StepMap(steps).Keys == StepMap(front).Keys + {last.id};
    }
  }

  /** The requisite graph: an edge from each step to every step it names. */
  ghost function RequisiteGraph(steps: map<StepID, Step>): (g: Graph)
    ensures g.Keys == steps.Keys
  {
    map id | id in steps :: AllIDs(steps[id].requisites)
  }
}
