/**
 How far a run gets: what is sent and written once, how many receives a run
 takes, what an acyclic recipe means, and exactly when it stalls.
 */
module Progress {
  import opened Graphs
  import opened Sets
  import opened Recipe
  import opened Requisites
  import opened Scheduler
  import opened Confluence

  /** Each step sends at most one completion, and never more than fit the
      channel, whose buffer holds one per step and the seed. */
  lemma SendsAreOnceAndBounded(job: Job, o: Oracle, tr: seq<State>, k: nat)
    requires job.startID !in job.steps && IsRun(job, o, tr) && k < |tr|
    ensures forall c :: Sent(tr[k])[c] <= 1
    ensures forall c, d :: c in Sent(tr[k]) && d in Sent(tr[k]) && c.id == d.id ==> c == d
    ensures |tr[k].inFlight| + |tr[k].published| <= |job.steps.Keys| + 1
  {
    RunInv(job, o, tr, k);
    var s := tr[k];
    SubsetSize(Started(job, s), job.steps.Keys);
    forall c, d | c in Sent(s) && d in Sent(s) && c.id == d.id ensures c == d {
      assert Due(job, o, s, c) && Due(job, o, s, d);
    }
  }

  lemma VisitKeepsEnded(job: Job, o: Oracle, s: State, x: StepID, id: StepID)
    ensures Lookup(s.entries, id).Ended() ==> Same(s, Visit(job, o, s, x), id)
    ensures IsStarted(s, id) ==> Same(s, Visit(job, o, s, x), id)
  {
  }

  lemma {:induction false} ScanKeepsStarted(job: Job, o: Oracle, s: State, order: seq<StepID>, id: StepID)
    requires IsStarted(s, id)
    ensures Same(s, Scan(job, o, s, order), id)
  {
    if order != [] {
      ScanKeepsStarted(job, o, s, order[..|order| - 1], id);
      VisitKeepsEnded(job, o, Scan(job, o, s, order[..|order| - 1]), order[|order| - 1], id);
    }
  }

  /** No completion in flight would change an entry that has ended. */
  ghost predicate NoOverwrite(s: State) {
    forall c :: c in s.inFlight ==> !Lookup(s.entries, c.id).Ended() || Lookup(s.entries, c.id) == c.result
  }

  lemma InvNoOverwrite(job: Job, o: Oracle, s: State)
    requires Inv(job, o, s)
    ensures NoOverwrite(s)
  {
    forall c | c in s.inFlight ensures !Lookup(s.entries, c.id).Ended() || Lookup(s.entries, c.id) == c.result {
      ReceivedIsDue(job, o, s, c);
    }
  }

  lemma NextKeepsEnded(job: Job, o: Oracle, s: State, s': State, id: StepID)
    requires NoOverwrite(s) && Next(job, o, s, s') && Lookup(s.entries, id).Ended()
    ensures Same(s, s', id)
  {
    var c, order :| c in s.inFlight && IsScanOrder(Receive(s, c).entries.Keys, order)
                    && s' == Scan(job, o, Receive(s, c), order);
    PassKeepsEnded(job, o, s, c, order, id);
  }

  lemma PassKeepsEnded(job: Job, o: Oracle, s: State, c: Completion, order: seq<StepID>, id: StepID)
    requires NoOverwrite(s) && c in s.inFlight && Lookup(s.entries, id).Ended()
    ensures Same(s, Scan(job, o, Receive(s, c), order), id)
  {
    assert Same(s, Receive(s, c), id);
    ScanKeepsStarted(job, o, Receive(s, c), order, id);
  }

  /** An entry that has ended is never overwritten by anything else. */
  lemma {:induction false} EndedStays(job: Job, o: Oracle, tr: seq<State>, i: nat, j: nat, id: StepID)
    requires job.startID !in job.steps && IsRun(job, o, tr) && i <= j < |tr|
    requires Lookup(tr[i].entries, id).Ended()
    ensures Same(tr[i], tr[j], id)
    decreases j
  {
    if i < j {
      EndedStays(job, o, tr, i, j - 1, id);
      RunInv(job, o, tr, j - 1);
      InvNoOverwrite(job, o, tr[j - 1]);
      assert NextAt(job, o, tr, j - 1);
      NextKeepsEnded(job, o, tr[j - 1], tr[j], id);
    }
  }

  /** In every reachable state a started step's requisites still say so. */
  lemma StartsAreJustified(job: Job, o: Oracle, tr: seq<State>, k: nat, id: StepID)
    requires job.startID !in job.steps && IsRun(job, o, tr) && k < |tr| && id in job.steps
    ensures IsStarted(tr[k], id) ==> VerdictOn(job.steps[id], tr[k].entries) != Wait
    ensures Lookup(tr[k].entries, id).status in {InProgress, Completed, Skipped} ==>
              VerdictOn(job.steps[id], tr[k].entries) == Run
  {
    RunInv(job, o, tr, k);
    assert Justified(job, o, tr[k], id);
  }

  /** How every step of a finished run has ended, and what was published of it: its own
      outcome if its requisites let it run, a failure if they rule that out, and
      nothing if they leave it open. */
  lemma EndsByVerdict(job: Job, o: Oracle, tr: seq<State>, id: StepID)
    requires job.startID !in job.steps && IsRun(job, o, tr) && Quiescent(tr[|tr| - 1]) && id in job.steps
    ensures var s := tr[|tr| - 1];
      match VerdictOn(job.steps[id], s.entries)
      case Run => Lookup(s.entries, id) == o(id) && Completion(id, o(id)) in s.published
      case Unmeetable => Lookup(s.entries, id) == Entry(Failed, false) && Completion(id, Entry(Failed, false)) in s.published
      case Wait => Lookup(s.entries, id) == Entry(NotStarted, false) && forall c :: c in s.published ==> c.id != id
  {
    var s := tr[|tr| - 1];
    RunStops(job, o, tr);
    assert Justified(job, o, s, id);
    if IsStarted(s, id) {
      StoppedShowsReport(job, o, s, id);
      var c := Completion(id, Expected(job, o, s.entries, id));
      assert Due(job, o, s, c) && Sent(s)[c] == 1;
    } else {
      forall c | c in s.published ensures c.id != id {
        assert Sent(s)[c] > 0;
        assert Due(job, o, s, c);
      }
    }
  }

  /** The loop's test is right: n + 1 completions have been received exactly
      when nothing is in flight and every step has ended. */
  lemma AllReceivedMeansAllEnded(job: Job, o: Oracle, tr: seq<State>, k: nat)
    requires job.startID !in job.steps && IsRun(job, o, tr) && k < |tr|
    ensures |tr[k].published| >= |job.steps.Keys| + 1 <==>
              Quiescent(tr[k]) && forall id :: id in job.steps ==> Lookup(tr[k].entries, id).Ended()
    ensures |tr[k].published| <= |job.steps.Keys| + 1
  {
    RunInv(job, o, tr, k);
    var s := tr[k];
    SubsetSize(Started(job, s), job.steps.Keys);
    if |s.published| >= |job.steps.Keys| + 1 {
      assert Quiescent(s);
      forall id | id in job.steps ensures Lookup(s.entries, id).Ended() {
        assert id in Started(job, s);
        StoppedShowsReport(job, o, s, id);
      }
    }
    if Quiescent(s) && forall id :: id in job.steps ==> Lookup(s.entries, id).Ended() {
      assert Started(job, s) == job.steps.Keys;
    }
  }

  // ----- The meaning of an acyclic recipe -----

  /** What a step comes to, worked out from its requisites up, one at a time. */
  ghost function Meaning(job: Job, o: Oracle, id: StepID, n: nat): Entry
    requires Tame(RequisiteGraph(job.steps), id, {}, n)
    decreases n
  {
    var needed := AllIDs(job.steps[id].requisites);
    var m := map r | r in needed :: Meaning(job, o, r, n - 1);
    match VerdictOn(job.steps[id], m)
    case Run => o(id)
    case Unmeetable => Entry(Failed, false)
    case Wait => Entry(NotStarted, false)
  }

  ghost predicate Acyclic(job: Job) {
    && job.startID !in job.steps
    && Closed(RequisiteGraph(job.steps))
    && !Cyclic(RequisiteGraph(job.steps))
  }

  /** The meaning of every step of a valid recipe. */
  ghost function Meanings(job: Job, o: Oracle): Entries
    requires Acyclic(job)
  {
    map id | id in job.steps ::
      AcyclicTame(RequisiteGraph(job.steps), id);
      Meaning(job, o, id, |RequisiteGraph(job.steps).Keys|)
  }

  /** The concurrent scheduler computes the sequential meaning. */
  lemma {:induction false} StoppedMeans(job: Job, o: Oracle, s: State, id: StepID, n: nat)
    requires Stopped(job, o, s) && Tame(RequisiteGraph(job.steps), id, {}, n)
    ensures Lookup(s.entries, id) == Meaning(job, o, id, n)
    decreases n
  {
    var step := job.steps[id];
    var needed := AllIDs(step.requisites);
    var m := map r | r in needed :: Meaning(job, o, r, n - 1);
    forall r | Needs(step, r) ensures Lookup(m, r) == Lookup(s.entries, r) {
      NeedsIsAllIDs(step, r);
      StoppedMeans(job, o, s, r, n - 1);
    }
    VerdictLocal(step, m, s.entries);
    assert Justified(job, o, s, id);
    if IsStarted(s, id) {
      StoppedShowsReport(job, o, s, id);
    }
  }

  lemma RunComputesMeaning(job: Job, o: Oracle, tr: seq<State>)
    requires Acyclic(job) && IsRun(job, o, tr) && Quiescent(tr[|tr| - 1])
    ensures forall id :: id in job.steps ==> Lookup(tr[|tr| - 1].entries, id) == Meanings(job, o)[id]
  {
    RunInv(job, o, tr, |tr| - 1);
    forall id | id in job.steps
      ensures Lookup(tr[|tr| - 1].entries, id) == Meanings(job, o)[id]
    {
      AcyclicTame(RequisiteGraph(job.steps), id);
      StoppedMeans(job, o, tr[|tr| - 1], id, |RequisiteGraph(job.steps).Keys|);
    }
  }

  // ----- Stalls -----

  /** All that the step needs has ended, none of its requisites is broken, and
      one of them is left open by a step that was skipped. */
  ghost predicate OpenOnSkip(step: Step, m: Entries) {
    && (forall n :: Needs(step, n) ==> Lookup(m, n).Ended())
    && (forall r :: r in step.requisites ==> !Broken(r, m))
    && exists r :: r in step.requisites && !Met(r, m) && exists n :: n in r.stepIDs && Lookup(m, n).status.Skipped?
  }

  lemma OpenOnSkipWaits(step: Step, m: Entries)
    requires OpenOnSkip(step, m)
    ensures VerdictOn(step, m) == Wait
  {
  }

  lemma OpenOnSkipLocal(step: Step, m: Entries, n: Entries)
    requires OpenOnSkip(step, m)
    requires forall id :: Needs(step, id) ==> Lookup(m, id) == Lookup(n, id)
    ensures OpenOnSkip(step, n)
  {
    forall r | r in step.requisites ensures Met(r, m) == Met(r, n) && Broken(r, m) == Broken(r, n) {
      MetOrBrokenStable(step, r, m, n);
      MetOrBrokenStable(step, r, n, m);
    }
    var r :| r in step.requisites && !Met(r, m) && exists x :: x in r.stepIDs && Lookup(m, x).status.Skipped?;
    var x :| x in r.stepIDs && Lookup(m, x).status.Skipped?;
    assert Needs(step, x);
  }

  /** A waiting step all of whose needs were started is left open by a skip. */
  lemma WaitsOnSkip(job: Job, o: Oracle, s: State, id: StepID)
    requires Stopped(job, o, s) && id in job.steps && !IsStarted(s, id)
    requires forall x :: Needs(job.steps[id], x) ==> x in job.steps && IsStarted(s, x)
    ensures OpenOnSkip(job.steps[id], s.entries)
  {
    var step := job.steps[id];
    forall x | Needs(step, x) ensures Lookup(s.entries, x).Ended() {
      StoppedShowsReport(job, o, s, x);
    }
    var r :| r in step.requisites && !Met(r, s.entries);
    var x := UndecidedNamesUnsettled(r, s.entries);
    assert Needs(step, x);
  }

  lemma NeededIsTame(job: Job, id: StepID, x: StepID, n: nat)
    requires Tame(RequisiteGraph(job.steps), id, {}, n) && Needs(job.steps[id], x)
    ensures n > 0 && Tame(RequisiteGraph(job.steps), x, {}, n - 1) && x in job.steps
  {
    NeedsIsAllIDs(job.steps[id], x);
  }

  /** Under every step left waiting there is one left open by a skip. */
  lemma {:induction false} StallOrigin(job: Job, o: Oracle, s: State, id: StepID, n: nat) returns (at: StepID)
    requires Stopped(job, o, s) && Tame(RequisiteGraph(job.steps), id, {}, n)
    requires !IsStarted(s, id)
    ensures at in job.steps && !IsStarted(s, at) && OpenOnSkip(job.steps[at], s.entries)
    decreases n
  {
    if x :| Needs(job.steps[id], x) && !IsStarted(s, x) {
      NeededIsTame(job, id, x, n);
      at := StallOrigin(job, o, s, x, n - 1);
    } else {
      at := id;
      forall x | Needs(job.steps[id], x) ensures x in job.steps {
        NeededIsTame(job, id, x, n);
      }
      WaitsOnSkip(job, o, s, id);
    }
  }

  lemma NeedsAgree(job: Job, s: State, f: Entries, id: StepID)
    requires Acyclic(job) && id in job.steps
    requires forall x :: x in job.steps ==> Lookup(s.entries, x) == Lookup(f, x)
    ensures forall x :: Needs(job.steps[id], x) ==> Lookup(s.entries, x) == Lookup(f, x)
  {
    forall x | Needs(job.steps[id], x) ensures Lookup(s.entries, x) == Lookup(f, x) {
      NeedsIsAllIDs(job.steps[id], x);
      assert Edge(RequisiteGraph(job.steps), id, x);
    }
  }

  lemma OpenMeansUnended(job: Job, o: Oracle, s: State, f: Entries, id: StepID)
    requires Acyclic(job) && Stopped(job, o, s) && id in job.steps
    requires forall x :: x in job.steps ==> Lookup(s.entries, x) == Lookup(f, x)
    requires OpenOnSkip(job.steps[id], f)
    ensures !Lookup(s.entries, id).Ended()
  {
    NeedsAgree(job, s, f, id);
    OpenOnSkipLocal(job.steps[id], f, s.entries);
    OpenOnSkipWaits(job.steps[id], s.entries);
    assert Justified(job, o, s, id);
  }

  lemma UnendedMeansOpen(job: Job, o: Oracle, s: State, f: Entries, id: StepID)
    requires Acyclic(job) && Stopped(job, o, s) && id in job.steps
    requires forall x :: x in job.steps ==> Lookup(s.entries, x) == Lookup(f, x)
    requires !Lookup(s.entries, id).Ended()
    ensures exists at :: at in job.steps && OpenOnSkip(job.steps[at], f)
  {
    if IsStarted(s, id) {
      StoppedShowsReport(job, o, s, id);
    }
    AcyclicTame(RequisiteGraph(job.steps), id);
    var at := StallOrigin(job, o, s, id, |RequisiteGraph(job.steps).Keys|);
    NeedsAgree(job, s, f, at);
    OpenOnSkipLocal(job.steps[at], s.entries, f);
  }

  /** A run of a valid recipe with nothing left in flight has finished every
      step exactly when no step's meaning is left open by a skip; it has then
      made one receive per step and one for the seed. */
  lemma FinishesUnlessOpenOnSkip(job: Job, o: Oracle, tr: seq<State>)
    requires Acyclic(job) && IsRun(job, o, tr) && Quiescent(tr[|tr| - 1])
    ensures (forall id :: id in job.steps ==> !OpenOnSkip(job.steps[id], Meanings(job, o))) <==>
              forall id :: id in job.steps ==> Lookup(tr[|tr| - 1].entries, id).Ended()
    ensures (forall id :: id in job.steps ==> !OpenOnSkip(job.steps[id], Meanings(job, o))) <==>
              |tr| - 1 == |job.steps.Keys| + 1
  {
    var s, f := tr[|tr| - 1], Meanings(job, o);
    RunStops(job, o, tr);
    RunComputesMeaning(job, o, tr);
    AllReceivedMeansAllEnded(job, o, tr, |tr| - 1);
    if id :| id in job.steps && OpenOnSkip(job.steps[id], f) {
      OpenMeansUnended(job, o, s, f, id);
    }
    if id :| id in job.steps && !Lookup(s.entries, id).Ended() {
      UnendedMeansOpen(job, o, s, f, id);
    }
  }

  lemma MeaningSkipped(job: Job, o: Oracle, id: StepID, n: nat)
    requires Tame(RequisiteGraph(job.steps), id, {}, n)
    ensures Meaning(job, o, id, n).status.Skipped? ==> o(id).status.Skipped?
  {
  }

  /** If no step that another needs would be skipped, nothing stalls. */
  lemma NoStall(job: Job, o: Oracle, tr: seq<State>)
    requires Acyclic(job) && IsRun(job, o, tr) && Quiescent(tr[|tr| - 1])
    requires forall id, x :: id in job.steps && Needs(job.steps[id], x) ==> !o(x).status.Skipped?
    ensures forall id :: id in job.steps ==> Lookup(tr[|tr| - 1].entries, id).Ended()
    ensures |tr| - 1 == |job.steps.Keys| + 1
  {
    var f := Meanings(job, o);
    forall id | id in job.steps ensures !OpenOnSkip(job.steps[id], f) {
      forall r, x | r in job.steps[id].requisites && x in r.stepIDs ensures !Lookup(f, x).status.Skipped? {
        assert Needs(job.steps[id], x);
        if x in f {
          AcyclicTame(RequisiteGraph(job.steps), x);
          MeaningSkipped(job, o, x, |RequisiteGraph(job.steps).Keys|);
        }
      }
    }
    FinishesUnlessOpenOnSkip(job, o, tr);
  }

  /** The documented use of a skip does stall: a step that requires one whose
      condition test fails waits for ever. */
  lemma SkippedRequirementStalls(tr: seq<State>, o: Oracle)
    requires o("a").status.Skipped?
    requires IsRun(Job("start-j", map["a" := Step("a", []), "b" := Step("b", [Requisite(Require, ["a"])])]), o, tr)
    ensures Lookup(tr[|tr| - 1].entries, "b") == Entry(NotStarted, false)
  {
    var b := Step("b", [Requisite(Require, ["a"])]);
    var job := Job("start-j", map["a" := Step("a", []), "b" := b]);
    var s := tr[|tr| - 1];
    RunInv(job, o, tr, |tr| - 1);
    assert Justified(job, o, s, "a") && Justified(job, o, s, "b");
    assert "start-j" !in job.steps;
    var r := b.requisites[0];
    assert !Broken(r, s.entries) && !Met(r, s.entries) by {
      assert r.stepIDs == ["a"];
      assert "a" in r.stepIDs;
      assert VerdictOn(job.steps["a"], s.entries) == Run;
      assert !Lookup(s.entries, "a").Settled();
    }
    assert b.requisites == [r];
    assert VerdictOn(b, s.entries) == Wait;
  }

  /** A run that still has something in flight can go on. */
  lemma SomethingInFlightCanArrive(job: Job, o: Oracle, s: State)
    requires !Quiescent(s)
    ensures exists s' :: Next(job, o, s, s')
  {
    var c :| c in s.inFlight;
    var order := AnyOrder(Receive(s, c).entries.Keys);
    assert Next(job, o, s, Scan(job, o, Receive(s, c), order));
  }

  lemma RunLength(job: Job, o: Oracle, tr: seq<State>)
    requires job.startID !in job.steps && IsRun(job, o, tr)
    ensures |tr| <= |job.steps.Keys| + 2
  {
    RunInv(job, o, tr, |tr| - 1);
    AllReceivedMeansAllEnded(job, o, tr, |tr| - 1);
  }

  lemma OneMore(job: Job, o: Oracle, tr: seq<State>) returns (s: State)
    requires IsRun(job, o, tr) && !Quiescent(tr[|tr| - 1])
    ensures IsRun(job, o, tr + [s])
  {
    SomethingInFlightCanArrive(job, o, tr[|tr| - 1]);
    s :| Next(job, o, tr[|tr| - 1], s);
    ExtendRun(job, o, tr, s);
  }

  /** Every run can be carried on until nothing is in flight. */
  lemma {:induction false} EveryRunCompletes(job: Job, o: Oracle, tr: seq<State>) returns (whole: seq<State>)
    requires job.startID !in job.steps && IsRun(job, o, tr)
    ensures IsRun(job, o, whole) && tr <= whole && Quiescent(whole[|whole| - 1])
    decreases |job.steps.Keys| + 2 - |tr|
  {
    whole := tr;
    if !Quiescent(tr[|tr| - 1]) {
      var s := OneMore(job, o, tr);
      RunLength(job, o, tr + [s]);
      whole := EveryRunCompletes(job, o, tr + [s]);
    }
  }

  lemma {:induction false} AnyOrder(keys: set<StepID>) returns (order: seq<StepID>)
    ensures IsScanOrder(keys, order)
  {
    if keys == {} {
      order := [];
    } else {
      var x :| x in keys;
      var rest := AnyOrder(keys - {x});
      order := [x] + rest;
    }
  }
}
