/**
 What every run of the scheduler has in common: where it stops does not depend
 on the order completions arrive in, nor on the order the map is scanned in, nor
 on steps it does not need.
 */
module Confluence {
  import opened Recipe
  import opened Requisites
  import opened Scheduler

  ghost predicate Same(s: State, q: State, id: StepID) {
    Lookup(s.entries, id) == Lookup(q.entries, id)
  }

  /** `kept` is a set of steps the two jobs have in common, together with all
      that those steps need. */
  ghost predicate Shared(a: Job, b: Job, kept: set<StepID>) {
    && a.startID !in a.steps
    && b.startID !in b.steps
    && (forall id :: id in kept ==> id in a.steps && id in b.steps && a.steps[id] == b.steps[id])
    && (forall id, n :: id in kept && Needs(a.steps[id], n) ==>
          n in kept || (a.startID == b.startID && n !in a.steps && n !in b.steps))
  }

  ghost predicate Stopped(b: Job, o: Oracle, q: State) {
    Inv(b, o, q) && Exhausted(b, q) && Quiescent(q)
  }

  /** Each kept step that job `a` has started ended in `q` the way `a` expects. */
  ghost predicate Foreseen(a: Job, o: Oracle, kept: set<StepID>, s: State, q: State)
    requires forall id :: id in kept ==> id in a.steps
  {
    forall id :: id in kept && IsStarted(s, id) ==> Lookup(q.entries, id) == Expected(a, o, s.entries, id)
  }

  /** Where nothing is in flight, a started step shows its report. */
  lemma StoppedShowsReport(b: Job, o: Oracle, q: State, id: StepID)
    requires Stopped(b, o, q) && id in b.steps && IsStarted(q, id)
    ensures Lookup(q.entries, id) == Expected(b, o, q.entries, id)
  {
    var c := Completion(id, Expected(b, o, q.entries, id));
    assert Due(b, o, q, c);
    assert Sent(q)[c] == 1;
    assert Justified(b, o, q, id);
  }

  /** A settled entry of a reachable state is the step's report. */
  lemma SettledShowsReport(a: Job, o: Oracle, s: State, id: StepID)
    requires Inv(a, o, s) && id in a.steps && Lookup(s.entries, id).Settled()
    ensures Lookup(s.entries, id) == Expected(a, o, s.entries, id)
  {
    assert Justified(a, o, s, id);
  }

  lemma ForeseenKeeps(a: Job, b: Job, o: Oracle, kept: set<StepID>, s: State, q: State, id: StepID)
    requires Shared(a, b, kept) && Inv(a, o, s) && Stopped(b, o, q)
    requires Foreseen(a, o, kept, s, q) && id in kept
    ensures Keeps(a.steps[id], s.entries, q.entries)
  {
    forall n | Needs(a.steps[id], n) && Lookup(s.entries, n).Settled()
      ensures Lookup(q.entries, n) == Lookup(s.entries, n)
    {
      if n in kept {
        SettledShowsReport(a, o, s, n);
      } else {
        assert n == a.startID == b.startID;
        assert SeedFirst(a, s) && SeedFirst(b, q);
      }
    }
  }

  /** Where job `a` decides a kept step, `q` has it decided the same way. */
  lemma DecidedAlike(a: Job, b: Job, o: Oracle, kept: set<StepID>, s: State, q: State, id: StepID)
    requires Shared(a, b, kept) && Inv(a, o, s) && Stopped(b, o, q)
    requires Foreseen(a, o, kept, s, q) && id in kept
    requires VerdictOn(a.steps[id], s.entries) != Wait
    ensures Lookup(q.entries, id) == Expected(a, o, s.entries, id)
  {
    ForeseenKeeps(a, b, o, kept, s, q, id);
    VerdictStable(a.steps[id], s.entries, q.entries);
    StoppedShowsReport(b, o, q, id);
  }

  lemma ReceiveForeseen(a: Job, b: Job, o: Oracle, kept: set<StepID>, s: State, q: State, c: Completion)
    requires Shared(a, b, kept) && Inv(a, o, s) && Stopped(b, o, q) && c in s.inFlight
    requires Foreseen(a, o, kept, s, q)
    ensures Foreseen(a, o, kept, Receive(s, c), q)
  {
    var s' := Receive(s, c);
    ReceivedIsDue(a, o, s, c);
    WriteKeepsVerdicts(a, s.entries, c.id, c.result);
    forall id | id in kept && IsStarted(s', id)
      ensures Lookup(q.entries, id) == Expected(a, o, s'.entries, id)
    {
      ReceiveJustified(a, o, s, c, id);
      assert Justified(a, o, s, id);
    }
  }

  lemma VisitForeseen(a: Job, b: Job, o: Oracle, kept: set<StepID>, s: State, q: State, id: StepID)
    requires Shared(a, b, kept) && Inv(a, o, s) && Stopped(b, o, q)
    requires Foreseen(a, o, kept, s, q)
    ensures Foreseen(a, o, kept, Visit(a, o, s, id), q)
  {
    var s' := Visit(a, o, s, id);
    if s' != s {
      WriteKeepsVerdicts(a, s.entries, id, s'.entries[id]);
      forall x | x in kept && IsStarted(s', x)
        ensures Lookup(q.entries, x) == Expected(a, o, s'.entries, x)
      {
        assert Justified(a, o, s, x);
        if x == id {
          DecidedAlike(a, b, o, kept, s, q, id);
        }
      }
    }
  }

  lemma {:induction false} ScanForeseen(a: Job, b: Job, o: Oracle, kept: set<StepID>, s: State, q: State, order: seq<StepID>)
    requires Shared(a, b, kept) && Inv(a, o, s) && s.published != [] && Stopped(b, o, q)
    requires Foreseen(a, o, kept, s, q)
    ensures Foreseen(a, o, kept, Scan(a, o, s, order), q)
  {
    if order != [] {
      var front := order[..|order| - 1];
      ScanForeseen(a, b, o, kept, s, q, front);
      ScanInv(a, o, s, front);
      VisitForeseen(a, b, o, kept, Scan(a, o, s, front), q, order[|order| - 1]);
    }
  }

  /** Any state of any run of `a` is foreseen by any stopping point of `b`. */
  lemma {:induction false} RunForeseen(a: Job, b: Job, o: Oracle, kept: set<StepID>, tr: seq<State>, k: nat, q: State)
    requires Shared(a, b, kept) && Stopped(b, o, q) && IsRun(a, o, tr) && k < |tr|
    ensures Foreseen(a, o, kept, tr[k], q)
  {
    if k > 0 {
      RunForeseen(a, b, o, kept, tr, k - 1, q);
      RunInv(a, o, tr, k - 1);
      assert NextAt(a, o, tr, k - 1);
      NextForeseen(a, b, o, kept, tr[k - 1], tr[k], q);
    }
  }

  lemma NextForeseen(a: Job, b: Job, o: Oracle, kept: set<StepID>, s: State, s': State, q: State)
    requires Shared(a, b, kept) && Stopped(b, o, q) && Inv(a, o, s) && Foreseen(a, o, kept, s, q) && Next(a, o, s, s')
    ensures Foreseen(a, o, kept, s', q)
  {
    var c, order :| c in s.inFlight && IsScanOrder(Receive(s, c).entries.Keys, order)
                    && s' == Scan(a, o, Receive(s, c), order);
    ReceiveForeseen(a, b, o, kept, s, q, c);
    ReceiveInv(a, o, s, c);
    ScanForeseen(a, b, o, kept, Receive(s, c), q, order);
  }

  lemma SharedSymmetric(a: Job, b: Job, kept: set<StepID>)
    requires Shared(a, b, kept)
    ensures Shared(b, a, kept)
  {
  }

  /** Two jobs that agree on a set of steps and all those need, and have nothing
      left in flight, agree on how each of those steps ended. */
  lemma SharedStepsEndAlike(a: Job, b: Job, o: Oracle, kept: set<StepID>, ta: seq<State>, tb: seq<State>, id: StepID)
    requires Shared(a, b, kept) && id in kept
    requires IsRun(a, o, ta) && Quiescent(ta[|ta| - 1])
    requires IsRun(b, o, tb) && Quiescent(tb[|tb| - 1])
    ensures Same(ta[|ta| - 1], tb[|tb| - 1], id)
  {
    var s, q := ta[|ta| - 1], tb[|tb| - 1];
    RunInv(a, o, ta, |ta| - 1);
    RunInv(b, o, tb, |tb| - 1);
    SharedSymmetric(a, b, kept);
    RunForeseen(a, b, o, kept, ta, |ta| - 1, q);
    RunForeseen(b, a, o, kept, tb, |tb| - 1, s);
    if IsStarted(s, id) {
      StoppedShowsReport(a, o, s, id);
    } else {
      assert Justified(a, o, s, id) && Justified(b, o, q, id);
      if IsStarted(q, id) {
        StoppedShowsReport(b, o, q, id);
      }
    }
  }

  /** The completion map fixes what was published, up to order. */
  lemma PublishedFixed(job: Job, o: Oracle, s: State, q: State)
    requires Stopped(job, o, s) && Stopped(job, o, q) && s.entries == q.entries
    ensures multiset(s.published) == multiset(q.published) && |s.published| == |q.published|
  {
    forall c ensures Sent(s)[c] == Sent(q)[c] {
      assert Due(job, o, s, c) <==> Due(job, o, q, c);
    }
    assert multiset(s.published) == Sent(s) == Sent(q) == multiset(q.published);
    assert |multiset(s.published)| == |s.published|;
    assert |multiset(q.published)| == |q.published|;
  }

  lemma SameEverywhere(job: Job, o: Oracle, s: State, q: State)
    requires Stopped(job, o, s) && Stopped(job, o, q)
    requires forall id :: id in job.steps ==> Same(s, q, id)
    ensures s.entries == q.entries
  {
    assert SeedFirst(job, s) && SeedFirst(job, q);
    assert s.entries.Keys == job.steps.Keys + {job.startID} == q.entries.Keys;
    forall id | id in s.entries ensures s.entries[id] == q.entries[id] {
      if id in job.steps {
        assert Same(s, q, id);
      }
    }
  }

  lemma SharedWithItself(job: Job)
    requires job.startID !in job.steps
    ensures Shared(job, job, job.steps.Keys)
  {
  }

  lemma RunsEndSame(job: Job, o: Oracle, ta: seq<State>, tb: seq<State>)
    requires job.startID !in job.steps
    requires IsRun(job, o, ta) && Quiescent(ta[|ta| - 1])
    requires IsRun(job, o, tb) && Quiescent(tb[|tb| - 1])
    ensures forall id :: id in job.steps ==> Same(ta[|ta| - 1], tb[|tb| - 1], id)
  {
    SharedWithItself(job);
    forall id | id in job.steps ensures Same(ta[|ta| - 1], tb[|tb| - 1], id) {
      SharedStepsEndAlike(job, job, o, job.steps.Keys, ta, tb, id);
    }
  }

  lemma RunStops(job: Job, o: Oracle, tr: seq<State>)
    requires job.startID !in job.steps && IsRun(job, o, tr) && Quiescent(tr[|tr| - 1])
    ensures Stopped(job, o, tr[|tr| - 1]) && |tr[|tr| - 1].published| == |tr| - 1
  {
    RunInv(job, o, tr, |tr| - 1);
  }

  /** Confluence, for every envelope, cyclic or not, defined requisites or not:
      all runs that have nothing left in flight end in the same completion map,
      having published the same completions. */
  lemma AllRunsEndAlike(job: Job, o: Oracle, ta: seq<State>, tb: seq<State>)
    requires job.startID !in job.steps
    requires IsRun(job, o, ta) && Quiescent(ta[|ta| - 1])
    requires IsRun(job, o, tb) && Quiescent(tb[|tb| - 1])
    ensures ta[|ta| - 1].entries == tb[|tb| - 1].entries
    ensures multiset(ta[|ta| - 1].published) == multiset(tb[|tb| - 1].published)
    ensures |ta| == |tb|
  {
    RunStops(job, o, ta);
    RunStops(job, o, tb);
    RunsEndSame(job, o, ta, tb);
    SameEverywhere(job, o, ta[|ta| - 1], tb[|tb| - 1]);
    PublishedFixed(job, o, ta[|ta| - 1], tb[|tb| - 1]);
  }
}
