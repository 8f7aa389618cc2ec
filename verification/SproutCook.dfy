/**
 The sprout's event loop: completion map, completion channel and counter, as
 local state that the loop updates until every completion is in or the deadline
 passes.
 */
module SproutCook {
  import opened Recipe
  import opened Requisites
  import opened Scheduler
  import opened Confluence
  import opened Progress

  datatype Envelope = Envelope(jobID: string, steps: seq<Step>)

  datatype CookResult = Done | TimedOut

  const START_PREFIX := "start-"
  const COMPLETED_PREFIX := "completed-"
  const TIMEOUT_PREFIX := "timeout-"

  /** The steps the loop may launch.  One that bears the job's own start ID counts as
      completed from the first completion on, which is the seed. */
  function JobOf(env: Envelope): (job: Job)
    ensures job.startID !in job.steps
  {
    var startID := START_PREFIX + env.jobID;
    Job(startID, StepMap(env.steps) - {startID})
  }

  /** No two steps share an ID and none bears the job's start ID. */
  ghost predicate Countable(env: Envelope) {
    UniqueIDs(env.steps) && forall s :: s in env.steps ==> s.id != START_PREFIX + env.jobID
  }

  /** The loop launches as many steps as it waits for iff the envelope is countable. */
  lemma CountableExactly(env: Envelope)
    ensures |JobOf(env).steps.Keys| <= |env.steps|
    ensures |JobOf(env).steps.Keys| == |env.steps| <==> Countable(env)
  {
    var startID, all := START_PREFIX + env.jobID, StepMap(env.steps);
    StepMapKeys(env.steps);
    StepMapSize(env.steps);
    assert JobOf(env).steps.Keys == all.Keys - {startID};
    if startID in all {
      assert all[startID] in env.steps && !Countable(env);
    } else {
      assert all.Keys - {startID} == all.Keys;
      assert forall s :: s in env.steps ==> s.id in all;
    }
  }

  /** Unique step IDs, none of them one of the job's own bookend IDs. */
  ghost predicate ProperIDs(env: Envelope) {
    && UniqueIDs(env.steps)
    && forall s :: s in env.steps ==>
         && s.id != START_PREFIX + env.jobID
         && s.id != COMPLETED_PREFIX + env.jobID
         && s.id != TIMEOUT_PREFIX + env.jobID
  }

  lemma ProperJob(env: Envelope)
    requires ProperIDs(env)
    ensures Countable(env) && JobOf(env).steps == StepMap(env.steps)
    ensures |JobOf(env).steps.Keys| == |env.steps|
  {
    var all, startID := StepMap(env.steps), START_PREFIX + env.jobID;
    StepMapKeys(env.steps);
    CountableExactly(env);
    assert all - {startID} == all;
  }

  function Bookend(env: Envelope, result: CookResult): Completion {
    match result
    case Done => Completion(COMPLETED_PREFIX + env.jobID, Entry(Completed, false))
    case TimedOut => Completion(TIMEOUT_PREFIX + env.jobID, Entry(Failed, false))
  }

  function Unstarted(steps: map<StepID, Step>): Entries {
    map id | id in steps :: Entry(NotStarted, false)
  }

  /** The two loops that fill the completion map and the step map. */
  method Prepare(env: Envelope) returns (completionMap: Entries, stepMap: map<StepID, Step>)
    ensures stepMap == StepMap(env.steps)
    ensures completionMap == Unstarted(stepMap)
  {
    completionMap := map[];
    for i := 0 to |env.steps|
      invariant completionMap == Unstarted(StepMap(env.steps[..i]))
    {
      completionMap := completionMap[env.steps[i].id := Entry(NotStarted, false)];
      StepMapMore(env.steps, i);
    }
    stepMap := map[];
    for i := 0 to |env.steps|
      invariant stepMap == StepMap(env.steps[..i])
    {
      stepMap := stepMap[env.steps[i].id := env.steps[i]];
      StepMapMore(env.steps, i);
    }
    assert env.steps[..|env.steps|] == env.steps;
  }

  lemma StepMapMore(steps: seq<Step>, i: nat)
    requires i < |steps|
    ensures StepMap(steps[..i + 1]) == StepMap(steps[..i])[steps[i].id := steps[i]]
  {
    assert steps[..i + 1][..i] == steps[..i];
  }

  /** The scan of `s`, in some order of its keys, gives `s'`. */
  ghost predicate Scanned(job: Job, o: Oracle, s: State, s': State) {
    exists order :: IsScanOrder(s.entries.Keys, order) && s' == Scan(job, o, s, order)
  }

  /** One pass over the completion map, in whatever order the keys come. */
  method ScanCompletionMap(stepMap: map<StepID, Step>, o: Oracle, completionMap: Entries, channel: multiset<Completion>,
                           ghost job: Job, ghost published: seq<Completion>)
    returns (completionMap': Entries, channel': multiset<Completion>)
    requires forall id :: id in job.steps ==> id in stepMap && stepMap[id] == job.steps[id]
    requires forall id :: id in completionMap && completionMap[id].status.NotStarted? ==> id in job.steps
    ensures Scanned(job, o, State(completionMap, channel, published), State(completionMap', channel', published))
  {
    completionMap', channel' := completionMap, channel;
    ghost var order := [];
    var todo := completionMap.Keys;
    while todo != {}
      invariant todo <= completionMap.Keys
      invariant IsScanOrder(completionMap.Keys - todo, order)
      invariant completionMap'.Keys == completionMap.Keys
      invariant forall id :: id in completionMap' && completionMap'[id].status.NotStarted? ==> id in job.steps
      invariant State(completionMap', channel', published) == Scan(job, o, State(completionMap, channel, published), order)
    {
      var id :| id in todo;
      todo := todo - {id};
      assert (order + [id])[..|order|] == order;
      order := order + [id];
      if !completionMap'[id].status.NotStarted? {
        continue;
      }
      var verdict := RequisitesAreMet(stepMap[id], completionMap');
      if verdict == Unmeetable {
        completionMap' := completionMap'[id := Entry(Failed, false)];
        channel' := channel' + multiset{Completion(id, Entry(Failed, false))};
        continue;
      }
      if verdict == Wait {
        continue;
      }
      completionMap' := completionMap'[id := Entry(InProgress, false)];
      channel' := channel' + multiset{Completion(id, o(id))};
    }
    assert completionMap.Keys - todo == completionMap.Keys;
  }

  /** Nothing in flight and every step ended. */
  ghost predicate Finished(job: Job, s: State) {
    Quiescent(s) && forall id :: id in job.steps ==> Lookup(s.entries, id).Ended()
  }

  /** The loop's variables show the run's last state, except that until the seed is
      received the completion map may list the start ID as a step. */
  ghost predicate Shows(env: Envelope, completionMap: Entries, channel: multiset<Completion>, events: seq<Completion>, s: State) {
    && s == State(if events == [] then completionMap - {JobOf(env).startID} else completionMap, channel, events)
    && (events == [] ==> channel == multiset{Seed(JobOf(env))})
  }

  lemma ReceiveShows(env: Envelope, completionMap: Entries, channel: multiset<Completion>, events: seq<Completion>, s: State,
                     c: Completion)
    requires Shows(env, completionMap, channel, events, s) && c in channel
    ensures Receive(s, c) == State(completionMap[c.id := c.result], channel - multiset{c}, events + [c])
  {
    if events == [] {
      assert c == Seed(JobOf(env));
      assert (completionMap - {c.id})[c.id := c.result] == completionMap[c.id := c.result];
    }
  }

  /** What receiving `c` needs and does to a run. */
  lemma ReceiveRuns(job: Job, o: Oracle, tr: seq<State>, c: Completion)
    requires job.startID !in job.steps && IsRun(job, o, tr) && c in tr[|tr| - 1].inFlight
    ensures var s := Receive(tr[|tr| - 1], c);
      forall id :: id in s.entries && s.entries[id].status.NotStarted? ==> id in job.steps
  {
    RunInv(job, o, tr, |tr| - 1);
    ReceiveInv(job, o, tr[|tr| - 1], c);
  }

  lemma PassRuns(env: Envelope, o: Oracle, tr: seq<State>, c: Completion, s: State)
    requires IsRun(JobOf(env), o, tr) && c in tr[|tr| - 1].inFlight
    requires Scanned(JobOf(env), o, Receive(tr[|tr| - 1], c), s)
    ensures IsRun(JobOf(env), o, tr + [s])
    ensures |s.published| <= |env.steps| + 1
    ensures |s.published| == |env.steps| + 1 <==> Countable(env) && Finished(JobOf(env), s)
  {
    var job := JobOf(env);
    assert Next(job, o, tr[|tr| - 1], s);
    ExtendRun(job, o, tr, s);
    CountableExactly(env);
    AllReceivedMeansAllEnded(job, o, tr + [s], |tr|);
  }

  lemma InitRuns(job: Job, o: Oracle)
    requires job.startID !in job.steps
    ensures IsRun(job, o, [Init(job)]) && !Finished(job, Init(job))
  {
  }

  /** What a cook that ended with `result` and published `events` has run through:
      all its completions and one bookend are published; it is done exactly when
      every step has ended and its IDs are such that it can tell; it timed out at the deadline or with nothing left to
      wait for. */
  ghost predicate Reports(env: Envelope, o: Oracle, patience: nat, result: CookResult, events: seq<Completion>, tr: seq<State>) {
    && IsRun(JobOf(env), o, tr)
    && var s := tr[|tr| - 1];
    && events == s.published + [Bookend(env, result)]
    && (result.Done? <==> |s.published| == |env.steps| + 1)
    && (result.Done? <==> Countable(env) && Finished(JobOf(env), s))
    && (result.TimedOut? ==> |s.published| == patience || Quiescent(s))
  }

  /** Cook an envelope.  `patience` is how many completions come in before the
      deadline; `events` is what is published, in order, bookends included. */
  method CookRecipeEnvelope(env: Envelope, o: Oracle, patience: nat) returns (result: CookResult, events: seq<Completion>)
    ensures exists tr :: Reports(env, o, patience, result, events, tr)
    ensures events != [] && events[|events| - 1] ==
              match result
              case Done => Completion("completed-" + env.jobID, Entry(Completed, false))
              case TimedOut => Completion("timeout-" + env.jobID, Entry(Failed, false))
    ensures |events| > 1 ==> events[0] == Completion("start-" + env.jobID, Entry(Completed, false))
  {
    var completionMap, stepMap := Prepare(env);
    var channel := multiset{Completion(START_PREFIX + env.jobID, Entry(Completed, false))};
    var expected := |env.steps| + 1;
    var completed := 0;
    events := [];
    ghost var job := JobOf(env);
    ghost var tr := [Init(job)];
    InitRuns(job, o);
    while completed < patience && channel != multiset{}
      invariant IsRun(job, o, tr) && !(Countable(env) && Finished(job, tr[|tr| - 1]))
      invariant Shows(env, completionMap, channel, events, tr[|tr| - 1])
      invariant events != [] ==> events[0] == Completion("start-" + env.jobID, Entry(Completed, false))
      invariant completed == |events| < expected
      invariant completed <= patience
      decreases expected - completed
    {
      ghost var s := tr[|tr| - 1];
      var completion :| completion in channel;
      ReceiveRuns(job, o, tr, completion);
      ReceiveShows(env, completionMap, channel, events, s, completion);
      channel := channel - multiset{completion};
      events := events + [completion];
      completed := completed + 1;
      completionMap := completionMap[completion.id := completion.result];
      completionMap, channel := ScanCompletionMap(stepMap, o, completionMap, channel, job, events);
      PassRuns(env, o, tr, completion, State(completionMap, channel, events));
      tr := tr + [State(completionMap, channel, events)];
      if completed >= expected {
        result := Done;
        events := events + [Bookend(env, result)];
        assert Reports(env, o, patience, result, events, tr);
        return;
      }
    }
    result := TimedOut;
    events := events + [Bookend(env, result)];
    assert Reports(env, o, patience, result, events, tr);
  }

  /** With time to receive them all, a cook whose requisites are defined and acyclic
      succeeds iff its IDs can be counted and no step is left open by a skip; either
      way its steps end as the recipe means them to. */
  lemma ValidRecipeCooks(env: Envelope, o: Oracle, patience: nat, result: CookResult, events: seq<Completion>, tr: seq<State>)
    requires Reports(env, o, patience, result, events, tr) && Acyclic(JobOf(env)) && patience >= |env.steps| + 1
    ensures result.Done? <==>
              && Countable(env)
              && forall id :: id in JobOf(env).steps ==> !OpenOnSkip(JobOf(env).steps[id], Meanings(JobOf(env), o))
    ensures forall id :: id in JobOf(env).steps ==> Lookup(tr[|tr| - 1].entries, id) == Meanings(JobOf(env), o)[id]
  {
    PatientIsQuiescent(env, o, patience, result, events, tr);
    FinishesUnlessOpenOnSkip(JobOf(env), o, tr);
    RunStops(JobOf(env), o, tr);
    RunComputesMeaning(JobOf(env), o, tr);
  }

  lemma AllReceivedIsQuiescent(job: Job, o: Oracle, tr: seq<State>)
    requires job.startID !in job.steps && IsRun(job, o, tr) && |tr[|tr| - 1].published| >= |job.steps.Keys| + 1
    ensures Quiescent(tr[|tr| - 1])
  {
    AllReceivedMeansAllEnded(job, o, tr, |tr| - 1);
  }

  lemma PatientIsQuiescent(env: Envelope, o: Oracle, patience: nat, result: CookResult, events: seq<Completion>, tr: seq<State>)
    requires Reports(env, o, patience, result, events, tr) && patience >= |env.steps| + 1
    ensures Quiescent(tr[|tr| - 1])
  {
    CountableExactly(env);
    if |tr[|tr| - 1].published| >= |env.steps| + 1 {
      AllReceivedIsQuiescent(JobOf(env), o, tr);
    }
  }

  /** Two cooks of one envelope, whatever its requisites and IDs, that have time to
      receive everything return the same result, end every step alike and publish the
      same completions. */
  lemma PatientCooksAgree(env: Envelope, o: Oracle, p: nat, q: nat, ra: CookResult, rb: CookResult,
                          ea: seq<Completion>, eb: seq<Completion>, ta: seq<State>, tb: seq<State>)
    requires Reports(env, o, p, ra, ea, ta) && p >= |env.steps| + 1
    requires Reports(env, o, q, rb, eb, tb) && q >= |env.steps| + 1
    ensures ra == rb && ta[|ta| - 1].entries == tb[|tb| - 1].entries && multiset(ea) == multiset(eb)
  {
    PatientIsQuiescent(env, o, p, ra, ea, ta);
    PatientIsQuiescent(env, o, q, rb, eb, tb);
    AllRunsEndAlike(JobOf(env), o, ta, tb);
  }
}
