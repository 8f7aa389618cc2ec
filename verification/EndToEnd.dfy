/**
 From the sprout's event stream to the stored job status.
 */
module EndToEnd {
  import opened Options
  import opened Sets
  import opened Recipe
  import opened Requisites
  import opened Scheduler
  import opened Confluence
  import opened Progress
  import opened SproutCook
  import Index = StatusIndex

  /** An event's index update, told by the ID it carries. */
  function Classify(jid: string, c: Completion): Index.JobEvent {
    if c.id == START_PREFIX + jid then Index.JobEvent(None, true, false, false, false, false)
    else if c.id == COMPLETED_PREFIX + jid then Index.JobEvent(None, false, false, false, true, false)
    else if c.id == TIMEOUT_PREFIX + jid then Index.JobEvent(None, false, false, false, false, true)
    else Index.JobEvent(None, false, true, c.result.status.Failed?, false, false)
  }

  function Creation(env: Envelope): Index.JobEvent {
    Index.JobEvent(Some(|env.steps|), false, false, false, false, false)
  }

  /** All the events of one cook: its creation, what was received, its bookend. */
  function CookEvents(env: Envelope, published: seq<Completion>, result: CookResult): (events: seq<Index.JobEvent>)
    ensures |events| == |published| + 2
  {
    [Creation(env)]
    + seq(|published|, i requires 0 <= i < |published| => Classify(env.jobID, published[i]))
    + [Classify(env.jobID, Bookend(env, result))]
  }

  /** `tr` is a run that ended the way CookRecipeEnvelope says `result` does. */
  ghost predicate Cooked(env: Envelope, o: Oracle, tr: seq<State>, result: CookResult) {
    && ProperIDs(env)
    && IsRun(JobOf(env), o, tr)
    && (result.Done? ==> |tr[|tr| - 1].published| == |env.steps| + 1)
  }

  ghost predicate StepFailedIn(env: Envelope, s: State) {
    exists id :: id in JobOf(env).steps && Lookup(s.entries, id).status.Failed?
  }

  lemma PrefixesDiffer(jid: string)
    ensures START_PREFIX + jid != COMPLETED_PREFIX + jid
    ensures START_PREFIX + jid != TIMEOUT_PREFIX + jid
    ensures COMPLETED_PREFIX + jid != TIMEOUT_PREFIX + jid
  {
    assert (START_PREFIX + jid)[0] == 's';
    assert (COMPLETED_PREFIX + jid)[0] == 'c';
    assert (TIMEOUT_PREFIX + jid)[0] == 't';
  }

  /** What the sprout has published before its bookend: the seed once, at `p`,
      and otherwise the reports of steps. */
  ghost predicate Stream(env: Envelope, published: seq<Completion>, p: nat) {
    && ProperIDs(env)
    && (published != [] ==> p < |published| && published[p] == Seed(JobOf(env)))
    && forall i :: 0 <= i < |published| && i != p ==> published[i].id in JobOf(env).steps
  }

  lemma StreamReads(env: Envelope, published: seq<Completion>, p: nat, i: nat)
    requires Stream(env, published, p) && i < |published|
    ensures Classify(env.jobID, published[i]) ==
              if i == p then Index.JobEvent(None, true, false, false, false, false)
              else Index.JobEvent(None, false, true, published[i].result.status.Failed?, false, false)
  {
    StepMapKeys(env.steps);
  }

  /** A reachable state has published such a stream. */
  lemma InvStream(env: Envelope, o: Oracle, s: State) returns (p: nat)
    requires ProperIDs(env) && Inv(JobOf(env), o, s)
    ensures Stream(env, s.published, p)
  {
    var job := JobOf(env);
    p := 0;
    if s.published != [] {
      p := SeedAt(env, o, s);
    }
    forall i | 0 <= i < |s.published| && i != p ensures s.published[i].id in job.steps {
      assert Sent(s)[s.published[i]] > 0;
      assert Due(job, o, s, s.published[i]);
    }
  }

  lemma BookendReads(env: Envelope, result: CookResult)
    ensures Classify(env.jobID, Bookend(env, result)) ==
              Index.JobEvent(None, false, false, false, result.Done?, result.TimedOut?)
  {
    PrefixesDiffer(env.jobID);
  }

  /** The seed is received once, so all but one of what was received are steps. */
  lemma SeedAt(env: Envelope, o: Oracle, s: State) returns (p: nat)
    requires ProperIDs(env) && Inv(JobOf(env), o, s) && s.published != []
    ensures p < |s.published| && s.published[p] == Seed(JobOf(env))
    ensures forall i :: 0 <= i < |s.published| && i != p ==> s.published[i] != Seed(JobOf(env))
  {
    var c := Seed(JobOf(env));
    assert SeedFirst(JobOf(env), s);
    p :| 0 <= p < |s.published| && s.published[p] == c;
    assert Sent(s)[c] == 1;
    forall i | 0 <= i < |s.published| && i != p ensures s.published[i] != c {
      if s.published[i] == c {
        Twice(s.published, if i < p then i else p, if i < p then p else i);
      }
    }
  }

  lemma Twice(xs: seq<Completion>, i: nat, j: nat)
    requires i < j < |xs| && xs[i] == xs[j]
    ensures multiset(xs)[xs[i]] >= 2
  {
    assert xs == xs[..i] + [xs[i]] + xs[i + 1..j] + [xs[j]] + xs[j + 1..];
  }

  ghost function StepEvents(env: Envelope, published: seq<Completion>, result: CookResult): set<nat> {
    var events := CookEvents(env, published, result);
    Index.StepsIn(events, Below(|events|))
  }

  /** All the naturals below `n + 2` but three. */
  lemma AllButThree(all: set<nat>, some: set<nat>, n: nat, p: nat)
    requires p < n && |all| == n + 2 && forall i :: i in all <==> 0 <= i < n + 2
    requires forall i :: i in some <==> i in all && i != 0 && i != n + 1 && i != p + 1
    ensures |some| == n - 1
  {
    var ends: set<nat> := {0, n + 1};
    var others := ends + {p + 1};
    assert |others| == 3;
    DifferenceSize(all, others);
    assert some == all - others;
  }

  lemma StepEventCount(env: Envelope, published: seq<Completion>, p: nat, result: CookResult)
    requires Stream(env, published, p)
    ensures |StepEvents(env, published, result)| == if published == [] then 0 else |published| - 1
  {
    var n := |published|;
    var events := CookEvents(env, published, result);
    BookendReads(env, result);
    if n == 0 {
      assert StepEvents(env, published, result) == {};
    } else {
      forall i | 0 <= i < |events| ensures events[i].step <==> i != 0 && i != n + 1 && i != p + 1 {
        if 0 < i <= n {
          StreamReads(env, published, p, i - 1);
        }
      }
      AllButThree(Below(n + 2), StepEvents(env, published, result), n, p);
    }
  }

  /** The event stream of any run, however it ended, is what the index expects. */
  lemma RunIsCookLike(env: Envelope, o: Oracle, tr: seq<State>, result: CookResult)
    requires Cooked(env, o, tr, result)
    ensures Index.CookLike(CookEvents(env, tr[|tr| - 1].published, result), |env.steps|)
  {
    ProperJob(env);
    RunInv(JobOf(env), o, tr, |tr| - 1);
    AllReceivedMeansAllEnded(JobOf(env), o, tr, |tr| - 1);
    var p := InvStream(env, o, tr[|tr| - 1]);
    StreamIsCookLike(env, tr[|tr| - 1].published, p, result);
  }

  lemma InnerEvents(env: Envelope, published: seq<Completion>, p: nat, result: CookResult)
    requires Stream(env, published, p)
    ensures var events := CookEvents(env, published, result);
      forall i :: 0 < i < |events| - 1 ==> InnerEvent(events[i])
  {
    var events := CookEvents(env, published, result);
    forall i | 0 < i < |events| - 1 ensures InnerEvent(events[i]) {
      StreamReads(env, published, p, i - 1);
    }
  }

  /** What all the events together set. */
  lemma EventsTogether(env: Envelope, published: seq<Completion>, p: nat, result: CookResult)
    requires Stream(env, published, p)
    ensures var events := CookEvents(env, published, result);
      && Index.SawTotal(events, Below(|events|))
      && (Index.SawFinish(events, Below(|events|)) <==> result.Done?)
      && (Index.SawTimeout(events, Below(|events|)) <==> result.TimedOut?)
  {
    var events := CookEvents(env, published, result);
    InnerEvents(env, published, p, result);
    BookendReads(env, result);
    assert 0 in Below(|events|) && |events| - 1 in Below(|events|);
    assert events[0] == Creation(env);
  }

  lemma StreamIsCookLike(env: Envelope, published: seq<Completion>, p: nat, result: CookResult)
    requires Stream(env, published, p) && |published| <= |env.steps| + 1
    ensures Index.CookLike(CookEvents(env, published, result), |env.steps|)
  {
    StepEventCount(env, published, p, result);
    BookendReads(env, result);
    InnerEvents(env, published, p, result);
    ShapeIsCookLike(CookEvents(env, published, result), |env.steps|);
  }

  ghost predicate InnerEvent(e: Index.JobEvent) {
    e.stepsTotal.None? && (e.stepFailed ==> e.step) && !e.finished && !e.timedOut
  }

  lemma ShapeIsCookLike(events: seq<Index.JobEvent>, n: nat)
    requires |events| >= 2 && |Index.StepsIn(events, Below(|events|))| <= n
    requires events[0] == Index.JobEvent(Some(n), false, false, false, false, false)
    requires forall i :: 0 < i < |events| - 1 ==> InnerEvent(events[i])
    requires var e := events[|events| - 1]; e.stepsTotal.None? && !e.stepFailed && !(e.finished && e.timedOut)
    ensures Index.CookLike(events, n)
  {
  }

  /** A step's failure is reported exactly when it shows in the final map. */
  lemma FailureIsReported(env: Envelope, o: Oracle, s: State, result: CookResult)
    requires ProperIDs(env) && Stopped(JobOf(env), o, s)
    ensures var events := CookEvents(env, s.published, result);
      Index.SawFailure(events, Below(|events|)) <==> StepFailedIn(env, s)
  {
    var p := InvStream(env, o, s);
    FailureEvents(env, s.published, p, result);
    if k :| 0 <= k < |s.published| && k != p && s.published[k].result.status.Failed? {
      var c := s.published[k];
      assert Sent(s)[c] > 0;
      assert Due(JobOf(env), o, s, c);
      StoppedShowsReport(JobOf(env), o, s, c.id);
    }
    if id :| id in JobOf(env).steps && Lookup(s.entries, id).status.Failed? {
      ReportIsPublished(JobOf(env), o, s, id);
    }
  }

  lemma ReportIsPublished(job: Job, o: Oracle, s: State, id: StepID)
    requires Stopped(job, o, s) && id in job.steps && IsStarted(s, id)
    ensures Completion(id, Lookup(s.entries, id)) in s.published
  {
    StoppedShowsReport(job, o, s, id);
    var c := Completion(id, Expected(job, o, s.entries, id));
    assert Due(job, o, s, c);
    assert Sent(s)[c] == 1;
  }

  lemma FailureEvents(env: Envelope, published: seq<Completion>, p: nat, result: CookResult)
    requires Stream(env, published, p)
    ensures var events := CookEvents(env, published, result);
      Index.SawFailure(events, Below(|events|)) <==>
      exists k :: 0 <= k < |published| && k != p && published[k].result.status.Failed?
  {
    var events := CookEvents(env, published, result);
    forall i | 0 <= i < |events|
      ensures events[i].stepFailed <==> 0 < i <= |published| && i - 1 != p && published[i - 1].result.status.Failed?
    {
      FailureEventAt(env, published, p, result, i);
    }
    if k :| 0 <= k < |published| && k != p && published[k].result.status.Failed? {
      assert events[k + 1].stepFailed && k + 1 in Below(|events|);
    }
  }

  lemma FailureEventAt(env: Envelope, published: seq<Completion>, p: nat, result: CookResult, i: nat)
    requires Stream(env, published, p) && i < |published| + 2
    ensures CookEvents(env, published, result)[i].stepFailed <==>
              0 < i <= |published| && i - 1 != p && published[i - 1].result.status.Failed?
  {
    BookendReads(env, result);
    if 0 < i <= |published| {
      StreamReads(env, published, p, i - 1);
    }
  }

  ghost function FinalStatus(failed: bool): Index.IndexStatus {
    if failed then Index.Failed else Index.Succeeded
  }

  /** End to end: whatever order the completions came in, and however the replicas
      interleave the upserts and refreshes of the job's events, the status finally
      stored is `failed` if a step failed or the run timed out, and otherwise
      `succeeded`. */
  lemma StoredStatusIsRight(env: Envelope, o: Oracle, tr: seq<State>, result: CookResult, acts: seq<Index.Action>)
    requires Cooked(env, o, tr, result)
    requires Index.Complete(CookEvents(env, tr[|tr| - 1].published, result), acts)
    ensures Index.Stored(CookEvents(env, tr[|tr| - 1].published, result), acts)
            == FinalStatus(result.TimedOut? || StepFailedIn(env, tr[|tr| - 1]))
  {
    RunIsCookLike(env, o, tr, result);
    Index.CompletePlayIsCurrent(CookEvents(env, tr[|tr| - 1].published, result), |env.steps|, acts);
    RunTogether(env, o, tr, result);
    if result.Done? {
      DoneReports(env, o, tr);
    }
  }

  /** What all the events of a run together set. */
  lemma RunTogether(env: Envelope, o: Oracle, tr: seq<State>, result: CookResult)
    requires Cooked(env, o, tr, result)
    ensures var events := CookEvents(env, tr[|tr| - 1].published, result);
      && Index.SawTotal(events, Below(|events|))
      && (Index.SawFinish(events, Below(|events|)) <==> result.Done?)
      && (Index.SawTimeout(events, Below(|events|)) <==> result.TimedOut?)
  {
    ProperJob(env);
    RunInv(JobOf(env), o, tr, |tr| - 1);
    var p := InvStream(env, o, tr[|tr| - 1]);
    EventsTogether(env, tr[|tr| - 1].published, p, result);
  }

  /** A finished run has reported every step, and a failure iff a step failed. */
  lemma DoneReports(env: Envelope, o: Oracle, tr: seq<State>)
    requires Cooked(env, o, tr, Done)
    ensures var events := CookEvents(env, tr[|tr| - 1].published, Done);
      && |Index.StepsIn(events, Below(|events|))| == |env.steps|
      && (Index.SawFailure(events, Below(|events|)) <==> StepFailedIn(env, tr[|tr| - 1]))
  {
    var s := tr[|tr| - 1];
    FinishedIsQuiescent(env, o, tr);
    ProperJob(env);
    RunStops(JobOf(env), o, tr);
    var p := InvStream(env, o, s);
    StepEventCount(env, s.published, p, Done);
    FailureIsReported(env, o, s, Done);
  }

  /** What the farmer indexes for one cook: its creation, then each event published. */
  function Indexed(env: Envelope, events: seq<Completion>): seq<Index.JobEvent> {
    [Creation(env)] + seq(|events|, i requires 0 <= i < |events| => Classify(env.jobID, events[i]))
  }

  /** The same, of what CookRecipeEnvelope returns and publishes. */
  lemma CookIsStoredRight(env: Envelope, o: Oracle, patience: nat, result: CookResult, events: seq<Completion>, tr: seq<State>,
                          acts: seq<Index.Action>)
    requires ProperIDs(env) && Reports(env, o, patience, result, events, tr)
    requires Index.Complete(Indexed(env, events), acts)
    ensures Index.Stored(Indexed(env, events), acts) == FinalStatus(result.TimedOut? || StepFailedIn(env, tr[|tr| - 1]))
    ensures result.Done? ==> forall id :: id in JobOf(env).steps ==> Lookup(tr[|tr| - 1].entries, id).Ended()
  {
    assert Indexed(env, events) == CookEvents(env, tr[|tr| - 1].published, result);
    StoredStatusIsRight(env, o, tr, result, acts);
  }

  /** The row the farmer keeps, if it indexes a cook's events one after the other. */
  method IndexCook(table: Index.JobStatusTable, k: Index.Key, env: Envelope, events: seq<Completion>,
                   ghost o: Oracle, ghost patience: nat, ghost result: CookResult, ghost tr: seq<State>)
    requires k !in table.rows && ProperIDs(env) && Reports(env, o, patience, result, events, tr)
    modifies table
    ensures table.At(k).Some? <==> Index.Indexable(k)
    ensures Index.Indexable(k) ==>
              table.At(k).value.status == FinalStatus(result.TimedOut? || StepFailedIn(env, tr[|tr| - 1]))
    ensures forall x :: x != k ==> table.At(x) == old(table.At(x))
  {
    var indexed := Indexed(env, events);
    Index.IndexInTurn(table, k, indexed);
    ghost var acts := Index.InTurn(|indexed|);
    Index.InTurnComplete(indexed);
    CookIsStoredRight(env, o, patience, result, events, tr, acts);
    StoredInTurn(indexed);
  }

  lemma StoredInTurn(events: seq<Index.JobEvent>)
    requires events != []
    ensures Index.Play(events, Index.InTurn(|events|)).Some?
  {
    Index.PlayInTurn(events, |events| - 1);
  }

  /** Two cooks of the same envelope that both finish store the same status. */
  lemma StoredStatusConverges(env: Envelope, o: Oracle, ta: seq<State>, tb: seq<State>,
                              aa: seq<Index.Action>, ab: seq<Index.Action>)
    requires Cooked(env, o, ta, Done) && Index.Complete(CookEvents(env, ta[|ta| - 1].published, Done), aa)
    requires Cooked(env, o, tb, Done) && Index.Complete(CookEvents(env, tb[|tb| - 1].published, Done), ab)
    ensures Index.Stored(CookEvents(env, ta[|ta| - 1].published, Done), aa)
            == Index.Stored(CookEvents(env, tb[|tb| - 1].published, Done), ab)
  {
    StoredStatusIsRight(env, o, ta, Done, aa);
    StoredStatusIsRight(env, o, tb, Done, ab);
    FinishedFailAlike(env, o, ta, tb);
  }

  /** Two cooks of one envelope that have time to receive everything store the same
      status, finished or not. */
  lemma PatientCooksStoreAlike(env: Envelope, o: Oracle, p: nat, q: nat, ra: CookResult, rb: CookResult,
                               ea: seq<Completion>, eb: seq<Completion>, ta: seq<State>, tb: seq<State>,
                               aa: seq<Index.Action>, ab: seq<Index.Action>)
    requires ProperIDs(env)
    requires Reports(env, o, p, ra, ea, ta) && p >= |env.steps| + 1 && Index.Complete(Indexed(env, ea), aa)
    requires Reports(env, o, q, rb, eb, tb) && q >= |env.steps| + 1 && Index.Complete(Indexed(env, eb), ab)
    ensures Index.Stored(Indexed(env, ea), aa) == Index.Stored(Indexed(env, eb), ab)
  {
    CookIsStoredRight(env, o, p, ra, ea, ta, aa);
    CookIsStoredRight(env, o, q, rb, eb, tb, ab);
    PatientCooksAgree(env, o, p, q, ra, rb, ea, eb, ta, tb);
    FailAlike(env, ta[|ta| - 1], tb[|tb| - 1]);
  }

  lemma FailAlike(env: Envelope, s: State, t: State)
    requires s.entries == t.entries
    ensures StepFailedIn(env, s) <==> StepFailedIn(env, t)
  {
  }

  lemma FinishedFailAlike(env: Envelope, o: Oracle, ta: seq<State>, tb: seq<State>)
    requires Cooked(env, o, ta, Done) && Cooked(env, o, tb, Done)
    ensures StepFailedIn(env, ta[|ta| - 1]) <==> StepFailedIn(env, tb[|tb| - 1])
  {
    FinishedIsQuiescent(env, o, ta);
    FinishedIsQuiescent(env, o, tb);
    AllRunsEndAlike(JobOf(env), o, ta, tb);
  }

  lemma FinishedIsQuiescent(env: Envelope, o: Oracle, tr: seq<State>)
    requires Cooked(env, o, tr, Done)
    ensures Quiescent(tr[|tr| - 1])
  {
    ProperJob(env);
    AllReceivedMeansAllEnded(JobOf(env), o, tr, |tr| - 1);
  }

  /** Over every prefix of such a run the stored status is never early and never
      retracted: `succeeded` means that every step has ended and none failed. */
  lemma StoredStatusNeverMisleads(env: Envelope, o: Oracle, tr: seq<State>, result: CookResult, acts: seq<Index.Action>, j: nat)
    requires Cooked(env, o, tr, result) && j <= |acts|
    requires Index.Interleaving(CookEvents(env, tr[|tr| - 1].published, result), acts)
    ensures var events := CookEvents(env, tr[|tr| - 1].published, result);
      && Index.Stored(events, acts[..j]).Rank() <= Index.Stored(events, acts).Rank()
      && (Index.Stored(events, acts[..j]).Terminal() ==> Index.Stored(events, acts) == Index.Stored(events, acts[..j]))
      && (Index.Stored(events, acts).Succeeded? ==>
            result.Done? && (forall i :: 0 <= i < |events| && events[i].step ==> i in Index.Seen(acts))
            && !StepFailedIn(env, tr[|tr| - 1]))
  {
    var s := tr[|tr| - 1];
    var events := CookEvents(env, s.published, result);
    RunIsCookLike(env, o, tr, result);
    Index.NoRetractedVerdict(events, |env.steps|, acts, j);
    Index.NoEarlyVerdict(events, |env.steps|, acts);
    if Index.Stored(events, acts).Succeeded? {
      SucceededMeansFinished(env, o, tr, result, acts);
      DoneReports(env, o, tr);
    }
  }

  lemma SucceededMeansFinished(env: Envelope, o: Oracle, tr: seq<State>, result: CookResult, acts: seq<Index.Action>)
    requires Cooked(env, o, tr, result)
    requires Index.Interleaving(CookEvents(env, tr[|tr| - 1].published, result), acts)
    requires Index.Stored(CookEvents(env, tr[|tr| - 1].published, result), acts).Succeeded?
    ensures result.Done? && !Index.SawTimeout(CookEvents(env, tr[|tr| - 1].published, result), Index.Seen(acts))
  {
    RunIsCookLike(env, o, tr, result);
    RunTogether(env, o, tr, result);
    var u, r := Index.StoredBacked(CookEvents(env, tr[|tr| - 1].published, result), |env.steps|, acts);
  }
}
