/**
 The sprout's scheduler as a transition system.  One transition receives one of
 the completions in flight, in any order, and then scans the completion map, in
 any order, launching or failing the steps whose requisites are decided.

 How a step turns out once launched is an oracle, fixed per step ID.
 */
module Scheduler {
  import opened Recipe
  import opened Requisites

  /** An envelope as the scheduler sees it, with the ID of its seed completion. */
  datatype Job = Job(startID: StepID, steps: map<StepID, Step>)

  type Oracle = StepID -> Outcome

  /** `inFlight` holds the completions launched and not yet received: running
      steps and what waits in the channel.  `published` holds those received. */
  datatype State = State(entries: Entries, inFlight: multiset<Completion>, published: seq<Completion>)

  function Seed(job: Job): Completion {
    Completion(job.startID, Entry(Completed, false))
  }

  ghost function Init(job: Job): State {
    State(map id | id in job.steps :: Entry(NotStarted, false), multiset{Seed(job)}, [])
  }

  ghost function Receive(s: State, c: Completion): State {
    State(s.entries[c.id := c.result], s.inFlight - multiset{c}, s.published + [c])
  }

  ghost function Visit(job: Job, o: Oracle, s: State, id: StepID): State {
    if id !in job.steps || !Lookup(s.entries, id).status.NotStarted? then s
    else match VerdictOn(job.steps[id], s.entries)
      case Wait => s
      case Run => s.(entries := s.entries[id := Entry(InProgress, false)],
                     inFlight := s.inFlight + multiset{Completion(id, o(id))})
      case Unmeetable => s.(entries := s.entries[id := Entry(Failed, false)],
                            inFlight := s.inFlight + multiset{Completion(id, Entry(Failed, false))})
  }

  ghost function Scan(job: Job, o: Oracle, s: State, order: seq<StepID>): State {
    if order == [] then s
    else Visit(job, o, Scan(job, o, s, order[..|order| - 1]), order[|order| - 1])
  }

  /** A map iteration: every key once. */
  ghost predicate IsScanOrder(keys: set<StepID>, order: seq<StepID>) {
    && (forall id :: id in order <==> id in keys)
    && (forall i, j :: 0 <= i < j < |order| ==> order[i] != order[j])
  }

  ghost predicate Next(job: Job, o: Oracle, s: State, s': State) {
    exists c, order ::
      && c in s.inFlight
      && IsScanOrder(Receive(s, c).entries.Keys, order)
      && s' == Scan(job, o, Receive(s, c), order)
  }

  ghost predicate NextAt(job: Job, o: Oracle, tr: seq<State>, i: int) {
    0 <= i < |tr| - 1 ==> Next(job, o, tr[i], tr[i + 1])
  }

  /** A run, from the seed completion on. */
  ghost predicate IsRun(job: Job, o: Oracle, tr: seq<State>) {
    && |tr| > 0
    && tr[0] == Init(job)
    && forall i :: NextAt(job, o, tr, i)
  }

  lemma ExtendRun(job: Job, o: Oracle, tr: seq<State>, s: State)
    requires IsRun(job, o, tr) && Next(job, o, tr[|tr| - 1], s)
    ensures IsRun(job, o, tr + [s])
  {
    forall i ensures NextAt(job, o, tr + [s], i) {
      assert NextAt(job, o, tr, i);
    }
  }

  ghost predicate Quiescent(s: State) {
    s.inFlight == multiset{}
  }

  ghost predicate IsStarted(s: State, id: StepID) {
    !Lookup(s.entries, id).status.NotStarted?
  }

  ghost function Started(job: Job, s: State): set<StepID> {
    set id | id in job.steps && IsStarted(s, id)
  }

  /** What a decided step reports: its own outcome, or a requisite failure. */
  ghost function Expected(job: Job, o: Oracle, m: Entries, id: StepID): Entry
    requires id in job.steps
  {
    if VerdictOn(job.steps[id], m) == Run then o(id) else Entry(Failed, false)
  }

  // ----- Invariant of every reachable state -----

  /** Everything ever put on the channel. */
  ghost function Sent(s: State): multiset<Completion> {
    s.inFlight + multiset(s.published)
  }

  ghost predicate Due(job: Job, o: Oracle, s: State, c: Completion) {
    || c == Seed(job)
    || (c.id in job.steps && IsStarted(s, c.id) && c.result == Expected(job, o, s.entries, c.id))
  }

  ghost predicate SentOnce(job: Job, o: Oracle, s: State) {
    forall c :: Sent(s)[c] == if Due(job, o, s, c) then 1 else 0
  }

  /** A started step's requisites still decide it the way they did, and its
      entry is its report once that has been received. */
  ghost predicate Justified(job: Job, o: Oracle, s: State, id: StepID)
    requires id in job.steps
  {
    var e := Lookup(s.entries, id);
    var v := VerdictOn(job.steps[id], s.entries);
    if e.status.NotStarted? then !e.changed
    else
      && v != Wait
      && e == if Completion(id, Expected(job, o, s.entries, id)) in s.published then Expected(job, o, s.entries, id)
              else if v == Run then Entry(InProgress, false)
              else Entry(Failed, false)
  }

  ghost predicate SeedFirst(job: Job, s: State) {
    && (s.published == [] ==> s.inFlight == multiset{Seed(job)} && job.startID !in s.entries)
    && (s.published != [] ==> Seed(job) in s.published
                              && job.startID in s.entries && s.entries[job.startID] == Seed(job).result)
  }

  ghost predicate Inv(job: Job, o: Oracle, s: State) {
    && job.startID !in job.steps
    && (forall id :: id in job.steps ==> id in s.entries)
    && (forall id :: id in s.entries ==> id in job.steps || id == job.startID)
    && SentOnce(job, o, s)
    && (forall id :: id in job.steps ==> Justified(job, o, s, id))
    && SeedFirst(job, s)
    && |s.inFlight| + |s.published| == 1 + |Started(job, s)|
  }

  /** With nothing in flight, no waiting step could have been decided. */
  ghost predicate Exhausted(job: Job, s: State) {
    Quiescent(s) ==>
      forall id :: id in job.steps && !IsStarted(s, id) ==> VerdictOn(job.steps[id], s.entries) == Wait
  }

  lemma InitInv(job: Job, o: Oracle)
    requires job.startID !in job.steps
    ensures Inv(job, o, Init(job))
  {
    var s := Init(job);
    assert Started(job, s) == {};
  }

  /** Writing an entry that was undecided, or rewriting it as it was, disturbs no verdict. */
  lemma WriteKeeps(step: Step, m: Entries, id: StepID, e: Entry)
    requires !Lookup(m, id).Settled() || Lookup(m, id) == e
    ensures Keeps(step, m, m[id := e])
  {
  }

  /** The received completion is the seed, or the report of a step that still
      shows as in progress or as failed by its requisites. */
  lemma ReceivedIsDue(job: Job, o: Oracle, s: State, c: Completion)
    requires Inv(job, o, s) && c in s.inFlight
    ensures Due(job, o, s, c) && c !in s.published
    ensures !Lookup(s.entries, c.id).Ended() || Lookup(s.entries, c.id) == c.result
    ensures c != Seed(job) ==> s.published != []
    ensures c == Seed(job) ==> s.published == []
  {
    assert Sent(s)[c] == 1;
    assert multiset(s.published)[c] == 0;
  }

  /** Started steps keep their verdicts, and so their expected reports. */
  ghost predicate KeepsVerdicts(job: Job, m: Entries, n: Entries) {
    forall x :: x in job.steps && VerdictOn(job.steps[x], m) != Wait ==>
      VerdictOn(job.steps[x], n) == VerdictOn(job.steps[x], m)
  }

  lemma WriteKeepsVerdicts(job: Job, m: Entries, id: StepID, e: Entry)
    requires !Lookup(m, id).Settled() || Lookup(m, id) == e
    ensures KeepsVerdicts(job, m, m[id := e])
  {
    forall x | x in job.steps && VerdictOn(job.steps[x], m) != Wait
      ensures VerdictOn(job.steps[x], m[id := e]) == VerdictOn(job.steps[x], m)
    {
      WriteKeeps(job.steps[x], m, id, e);
      VerdictStable(job.steps[x], m, m[id := e]);
    }
  }

  lemma ReceiveJustified(job: Job, o: Oracle, s: State, c: Completion, x: StepID)
    requires Inv(job, o, s) && c in s.inFlight && x in job.steps
    requires KeepsVerdicts(job, s.entries, Receive(s, c).entries)
    ensures Justified(job, o, Receive(s, c), x)
    ensures IsStarted(Receive(s, c), x) == IsStarted(s, x)
  {
    ReceivedIsDue(job, o, s, c);
    assert Justified(job, o, s, x);
  }

  lemma ReceiveSent(job: Job, o: Oracle, s: State, c: Completion)
    requires Inv(job, o, s) && c in s.inFlight
    requires KeepsVerdicts(job, s.entries, Receive(s, c).entries)
    ensures SentOnce(job, o, Receive(s, c))
  {
    var s' := Receive(s, c);
    assert Sent(s') == Sent(s);
    forall d ensures Due(job, o, s', d) <==> Due(job, o, s, d) {
      if d.id in job.steps {
        ReceiveJustified(job, o, s, c, d.id);
        assert Justified(job, o, s, d.id);
      }
    }
  }

  lemma ReceiveInv(job: Job, o: Oracle, s: State, c: Completion)
    requires Inv(job, o, s) && c in s.inFlight
    ensures Inv(job, o, Receive(s, c))
  {
    var s' := Receive(s, c);
    ReceivedIsDue(job, o, s, c);
    WriteKeepsVerdicts(job, s.entries, c.id, c.result);
    ReceiveSent(job, o, s, c);
    forall x | x in job.steps
      ensures Justified(job, o, s', x) && IsStarted(s', x) == IsStarted(s, x)
    {
      ReceiveJustified(job, o, s, c, x);
    }
    assert Started(job, s') == Started(job, s);
    assert SeedFirst(job, s');
  }

  ghost predicate Launches(job: Job, o: Oracle, s: State, id: StepID, s': State) {
    && id in job.steps
    && !IsStarted(s, id)
    && VerdictOn(job.steps[id], s.entries) != Wait
    && s'.entries == s.entries[id := Entry(if VerdictOn(job.steps[id], s.entries) == Run then InProgress else Failed, false)]
    && s'.inFlight == s.inFlight + multiset{Completion(id, Expected(job, o, s.entries, id))}
    && s'.published == s.published
  }

  lemma LaunchSent(job: Job, o: Oracle, s: State, id: StepID, s': State)
    requires Inv(job, o, s) && Launches(job, o, s, id, s')
    requires KeepsVerdicts(job, s.entries, s'.entries)
    ensures SentOnce(job, o, s')
  {
    var c := Completion(id, Expected(job, o, s.entries, id));
    assert Sent(s') == Sent(s) + multiset{c};
    assert !Due(job, o, s, c);
    forall d ensures Due(job, o, s', d) <==> Due(job, o, s, d) || d == c {
      if d.id in job.steps && d.id != id {
        assert Justified(job, o, s, d.id);
        assert IsStarted(s', d.id) == IsStarted(s, d.id);
      }
    }
  }

  lemma LaunchJustified(job: Job, o: Oracle, s: State, id: StepID, s': State, x: StepID)
    requires Inv(job, o, s) && Launches(job, o, s, id, s') && x in job.steps
    requires KeepsVerdicts(job, s.entries, s'.entries)
    ensures Justified(job, o, s', x)
  {
    assert Justified(job, o, s, x);
    if x == id {
      var c := Completion(id, Expected(job, o, s.entries, id));
      assert !Due(job, o, s, c);
      assert Sent(s)[c] == 0;
    }
  }

  lemma VisitInv(job: Job, o: Oracle, s: State, id: StepID)
    requires Inv(job, o, s) && s.published != []
    ensures Inv(job, o, Visit(job, o, s, id))
    ensures Visit(job, o, s, id).published == s.published
  {
    var s' := Visit(job, o, s, id);
    if s' != s {
      assert Launches(job, o, s, id, s') && SeedFirst(job, s');
      WriteKeepsVerdicts(job, s.entries, id, s'.entries[id]);
      LaunchSent(job, o, s, id, s');
      forall x | x in job.steps ensures Justified(job, o, s', x) {
        LaunchJustified(job, o, s, id, s', x);
      }
      assert Started(job, s') == Started(job, s) + {id};
    }
  }

  lemma {:induction false} ScanInv(job: Job, o: Oracle, s: State, order: seq<StepID>)
    requires Inv(job, o, s) && s.published != []
    ensures Inv(job, o, Scan(job, o, s, order))
    ensures Scan(job, o, s, order).published == s.published
  {
    if order != [] {
      ScanInv(job, o, s, order[..|order| - 1]);
      VisitInv(job, o, Scan(job, o, s, order[..|order| - 1]), order[|order| - 1]);
    }
  }

  /** A scan that puts nothing in flight changes nothing and found nothing to do. */
  lemma {:induction false} IdleScan(job: Job, o: Oracle, s: State, order: seq<StepID>)
    ensures |Scan(job, o, s, order).inFlight| >= |s.inFlight|
    ensures |Scan(job, o, s, order).inFlight| == |s.inFlight| ==>
              && Scan(job, o, s, order) == s
              && forall id :: id in order && id in job.steps && !IsStarted(s, id) ==>
                   VerdictOn(job.steps[id], s.entries) == Wait
  {
    if order != [] {
      IdleScan(job, o, s, order[..|order| - 1]);
      assert order == order[..|order| - 1] + [order[|order| - 1]];
    }
  }

  lemma NextInv(job: Job, o: Oracle, s: State, s': State)
    requires Inv(job, o, s) && Next(job, o, s, s')
    ensures Inv(job, o, s') && Exhausted(job, s')
    ensures exists c :: c in s.inFlight && s'.published == s.published + [c]
  {
    var c, order :| c in s.inFlight && IsScanOrder(Receive(s, c).entries.Keys, order)
                    && s' == Scan(job, o, Receive(s, c), order);
    ReceiveInv(job, o, s, c);
    ScanInv(job, o, Receive(s, c), order);
    IdleScan(job, o, Receive(s, c), order);
    assert s'.published == s.published + [c];
    if Quiescent(s') {
      assert s' == Receive(s, c);
    }
  }

  lemma {:induction false} RunInv(job: Job, o: Oracle, tr: seq<State>, k: nat)
    requires job.startID !in job.steps && IsRun(job, o, tr) && k < |tr|
    ensures Inv(job, o, tr[k]) && Exhausted(job, tr[k])
    ensures |tr[k].published| == k
  {
    if k == 0 {
      InitInv(job, o);
    } else {
      RunInv(job, o, tr, k - 1);
      assert NextAt(job, o, tr, k - 1);
      NextInv(job, o, tr[k - 1], tr[k]);
    }
  }
}
