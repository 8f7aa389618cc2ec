/**
 The job-status index: one row per job, written by several replicas in no fixed
 order.  Each event is applied in two atomic steps, an upsert of its counters and
 flags and a later recomputation of the status from the row as it then stands.
 */
module StatusIndex {
  import opened Options
  import opened Sets

  datatype IndexStatus = Pending | Running | Succeeded | Failed {
    predicate Terminal() {
      Succeeded? || Failed?
    }

    function Rank(): nat {
      if Pending? then 0 else if Running? then 1 else 2
    }
  }

  datatype Row = Row(status: IndexStatus, stepsTotal: Option<nat>, stepsReported: nat,
                     stepFailed: bool, started: bool, finished: bool, timedOut: bool)

  /** One event's contribution to its job's row. */
  datatype JobEvent = JobEvent(stepsTotal: Option<nat>, started: bool, step: bool,
                               stepFailed: bool, finished: bool, timedOut: bool)

  datatype Key = Key(tenantID: string, sproutID: string, jid: string)

  const MAX_TENANT_ID_LEN := 191
  const MAX_SPROUT_ID_LEN := 253
  const MAX_JID_LEN := 64

  predicate Indexable(k: Key) {
    && 0 < |k.tenantID| <= MAX_TENANT_ID_LEN
    && 0 < |k.sproutID| <= MAX_SPROUT_ID_LEN
    && 0 < |k.jid| <= MAX_JID_LEN
  }

  /** In numbers: no part of the key is empty, and they fit their columns. */
  lemma IndexableRange(k: Key)
    ensures Indexable(k) <==>
            && k.tenantID != "" && |k.tenantID| <= 191
            && k.sproutID != "" && |k.sproutID| <= 253
            && k.jid != "" && |k.jid| <= 64
  {
  }

  /** The job has finished and as many steps have reported as there are. */
  predicate AllIn(r: Row) {
    r.finished && r.stepsTotal.Some? && r.stepsReported >= r.stepsTotal.value
  }

  function StatusExpr(r: Row): (s: IndexStatus)
    ensures s.Failed? <==> r.timedOut || (AllIn(r) && r.stepFailed)
    ensures s.Succeeded? <==> AllIn(r) && !r.stepFailed && !r.timedOut
    ensures s.Running? <==> !AllIn(r) && !r.timedOut && (r.started || r.finished || r.stepsReported > 0)
    ensures s.Pending? <==> !r.started && !r.finished && !r.timedOut && r.stepsReported == 0
  {
    if r.timedOut then Failed
    else if r.finished && r.stepsTotal.Some? && r.stepsReported >= r.stepsTotal.value then
      if r.stepFailed then Failed else Succeeded
    else if r.started || r.finished || r.stepsReported > 0 then Running
    else Pending
  }

  /** Insert the row an event brings, or add the event to the row there is. */
  function Upsert(row: Option<Row>, ev: JobEvent): Row {
    match row
    case None =>
      Row(Pending, ev.stepsTotal, if ev.step then 1 else 0, ev.stepFailed, ev.started, ev.finished, ev.timedOut)
    case Some(r) =>
      Row(r.status,
          if ev.stepsTotal.Some? then ev.stepsTotal else r.stepsTotal,
          if ev.step then r.stepsReported + 1 else r.stepsReported,
          r.stepFailed || ev.stepFailed, r.started || ev.started,
          r.finished || ev.finished, r.timedOut || ev.timedOut)
  }

  function Refresh(row: Option<Row>): Option<Row> {
    match row
    case None => None
    case Some(r) => Some(r.(status := StatusExpr(r)))
  }

  /** The `job_status` table. */
  class JobStatusTable {
    var rows: map<Key, Row>

    constructor ()
      ensures rows == map[]
    {
      rows := map[];
    }

    function At(k: Key): Option<Row>
      reads this
    {
      if k in rows then Some(rows[k]) else None
    }

    method UpsertJobEvent(k: Key, ev: JobEvent)
      modifies this
      ensures At(k) == Some(Upsert(old(At(k)), ev))
      ensures forall x :: x != k ==> At(x) == old(At(x))
    {
      if k !in rows {
        var reported := 0;
        if ev.step {
          reported := 1;
        }
        rows := rows[k := Row(Pending, ev.stepsTotal, reported, ev.stepFailed, ev.started, ev.finished, ev.timedOut)];
        return;
      }
      var row := rows[k];
      if ev.stepsTotal.Some? {
        row := row.(stepsTotal := ev.stepsTotal);
      }
      if ev.step {
        row := row.(stepsReported := row.stepsReported + 1);
      }
      if ev.stepFailed {
        row := row.(stepFailed := true);
      }
      if ev.started {
        row := row.(started := true);
      }
      if ev.finished {
        row := row.(finished := true);
      }
      if ev.timedOut {
        row := row.(timedOut := true);
      }
      rows := rows[k := row];
    }

    method RefreshJobStatus(k: Key)
      modifies this
      ensures At(k) == Refresh(old(At(k)))
      ensures forall x :: x != k ==> At(x) == old(At(x))
    {
      if k in rows {
        rows := rows[k := rows[k].(status := StatusExpr(rows[k]))];
      }
    }

    /** One event on its own, nothing in between; out-of-range keys are not indexed. */
    method IndexJobEvent(k: Key, ev: JobEvent)
      modifies this
      ensures At(k) == if Indexable(k) then Refresh(Some(Upsert(old(At(k)), ev))) else old(At(k))
      ensures forall x :: x != k ==> At(x) == old(At(x))
    {
      if !Indexable(k) {
        return;
      }
      UpsertJobEvent(k, ev);
      RefreshJobStatus(k);
    }
  }

  /** Index a job's events one after the other. */
  method IndexInTurn(table: JobStatusTable, k: Key, events: seq<JobEvent>)
    requires k !in table.rows
    modifies table
    ensures table.At(k) == if Indexable(k) then Play(events, InTurn(|events|)) else None
    ensures forall x :: x != k ==> table.At(x) == old(table.At(x))
  {
    for i := 0 to |events|
      invariant table.At(k) == if Indexable(k) then Play(events, InTurn(i)) else None
      invariant forall x :: x != k ==> table.At(x) == old(table.At(x))
    {
      PlayInTurn(events, i);
      table.IndexJobEvent(k, events[i]);
    }
  }

  /** Carry out the upserts and refreshes of a job's events as replicas interleave them. */
  method IndexInterleaved(table: JobStatusTable, k: Key, events: seq<JobEvent>, acts: seq<Action>)
    requires k !in table.rows && Interleaving(events, acts)
    modifies table
    ensures table.At(k) == Play(events, acts)
    ensures forall x :: x != k ==> table.At(x) == old(table.At(x))
  {
    for i := 0 to |acts|
      invariant table.At(k) == Play(events, acts[..i])
      invariant forall x :: x != k ==> table.At(x) == old(table.At(x))
    {
      assert acts[..i + 1][..i] == acts[..i];
      match acts[i] {
        case Upserted(e) =>
          ActsInRange(events, acts, i);
          table.UpsertJobEvent(k, events[e]);
        case Refreshed(_) =>
          table.RefreshJobStatus(k);
      }
    }
    assert acts[..|acts|] == acts;
  }

  lemma {:induction false} ActsInRange(events: seq<JobEvent>, acts: seq<Action>, i: nat)
    requires Interleaving(events, acts) && i < |acts|
    ensures acts[i].Upserted? ==> acts[i].i < |events|
    decreases |acts|
  {
    if i < |acts| - 1 {
      ActsInRange(events, acts[..|acts| - 1], i);
    }
  }

  // ----- Interleavings of one job's events -----

  datatype Action = Upserted(i: nat) | Refreshed(i: nat)

  function Apply(events: seq<JobEvent>, row: Option<Row>, a: Action): Option<Row> {
    match a
    case Upserted(i) => if i < |events| then Some(Upsert(row, events[i])) else row
    case Refreshed(_) => Refresh(row)
  }

  function Play(events: seq<JobEvent>, acts: seq<Action>): Option<Row> {
    if acts == [] then None
    else Apply(events, Play(events, acts[..|acts| - 1]), acts[|acts| - 1])
  }

  /** The events upserted so far. */
  ghost function Seen(acts: seq<Action>): set<nat> {
    if acts == [] then {}
    else Seen(acts[..|acts| - 1]) + match acts[|acts| - 1] case Upserted(i) => {i} case Refreshed(_) => {}
  }

  /** The events refreshed so far. */
  ghost function Current(acts: seq<Action>): set<nat> {
    if acts == [] then {}
    else Current(acts[..|acts| - 1]) + match acts[|acts| - 1] case Upserted(_) => {} case Refreshed(i) => {i}
  }

  /** Each event is upserted at most once and refreshed at most once, the
      upsert first; anything may come between and around. */
  ghost predicate Interleaving(events: seq<JobEvent>, acts: seq<Action>) {
    acts == [] ||
    var front, a := acts[..|acts| - 1], acts[|acts| - 1];
    && Interleaving(events, front)
    && match a
       case Upserted(i) => i < |events| && i !in Seen(front)
       case Refreshed(i) => i in Seen(front) && i !in Current(front)
  }

  /** Every event has been upserted and refreshed. */
  ghost predicate Complete(events: seq<JobEvent>, acts: seq<Action>) {
    Interleaving(events, acts) && forall i :: 0 <= i < |events| ==> i in Current(acts)
  }

  ghost predicate UpsertAt(acts: seq<Action>, k: nat, i: nat) {
    k < |acts| && acts[k] == Upserted(i)
  }

  ghost predicate RefreshAt(acts: seq<Action>, k: nat, i: nat) {
    k < |acts| && acts[k] == Refreshed(i)
  }

  lemma {:induction false} SeenAt(acts: seq<Action>, i: nat)
    ensures i in Seen(acts) <==> exists k: nat :: UpsertAt(acts, k, i)
    ensures i in Current(acts) <==> exists k: nat :: RefreshAt(acts, k, i)
  {
    if acts != [] {
      var n, front := |acts| - 1, acts[..|acts| - 1];
      SeenAt(front, i);
      assert forall k: nat :: k < n ==> UpsertAt(acts, k, i) == UpsertAt(front, k, i) && RefreshAt(acts, k, i) == RefreshAt(front, k, i);
      assert UpsertAt(acts, n, i) || RefreshAt(acts, n, i) || acts[n].i != i;
      if k: nat :| UpsertAt(front, k, i) {
        assert UpsertAt(acts, k, i);
      }
      if k: nat :| RefreshAt(front, k, i) {
        assert RefreshAt(acts, k, i);
      }
    }
  }

  /** No two actions are the same, an event is upserted before it is refreshed, and
      nothing else is asked. */
  ghost predicate FreelyOrdered(events: seq<JobEvent>, acts: seq<Action>) {
    && (forall j, k :: 0 <= j < k < |acts| ==> acts[j] != acts[k])
    && (forall k: nat, i: nat :: UpsertAt(acts, k, i) ==> i < |events|)
    && (forall k: nat, i: nat :: RefreshAt(acts, k, i) ==> exists j: nat :: j < k && UpsertAt(acts, j, i))
  }

  lemma {:induction false} InterleavingExactly(events: seq<JobEvent>, acts: seq<Action>)
    ensures Interleaving(events, acts) <==> FreelyOrdered(events, acts)
  {
    if acts != [] {
      var n, front, a := |acts| - 1, acts[..|acts| - 1], acts[|acts| - 1];
      InterleavingExactly(events, front);
      SeenAt(front, a.i);
      LastFreelyOrdered(events, acts);
    }
  }

  lemma LastFreelyOrdered(events: seq<JobEvent>, acts: seq<Action>)
    requires acts != []
    ensures var front, a := acts[..|acts| - 1], acts[|acts| - 1];
      FreelyOrdered(events, acts) <==>
        && FreelyOrdered(events, front)
        && match a
           case Upserted(i) => i < |events| && !exists k: nat :: UpsertAt(front, k, i)
           case Refreshed(i) => (exists k: nat :: UpsertAt(front, k, i)) && !exists k: nat :: RefreshAt(front, k, i)
  {
    var n, front, a := |acts| - 1, acts[..|acts| - 1], acts[|acts| - 1];
    assert forall k: nat, i: nat :: k < n ==> UpsertAt(acts, k, i) == UpsertAt(front, k, i) && RefreshAt(acts, k, i) == RefreshAt(front, k, i);
    assert a.Upserted? ==> UpsertAt(acts, n, a.i);
    assert a.Refreshed? ==> RefreshAt(acts, n, a.i);
    if FreelyOrdered(events, acts) {
      LastOrderedBack(events, acts);
    }
    if && FreelyOrdered(events, front)
       && match a
          case Upserted(i) => i < |events| && !exists k: nat :: UpsertAt(front, k, i)
          case Refreshed(i) => (exists k: nat :: UpsertAt(front, k, i)) && !exists k: nat :: RefreshAt(front, k, i)
    {
      LastOrderedOn(events, acts);
    }
  }

  lemma LastOrderedBack(events: seq<JobEvent>, acts: seq<Action>)
    requires acts != [] && FreelyOrdered(events, acts)
    ensures FreelyOrdered(events, acts[..|acts| - 1])
  {
    var n, front := |acts| - 1, acts[..|acts| - 1];
    forall k: nat, i: nat | UpsertAt(front, k, i) ensures i < |events| {
      assert UpsertAt(acts, k, i);
    }
    forall k: nat, i: nat | RefreshAt(front, k, i) ensures exists j: nat :: j < k && UpsertAt(front, j, i) {
      assert RefreshAt(acts, k, i);
      var j: nat :| j < k && UpsertAt(acts, j, i);
      assert UpsertAt(front, j, i);
    }
  }

  lemma LastOrderedOn(events: seq<JobEvent>, acts: seq<Action>)
    requires acts != [] && FreelyOrdered(events, acts[..|acts| - 1])
    requires var front, a := acts[..|acts| - 1], acts[|acts| - 1];
      match a
      case Upserted(i) => i < |events| && !exists k: nat :: UpsertAt(front, k, i)
      case Refreshed(i) => (exists k: nat :: UpsertAt(front, k, i)) && !exists k: nat :: RefreshAt(front, k, i)
    ensures FreelyOrdered(events, acts)
  {
    var n, front, a := |acts| - 1, acts[..|acts| - 1], acts[|acts| - 1];
    forall j, k | 0 <= j < k < |acts| ensures acts[j] != acts[k] {
      if k == n {
        assert !UpsertAt(front, j, a.i) || a.Refreshed?;
        assert !RefreshAt(front, j, a.i) || a.Upserted?;
      } else {
        assert front[j] != front[k];
      }
    }
    forall k: nat, i: nat | UpsertAt(acts, k, i) ensures i < |events| {
      assert k < n ==> UpsertAt(front, k, i);
    }
    forall k: nat, i: nat | RefreshAt(acts, k, i) ensures exists j: nat :: j < k && UpsertAt(acts, j, i) {
      if k < n {
        assert RefreshAt(front, k, i);
        var j: nat :| j < k && UpsertAt(front, j, i);
        assert UpsertAt(acts, j, i);
      } else {
        var j: nat :| UpsertAt(front, j, i);
        assert UpsertAt(acts, j, i);
      }
    }
  }

  /** The interleaving in which each event is upserted and refreshed before the next. */
  function InTurn(n: nat): seq<Action> {
    if n == 0 then [] else InTurn(n - 1) + [Upserted(n - 1), Refreshed(n - 1)]
  }

  lemma PlayInTurn(events: seq<JobEvent>, n: nat)
    requires n < |events|
    ensures Play(events, InTurn(n + 1)) == Refresh(Some(Upsert(Play(events, InTurn(n)), events[n])))
  {
    var acts := InTurn(n + 1);
    var upserted := InTurn(n) + [Upserted(n)];
    assert acts[..|acts| - 1] == upserted;
    assert upserted[..|upserted| - 1] == InTurn(n);
  }

  lemma {:induction false} InTurnSeen(n: nat)
    ensures forall i :: i in Seen(InTurn(n)) <==> 0 <= i < n
    ensures forall i :: i in Current(InTurn(n)) <==> 0 <= i < n
  {
    if n > 0 {
      InTurnSeen(n - 1);
      var acts, before := InTurn(n), InTurn(n - 1);
      var upserted := before + [Upserted(n - 1)];
      assert acts[..|acts| - 1] == upserted && upserted[..|upserted| - 1] == before;
      assert Seen(upserted) == Seen(before) + {n - 1} && Current(upserted) == Current(before);
    }
  }

  lemma {:induction false} InTurnInterleaves(events: seq<JobEvent>, n: nat)
    requires n <= |events|
    ensures Interleaving(events, InTurn(n))
  {
    if n > 0 {
      InTurnInterleaves(events, n - 1);
      InTurnSeen(n - 1);
      var acts, before := InTurn(n), InTurn(n - 1);
      var upserted := before + [Upserted(n - 1)];
      assert acts[..|acts| - 1] == upserted && upserted[..|upserted| - 1] == before;
      assert Interleaving(events, upserted);
    }
  }

  lemma InTurnComplete(events: seq<JobEvent>)
    ensures Complete(events, InTurn(|events|))
  {
    InTurnInterleaves(events, |events|);
    InTurnSeen(|events|);
  }

  lemma {:induction false} SeenBounds(events: seq<JobEvent>, acts: seq<Action>)
    requires Interleaving(events, acts)
    ensures Current(acts) <= Seen(acts)
    ensures forall i :: i in Seen(acts) ==> i < |events|
    ensures acts != [] ==> Seen(acts) != {}
  {
    if acts != [] {
      SeenBounds(events, acts[..|acts| - 1]);
    }
  }

  ghost function StepsIn(events: seq<JobEvent>, u: set<nat>): set<nat> {
    set i | i in u && i < |events| && events[i].step
  }

  ghost predicate SawTotal(events: seq<JobEvent>, u: set<nat>) {
    exists i :: i in u && i < |events| && events[i].stepsTotal.Some?
  }

  ghost predicate SawFailure(events: seq<JobEvent>, u: set<nat>) {
    exists i :: i in u && i < |events| && events[i].stepFailed
  }

  ghost predicate SawStart(events: seq<JobEvent>, u: set<nat>) {
    exists i :: i in u && i < |events| && events[i].started
  }

  ghost predicate SawFinish(events: seq<JobEvent>, u: set<nat>) {
    exists i :: i in u && i < |events| && events[i].finished
  }

  ghost predicate SawTimeout(events: seq<JobEvent>, u: set<nat>) {
    exists i :: i in u && i < |events| && events[i].timedOut
  }

  /** The row columns are those of the events in `u`, in whatever order. */
  ghost predicate Columns(events: seq<JobEvent>, n: nat, u: set<nat>, r: Row) {
    && r.stepsReported == |StepsIn(events, u)|
    && r.stepsTotal == (if SawTotal(events, u) then Some(n) else None)
    && r.stepFailed == SawFailure(events, u)
    && r.started == SawStart(events, u)
    && r.finished == SawFinish(events, u)
    && r.timedOut == SawTimeout(events, u)
  }

  lemma SeeingMore(events: seq<JobEvent>, u: set<nat>, i: nat)
    requires i < |events| && i !in u
    ensures |StepsIn(events, u + {i})| == |StepsIn(events, u)| + if events[i].step then 1 else 0
    ensures SawTotal(events, u + {i}) == (SawTotal(events, u) || events[i].stepsTotal.Some?)
    ensures SawFailure(events, u + {i}) == (SawFailure(events, u) || events[i].stepFailed)
    ensures SawStart(events, u + {i}) == (SawStart(events, u) || events[i].started)
    ensures SawFinish(events, u + {i}) == (SawFinish(events, u) || events[i].finished)
    ensures SawTimeout(events, u + {i}) == (SawTimeout(events, u) || events[i].timedOut)
  {
    assert StepsIn(events, u + {i}) == StepsIn(events, u) + if events[i].step then {i} else {};
    assert i in u + {i};
  }

  /** Creation events, if any, give the step count `n`. */
  ghost predicate OneTotal(events: seq<JobEvent>, n: nat) {
    forall i :: 0 <= i < |events| && events[i].stepsTotal.Some? ==> events[i].stepsTotal.value == n
  }

  lemma UpsertColumns(events: seq<JobEvent>, n: nat, u: set<nat>, row: Option<Row>, i: nat)
    requires OneTotal(events, n) && i < |events| && i !in u && forall j :: j in u ==> j < |events|
    requires row.None? ==> u == {}
    requires row.Some? ==> Columns(events, n, u, row.value)
    ensures Columns(events, n, u + {i}, Upsert(row, events[i]))
  {
    SeeingMore(events, u, i);
    if row.None? {
      assert StepsIn(events, u) == {};
    }
  }

  lemma {:induction false} PlayColumns(events: seq<JobEvent>, n: nat, acts: seq<Action>)
    requires OneTotal(events, n) && Interleaving(events, acts)
    ensures Play(events, acts).None? <==> acts == []
    ensures forall i :: i in Seen(acts) ==> i < |events|
    ensures acts != [] ==> Columns(events, n, Seen(acts), Play(events, acts).value)
  {
    SeenBounds(events, acts);
    if acts != [] {
      var front, a := acts[..|acts| - 1], acts[|acts| - 1];
      PlayColumns(events, n, front);
      if a.Upserted? {
        UpsertColumns(events, n, Seen(front), Play(events, front), a.i);
      } else {
        assert Seen(acts) == Seen(front);
      }
    }
  }

  /** What one cook's events are like: at most `n` of them are steps, only steps
      fail, and the run finishes or times out but not both. */
  ghost predicate CookLike(events: seq<JobEvent>, n: nat) {
    && OneTotal(events, n)
    && |StepsIn(events, Below(|events|))| <= n
    && (forall i :: 0 <= i < |events| && events[i].stepFailed ==> events[i].step)
    && (forall i, j :: 0 <= i < |events| && 0 <= j < |events| ==> !(events[i].finished && events[j].timedOut))
  }

  /** With more events seen the status only moves on, and a terminal one stays. */
  lemma MoreEventsMoveOn(events: seq<JobEvent>, n: nat, u: set<nat>, r: Row, v: set<nat>, q: Row)
    requires CookLike(events, n) && u <= v && forall i :: i in v ==> i < |events|
    requires Columns(events, n, u, r) && Columns(events, n, v, q)
    ensures StatusExpr(r).Rank() <= StatusExpr(q).Rank()
    ensures StatusExpr(r).Terminal() ==> StatusExpr(q) == StatusExpr(r)
    ensures StatusExpr(r).Terminal() && !SawTimeout(events, u) ==>
              forall i :: 0 <= i < |events| && events[i].step ==> i in u
    ensures StatusExpr(r).Terminal() ==> (StatusExpr(r).Failed? <==> SawTimeout(events, u) || SawFailure(events, u))
  {
    var all := StepsIn(events, Below(|events|));
    var inU, inV := StepsIn(events, u), StepsIn(events, v);
    SubsetSize(inU, inV);
    SubsetSize(inV, all);
    if !r.timedOut && StatusExpr(r).Terminal() {
      assert inU == inV == all;
      forall i | 0 <= i < |events| && events[i].step ensures i in u && i in v {
        assert i in all;
      }
    }
  }

  ghost function Stored(events: seq<JobEvent>, acts: seq<Action>): IndexStatus {
    match Play(events, acts)
    case None => Pending
    case Some(r) => r.status
  }

  /** The stored status is the one some earlier set of events called for. */
  ghost predicate Backed(events: seq<JobEvent>, n: nat, acts: seq<Action>, u: set<nat>, r: Row) {
    && u <= Seen(acts)
    && (forall i :: i in u ==> i < |events|)
    && Columns(events, n, u, r)
    && Stored(events, acts) == StatusExpr(r)
  }

  lemma RefreshStores(events: seq<JobEvent>, acts: seq<Action>)
    requires acts != [] && acts[|acts| - 1].Refreshed? && Play(events, acts[..|acts| - 1]).Some?
    ensures Play(events, acts).Some? && Stored(events, acts) == StatusExpr(Play(events, acts).value)
  {
  }

  lemma RefreshBacks(events: seq<JobEvent>, n: nat, acts: seq<Action>)
    requires OneTotal(events, n) && Interleaving(events, acts)
    requires acts != [] && acts[|acts| - 1].Refreshed?
    ensures Play(events, acts).Some? && Backed(events, n, acts, Seen(acts), Play(events, acts).value)
  {
    PlayColumns(events, n, acts);
    PlayColumns(events, n, acts[..|acts| - 1]);
    RefreshStores(events, acts);
  }

  lemma {:induction false} StoredBacked(events: seq<JobEvent>, n: nat, acts: seq<Action>)
    returns (u: set<nat>, r: Row)
    requires OneTotal(events, n) && Interleaving(events, acts)
    ensures Backed(events, n, acts, u, r)
  {
    if acts == [] {
      u, r := {}, Row(Pending, None, 0, false, false, false, false);
      assert StepsIn(events, u) == {};
    } else if acts[|acts| - 1].Upserted? {
      u, r := StoredBacked(events, n, acts[..|acts| - 1]);
    } else {
      RefreshBacks(events, n, acts);
      u, r := Seen(acts), Play(events, acts).value;
    }
  }

  lemma BackedMovesOn(events: seq<JobEvent>, n: nat, a: seq<Action>, u: set<nat>, r: Row, b: seq<Action>, v: set<nat>, q: Row)
    requires CookLike(events, n) && u <= v
    requires Backed(events, n, a, u, r) && Backed(events, n, b, v, q)
    ensures Stored(events, a).Rank() <= Stored(events, b).Rank()
    ensures Stored(events, a).Terminal() ==> Stored(events, b) == Stored(events, a)
    ensures Stored(events, a).Terminal() && !SawTimeout(events, u) ==>
              forall i :: 0 <= i < |events| && events[i].step ==> i in u
    ensures Stored(events, a).Terminal() ==>
              (Stored(events, a).Failed? <==> SawTimeout(events, u) || SawFailure(events, u))
  {
    MoreEventsMoveOn(events, n, u, r, v, q);
  }

  lemma StepMovesOn(events: seq<JobEvent>, n: nat, acts: seq<Action>)
    requires CookLike(events, n) && Interleaving(events, acts) && acts != []
    ensures Stored(events, acts[..|acts| - 1]).Rank() <= Stored(events, acts).Rank()
    ensures Stored(events, acts[..|acts| - 1]).Terminal() ==>
              Stored(events, acts) == Stored(events, acts[..|acts| - 1])
  {
    var front := acts[..|acts| - 1];
    if acts[|acts| - 1].Refreshed? {
      var u, r := StoredBacked(events, n, front);
      RefreshBacks(events, n, acts);
      BackedMovesOn(events, n, front, u, r, acts, Seen(acts), Play(events, acts).value);
    }
  }

  /** No early verdict: a terminal status is stored only once the timeout, or
      every step's event, has been applied; it is `succeeded` only if none of
      those failed, and `failed` only if the run timed out or one of them did. */
  lemma NoEarlyVerdict(events: seq<JobEvent>, n: nat, acts: seq<Action>)
    requires CookLike(events, n) && Interleaving(events, acts)
    ensures Stored(events, acts).Terminal() ==>
              || SawTimeout(events, Seen(acts))
              || forall i :: 0 <= i < |events| && events[i].step ==> i in Seen(acts)
    ensures Stored(events, acts).Succeeded? ==>
              forall i :: 0 <= i < |events| ==> !events[i].stepFailed
    ensures Stored(events, acts).Failed? ==> SawTimeout(events, Seen(acts)) || SawFailure(events, Seen(acts))
  {
    var u, r := StoredBacked(events, n, acts);
    BackedMovesOn(events, n, acts, u, r, acts, u, r);
  }

  /** No retracted verdict: along any interleaving of a cook's events the stored
      status only moves pending, running, terminal, and a terminal one stays. */
  lemma {:induction false} NoRetractedVerdict(events: seq<JobEvent>, n: nat, acts: seq<Action>, j: nat)
    requires CookLike(events, n) && Interleaving(events, acts) && j <= |acts|
    ensures Stored(events, acts[..j]).Rank() <= Stored(events, acts).Rank()
    ensures Stored(events, acts[..j]).Terminal() ==> Stored(events, acts) == Stored(events, acts[..j])
    decreases |acts|
  {
    if j < |acts| {
      var front := acts[..|acts| - 1];
      assert front[..j] == acts[..j];
      NoRetractedVerdict(events, n, front, j);
      StepMovesOn(events, n, acts);
    } else {
      assert acts[..j] == acts;
    }
  }

  /** A complete interleaving ends in a refresh that sees every event. */
  lemma LastIsRefresh(events: seq<JobEvent>, acts: seq<Action>)
    requires Complete(events, acts) && events != []
    ensures acts != [] && acts[|acts| - 1].Refreshed? && Seen(acts) == Below(|events|)
  {
    assert 0 in Current(acts);
    SeenBounds(events, acts);
    SeenBounds(events, acts[..|acts| - 1]);
  }

  /** Once every event is upserted and refreshed, in whatever order, the stored
      status is the one all the events call for. */
  lemma CompletePlayIsCurrent(events: seq<JobEvent>, n: nat, acts: seq<Action>)
    requires OneTotal(events, n) && Complete(events, acts) && events != []
    ensures Play(events, acts).Some?
    ensures Columns(events, n, Below(|events|), Play(events, acts).value)
    ensures Play(events, acts).value.status == StatusExpr(Play(events, acts).value)
  {
    LastIsRefresh(events, acts);
    RefreshBacks(events, n, acts);
  }
}
