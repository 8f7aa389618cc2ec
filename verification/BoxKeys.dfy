/**
 A sprout's box public keys: the active ones, and former keys in a grace window
 after each rotation.  Enrolment adds an active key and graces no other, so a
 sprout enrolled again under another key has two.  Expired grace rows are swept
 to revoked on the read path, and a sweep may fail.

 Times are integers.  Whether a submitted key decodes to a public key is an input.
 */
module BoxKeys {
  import opened Options

  type PubKey = string

  datatype KeyState = Active | Grace | Revoked

  /** The rest of a row of `pki_sprout_box_keys`, for one tenant's sprout. */
  datatype Row = Row(state: KeyState, graceUntil: Option<int>)

  type Rows = map<PubKey, Row>

  datatype Answer = Keys(active: PubKey, grace: set<PubKey>) | NoActiveKey

  /** What an enrolment, a rotation or a read did, and when. */
  datatype Op =
    | Enroll(pub: PubKey, decodes: bool, now: int)
    | Rotate(pub: PubKey, decodes: bool, now: int, graceDuration: int)
    | Read(now: int, sweepSucceeds: bool)

  ghost predicate Submits(op: Op) {
    !op.Read? && op.decodes
  }

  // ----- Reference: what the submitted keys alone determine -----

  /** The keys in use and, for each key used before them, when its grace ends. */
  datatype Book = Book(active: set<PubKey>, deadline: map<PubKey, int>)

  /** A key not in use takes over from all that are; one in use changes nothing. */
  function Submit(b: Book, pub: PubKey, at: int, graceDuration: int): Book {
    if pub in b.active then b
    else Book({pub}, (b.deadline + map k | k in b.active :: at + graceDuration) - {pub})
  }

  /** An enrolled key joins those in use. */
  function Enlist(b: Book, pub: PubKey): Book {
    Book(b.active + {pub}, b.deadline - {pub})
  }

  function BookStep(b: Book, op: Op): Book {
    match op
    case Enroll(pub, decodes, _) => if decodes then Enlist(b, pub) else b
    case Rotate(pub, decodes, now, g) => if decodes then Submit(b, pub, now, g) else b
    case Read(_, _) => b
  }

  function BookAfter(ops: seq<Op>): Book {
    if ops == [] then Book({}, map[]) else BookStep(BookAfter(ops[..|ops| - 1]), ops[|ops| - 1])
  }

  /** The former keys a reader at time `now` should still hear of. */
  function Lingering(b: Book, now: int): set<PubKey> {
    set k | k in b.deadline && b.deadline[k] > now
  }

  /** Time never goes back, and an empty string is no key. */
  ghost predicate Proper(ops: seq<Op>) {
    && (forall i, j :: 0 <= i < j < |ops| ==> ops[i].now <= ops[j].now)
    && (forall i :: 0 <= i < |ops| && Submits(ops[i]) ==> ops[i].pub != "")
  }

  // ----- The table -----

  function InGrace(rows: Rows, now: int): set<PubKey> {
    set k | k in rows && rows[k].state.Grace? && rows[k].graceUntil.Some? && rows[k].graceUntil.value > now
  }

  /** The key's row becomes active; the other rows stay as they are. */
  function Enrolled(rows: Rows, pub: PubKey): Rows {
    rows[pub := Row(Active, None)]
  }

  /** All active rows move to grace and the new key becomes active, unless it is so already. */
  function Rotated(rows: Rows, newPub: PubKey, graceUntil: int): Rows {
    if newPub in rows && rows[newPub].state.Active? then rows
    else
      (map k | k in rows :: if rows[k].state.Active? then Row(Grace, Some(graceUntil)) else rows[k])
      [newPub := Row(Active, None)]
  }

  /** Grace rows whose window has closed are revoked. */
  function Swept(rows: Rows, now: int): Rows {
    map k | k in rows ::
      if rows[k].state.Grace? && rows[k].graceUntil.Some? && rows[k].graceUntil.value <= now
      then rows[k].(state := Revoked) else rows[k]
  }

  ghost predicate ActiveIs(rows: Rows, a: PubKey) {
    a in rows && forall k :: k in rows ==> (rows[k].state.Active? <==> k == a)
  }

  /** What a read of these rows may answer: if several rows are active, any one of
      them may come up last. */
  ghost predicate Answers(rows: Rows, now: int, answer: Answer) {
    match answer
    case NoActiveKey => forall k :: k in rows ==> !rows[k].state.Active?
    case Keys(active, grace) => active in rows && rows[active].state.Active? && grace == InGrace(rows, now)
  }

  ghost predicate OneActive(rows: Rows) {
    exists a :: ActiveIs(rows, a)
  }

  class BoxKeyTable {
    var rows: Rows

    constructor ()
      ensures rows == map[]
    {
      rows := map[];
    }

    /** Enrolment asserts the key as active, over whatever row it had. */
    method UpsertSproutBoxKeyActive(pub: PubKey, decodes: bool) returns (ok: bool)
      modifies this
      ensures ok == decodes
      ensures rows == if decodes then Enrolled(old(rows), pub) else old(rows)
    {
      if !decodes {
        return false;
      }
      rows := rows[pub := Row(Active, None)];
      return true;
    }

    method RotateSproutBoxKey(newPub: PubKey, decodes: bool, now: int, graceDuration: int) returns (ok: bool)
      modifies this
      ensures ok == decodes
      ensures rows == if decodes then Rotated(old(rows), newPub, now + graceDuration) else old(rows)
    {
      if !decodes {
        return false;
      }
      var active := set k | k in rows && rows[k].state.Active?;
      if newPub in active {
        return true;
      }
      var graceUntil := now + graceDuration;
      var todo := active;
      while todo != {}
        invariant todo <= active
        invariant rows == map k | k in old(rows) ::
                            if k in active && k !in todo then Row(Grace, Some(graceUntil)) else old(rows)[k]
      {
        var k :| k in todo;
        rows := rows[k := Row(Grace, Some(graceUntil))];
        todo := todo - {k};
      }
      rows := rows[newPub := Row(Active, None)];
      return true;
    }

    /** The sweep may fail; the keys are then read off the rows as they are. */
    method ValidSproutBoxKeys(now: int, sweepSucceeds: bool) returns (answer: Answer)
      requires "" !in rows
      modifies this
      ensures rows == if sweepSucceeds then Swept(old(rows), now) else old(rows)
      ensures Answers(rows, now, answer)
    {
      if sweepSucceeds {
        rows := Swept(rows, now);
      }
      var selected := set k | k in rows && (rows[k].state.Active? || k in InGrace(rows, now));
      var todo := selected;
      var active: PubKey := "";
      var grace: set<PubKey> := {};
      while todo != {}
        invariant todo <= selected
        invariant grace == InGrace(rows, now) - todo
        invariant active != "" ==> active in rows && rows[active].state.Active?
        invariant active == "" ==> forall k :: k in selected && k !in todo ==> !rows[k].state.Active?
      {
        var k :| k in todo;
        todo := todo - {k};
        match rows[k].state {
          case Active => active := k;
          case Grace => grace := grace + {k};
        }
      }
      if active == "" {
        return NoActiveKey;
      }
      return Keys(active, grace);
    }
  }

  // ----- Runs of enrolments, rotations and reads, from an empty table -----

  function TableStep(rows: Rows, op: Op): Rows {
    match op
    case Enroll(pub, decodes, _) => if decodes then Enrolled(rows, pub) else rows
    case Rotate(pub, decodes, now, g) => if decodes then Rotated(rows, pub, now + g) else rows
    case Read(now, sweepSucceeds) => if sweepSucceeds then Swept(rows, now) else rows
  }

  function TableAfter(ops: seq<Op>): Rows {
    if ops == [] then map[] else TableStep(TableAfter(ops[..|ops| - 1]), ops[|ops| - 1])
  }

  /** The row of `k`, if there is one, is what the book says of `k`, except that one
      past its deadline by `now` may have been swept. */
  ghost predicate RowHolds(rows: Rows, b: Book, now: int, k: PubKey) {
    if k in b.active then k !in b.deadline && k in rows && rows[k] == Row(Active, None)
    else if k in b.deadline then
      && k in rows
      && rows[k].graceUntil == Some(b.deadline[k])
      && (rows[k].state.Grace? || (rows[k].state.Revoked? && b.deadline[k] <= now))
    else k !in rows
  }

  /** The table holds the book. */
  ghost predicate Holds(rows: Rows, b: Book, now: int) {
    "" !in rows && forall k :: RowHolds(rows, b, now, k)
  }

  lemma StepRowHolds(rows: Rows, b: Book, t: int, op: Op, k: PubKey)
    requires RowHolds(rows, b, t, k) && t <= op.now
    requires op.Rotate? ==> RowHolds(rows, b, t, op.pub)
    ensures RowHolds(TableStep(rows, op), BookStep(b, op), op.now, k)
  {
  }

  lemma StepHolds(rows: Rows, b: Book, t: int, op: Op)
    requires Holds(rows, b, t) && t <= op.now && (Submits(op) ==> op.pub != "")
    ensures Holds(TableStep(rows, op), BookStep(b, op), op.now)
  {
    forall k ensures RowHolds(TableStep(rows, op), BookStep(b, op), op.now, k) {
      assert RowHolds(rows, b, t, k);
      assert op.Rotate? ==> RowHolds(rows, b, t, op.pub);
      StepRowHolds(rows, b, t, op, k);
    }
  }

  lemma LaterHolds(rows: Rows, b: Book, t: int, u: int)
    requires Holds(rows, b, t) && t <= u
    ensures Holds(rows, b, u)
  {
    forall k ensures RowHolds(rows, b, u, k) {
      assert RowHolds(rows, b, t, k);
    }
  }

  lemma {:induction false} RunHolds(ops: seq<Op>, t: int)
    requires Proper(ops) && forall i :: 0 <= i < |ops| ==> ops[i].now <= t
    ensures Holds(TableAfter(ops), BookAfter(ops), t)
    decreases |ops|
  {
    if ops != [] {
      var front, last := ops[..|ops| - 1], ops[|ops| - 1];
      RunHolds(front, last.now);
      StepHolds(TableAfter(front), BookAfter(front), last.now, last);
      LaterHolds(TableAfter(ops), BookAfter(ops), last.now, t);
    }
  }

  // ----- What a read answers -----

  /** A reader hears of one of the keys in use, if any, and of exactly the former
      keys whose deadline is ahead. */
  ghost predicate BookAnswers(b: Book, now: int, answer: Answer) {
    match answer
    case NoActiveKey => b.active == {}
    case Keys(active, grace) => active in b.active && grace == Lingering(b, now)
  }

  lemma HoldsAnswers(rows: Rows, b: Book, now: int, answer: Answer)
    requires Holds(rows, b, now)
    ensures Answers(rows, now, answer) <==> BookAnswers(b, now, answer)
    ensures b.active !! Lingering(b, now)
  {
    forall k
      ensures k in InGrace(rows, now) <==> k in Lingering(b, now)
      ensures k in rows && rows[k].state.Active? <==> k in b.active
      ensures k !in b.active || k !in Lingering(b, now)
    {
      assert RowHolds(rows, b, now, k);
    }
    assert InGrace(rows, now) == Lingering(b, now);
  }

  /** In every run, whether or not the read's own sweep or any earlier one
      succeeded, the answers a read may give are those the submitted keys call for,
      and of the keys in use all but the one it names are left out altogether. */
  lemma EveryReadIsRight(ops: seq<Op>, now: int, sweepSucceeds: bool, answer: Answer)
    requires Proper(ops + [Read(now, sweepSucceeds)])
    ensures var rows, b := TableAfter(ops + [Read(now, sweepSucceeds)]), BookAfter(ops);
      && "" !in rows
      && (Answers(rows, now, answer) <==> BookAnswers(b, now, answer))
      && (Answers(rows, now, answer) && answer.Keys? ==> b.active !! answer.grace)
  {
    var whole := ops + [Read(now, sweepSucceeds)];
    assert whole[..|whole| - 1] == ops;
    assert BookAfter(whole) == BookAfter(ops);
    assert forall i :: 0 <= i < |ops| ==> whole[i].now <= whole[|ops|].now;
    RunHolds(whole, now);
    HoldsAnswers(TableAfter(whole), BookAfter(ops), now, answer);
  }

  lemma {:induction false} ActiveHaveNoDeadline(ops: seq<Op>)
    ensures BookAfter(ops).active !! BookAfter(ops).deadline.Keys
    decreases |ops|
  {
    if ops != [] {
      ActiveHaveNoDeadline(ops[..|ops| - 1]);
    }
  }

  /** A read whose sweep succeeds leaves every former key revoked if its deadline has
      come, and in grace if it has not. */
  lemma SweepRevokes(ops: seq<Op>, now: int, k: PubKey)
    requires Proper(ops + [Read(now, true)]) && k in BookAfter(ops).deadline
    ensures k in TableAfter(ops + [Read(now, true)])
    ensures TableAfter(ops + [Read(now, true)])[k] ==
            Row(if BookAfter(ops).deadline[k] <= now then Revoked else Grace, Some(BookAfter(ops).deadline[k]))
  {
    var whole := ops + [Read(now, true)];
    assert whole[..|whole| - 1] == ops;
    assert forall i :: 0 <= i < |ops| ==> whole[i] == ops[i] && whole[i].now <= whole[|ops|].now;
    assert Proper(ops);
    RunHolds(ops, now);
    assert RowHolds(TableAfter(ops), BookAfter(ops), now, k);
    RunHolds(whole, now);
    ActiveHaveNoDeadline(ops);
  }
}
