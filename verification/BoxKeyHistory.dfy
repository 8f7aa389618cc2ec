/**
 What the history of enrolments and rotations says about a sprout's box keys: which
 are in use, whether that is one, and when the grace of each former key ends.
 */
module BoxKeyHistory {
  import opened Options
  import opened BoxKeys

  // ----- The keys in use, read off the history -----

  /** The keys in use after the first `j` operations. */
  ghost function ActiveAt(ops: seq<Op>, j: nat): set<PubKey>
    requires j <= |ops|
  {
    BookAfter(ops[..j]).active
  }

  /** Operation `i` is a rotation to a key not then in use. */
  ghost predicate TakesOver(ops: seq<Op>, i: nat) {
    i < |ops| && ops[i].Rotate? && ops[i].decodes && ops[i].pub !in ActiveAt(ops, i)
  }

  /** Operation `j` is the last rotation to a key not then in use, or an enrolment since. */
  ghost predicate InForce(ops: seq<Op>, j: nat) {
    && j < |ops| && (TakesOver(ops, j) || (ops[j].Enroll? && ops[j].decodes))
    && forall i :: j < i < |ops| ==> !TakesOver(ops, i)
  }

  lemma AtFrontOne(ops: seq<Op>, j: nat)
    requires j < |ops|
    ensures ActiveAt(ops, j) == ActiveAt(ops[..|ops| - 1], j)
    ensures j < |ops| - 1 ==> TakesOver(ops, j) == TakesOver(ops[..|ops| - 1], j)
  {
    assert ops[..|ops| - 1][..j] == ops[..j];
  }

  /** An operation stays in force until the next rotation to a key not in use. */
  lemma InForceFront(ops: seq<Op>, j: nat)
    requires ops != [] && j < |ops| - 1
    ensures InForce(ops, j) <==> InForce(ops[..|ops| - 1], j) && !TakesOver(ops, |ops| - 1)
  {
    var front := ops[..|ops| - 1];
    AtFrontOne(ops, j);
    forall i | j < i < |front| ensures TakesOver(ops, i) == TakesOver(front, i) {
      AtFrontOne(ops, i);
    }
    if InForce(ops, j) {
      assert !TakesOver(ops, |ops| - 1);
    }
  }

  ghost predicate InForceFor(ops: seq<Op>, j: nat, k: PubKey) {
    InForce(ops, j) && ops[j].pub == k
  }

  /** The keys in use are the ones the operations in force name. */
  lemma {:induction false} InForceAreActive(ops: seq<Op>, k: PubKey)
    ensures k in BookAfter(ops).active <==> exists j: nat :: InForceFor(ops, j, k)
    decreases |ops|
  {
    if ops != [] {
      var n, front := |ops| - 1, ops[..|ops| - 1];
      InForceAreActive(front, k);
      assert ops[..n] == front;
      if k in BookAfter(ops).active {
        if TakesOver(ops, n) || (ops[n].Enroll? && ops[n].decodes && ops[n].pub == k) {
          assert InForceFor(ops, n, k);
        } else {
          var j: nat :| InForceFor(front, j, k);
          InForceFront(ops, j);
          assert InForceFor(ops, j, k);
        }
      }
      if j: nat :| InForceFor(ops, j, k) {
        if j < n {
          InForceFront(ops, j);
          assert InForceFor(front, j, k);
        }
      }
    }
  }

  /** Something is in force, and all that is names one key: every enrolment since
      the last rotation to a key not then in use names the key then in use. */
  ghost predicate OneKeyInForce(ops: seq<Op>) {
    && (exists j: nat :: InForce(ops, j))
    && forall i: nat, j: nat :: InForce(ops, i) && InForce(ops, j) ==> ops[i].pub == ops[j].pub
  }

  ghost predicate Only(b: Book, a: PubKey) {
    b.active == {a}
  }

  ghost predicate OneInUse(b: Book) {
    exists a :: Only(b, a)
  }

  lemma HoldsActiveIs(rows: Rows, b: Book, now: int, a: PubKey)
    requires Holds(rows, b, now)
    ensures ActiveIs(rows, a) <==> Only(b, a)
  {
    forall k ensures k in rows && rows[k].state.Active? <==> k in b.active {
      assert RowHolds(rows, b, now, k);
    }
    if ActiveIs(rows, a) {
      assert b.active == {a};
    }
  }

  lemma HoldsOneActive(rows: Rows, b: Book, now: int)
    requires Holds(rows, b, now)
    ensures OneActive(rows) <==> OneInUse(b)
  {
    forall a ensures ActiveIs(rows, a) <==> Only(b, a) {
      HoldsActiveIs(rows, b, now, a);
    }
  }

  lemma OneActiveInBook(ops: seq<Op>)
    ensures OneInUse(BookAfter(ops)) <==> OneKeyInForce(ops)
  {
    var b := BookAfter(ops);
    forall k ensures k in b.active <==> exists j: nat :: InForceFor(ops, j, k) {
      InForceAreActive(ops, k);
    }
    if OneKeyInForce(ops) {
      var j: nat :| InForce(ops, j);
      assert InForceFor(ops, j, ops[j].pub);
      assert Only(b, ops[j].pub);
    }
    if OneInUse(b) {
      var a :| Only(b, a);
      forall i: nat | InForce(ops, i) ensures ops[i].pub == a {
        assert InForceFor(ops, i, ops[i].pub);
        assert ops[i].pub in b.active;
      }
      assert a in b.active;
    }
  }

  /** In every run, exactly one row is active iff every enrolment since the last
      rotation to a key not then in use names the key then in use. */
  lemma OneActiveExactly(ops: seq<Op>)
    requires Proper(ops)
    ensures OneActive(TableAfter(ops)) <==> OneKeyInForce(ops)
  {
    var now := if ops == [] then 0 else ops[|ops| - 1].now;
    RunHolds(ops, now);
    HoldsOneActive(TableAfter(ops), BookAfter(ops), now);
    OneActiveInBook(ops);
  }

  /** What may be asked before the call: enrolling leaves one active row iff no other
      key is active, and rotating does unless the key is one of several active ones. */
  lemma OneActiveAfter(rows: Rows, pub: PubKey, graceUntil: int)
    ensures OneActive(Enrolled(rows, pub)) <==> forall k :: k in rows && rows[k].state.Active? ==> k == pub
    ensures OneActive(Rotated(rows, pub, graceUntil)) <==>
            (pub in rows && rows[pub].state.Active? ==> OneActive(rows))
  {
    var e := Enrolled(rows, pub);
    assert e[pub].state.Active?;
    if OneActive(e) {
      assert ActiveIs(e, pub);
      assert forall k :: k in rows && k != pub ==> k in e && e[k] == rows[k];
    }
    if forall k :: k in rows && rows[k].state.Active? ==> k == pub {
      assert ActiveIs(e, pub);
    }
    if !(pub in rows && rows[pub].state.Active?) {
      assert ActiveIs(Rotated(rows, pub, graceUntil), pub);
    }
  }

  /** Whether a read of these rows has only one thing to say. */
  ghost predicate Determined(rows: Rows, now: int) {
    forall x, y :: Answers(rows, now, x) && Answers(rows, now, y) ==> x == y
  }

  lemma NoTwoToName(rows: Rows, now: int, k: PubKey, l: PubKey)
    requires Determined(rows, now)
    requires k in rows && rows[k].state.Active? && l in rows && rows[l].state.Active?
    ensures k == l
  {
    var x, y := Keys(k, InGrace(rows, now)), Keys(l, InGrace(rows, now));
    assert Answers(rows, now, x);
    assert Answers(rows, now, y);
    assert x.active == y.active;
  }

  /** What a read answers is determined iff no two rows are active. */
  lemma AnswerIsDetermined(rows: Rows, now: int)
    ensures Determined(rows, now) <==> Answers(rows, now, NoActiveKey) || OneActive(rows)
  {
    if Determined(rows, now) && !Answers(rows, now, NoActiveKey) {
      var k :| k in rows && rows[k].state.Active?;
      forall l | l in rows && rows[l].state.Active? ensures l == k {
        NoTwoToName(rows, now, k, l);
      }
      assert ActiveIs(rows, k);
    }
  }

  /** Enrolled under one key and then under another, a sprout has two active rows:
      no key is the active one, and a read names either and leaves out the other. */
  lemma SecondEnrolmentLeavesTwo(a: PubKey, b: PubKey, t: int, u: int, now: int)
    requires a != b
    ensures var rows := TableAfter([Enroll(a, true, t), Enroll(b, true, u)]);
      && rows == map[a := Row(Active, None), b := Row(Active, None)]
      && !OneActive(rows)
      && Answers(rows, now, Keys(a, {})) && Answers(rows, now, Keys(b, {}))
  {
    var one, two := [Enroll(a, true, t)], [Enroll(a, true, t), Enroll(b, true, u)];
    assert two[..1] == one && one[..0] == [];
    var rows := TableAfter(two);
    assert TableAfter(one) == map[a := Row(Active, None)];
    assert rows == map[a := Row(Active, None), b := Row(Active, None)];
    assert rows[a].state.Active? && rows[b].state.Active?;
    assert InGrace(rows, now) == {};
  }

  /** The key last submitted, by enrolment or rotation, is in use. */
  lemma {:induction false} LastSubmittedIsActive(ops: seq<Op>, i: nat)
    requires i < |ops| && Submits(ops[i]) && forall j :: i < j < |ops| ==> !Submits(ops[j])
    ensures ops[i].pub in BookAfter(ops).active
    decreases |ops|
  {
    if i < |ops| - 1 {
      assert !Submits(ops[|ops| - 1]);
      LastSubmittedIsActive(ops[..|ops| - 1], i);
    }
  }

  // ----- Deadlines, read off the history -----

  /** Operation `i` took `k` out of use, and no later one put it back. */
  ghost predicate LastReplaced(ops: seq<Op>, k: PubKey, i: nat) {
    && TakesOver(ops, i)
    && k in ActiveAt(ops, i)
    && forall j :: i < j <= |ops| ==> k !in ActiveAt(ops, j)
  }

  ghost predicate NeverUsed(ops: seq<Op>, k: PubKey) {
    forall j :: 0 <= j <= |ops| ==> k !in ActiveAt(ops, j)
  }

  lemma AfterOneMore(front: seq<Op>, op: Op, j: nat)
    requires j <= |front|
    ensures ActiveAt(front + [op], j) == ActiveAt(front, j)
    ensures j < |front| ==> TakesOver(front + [op], j) == TakesOver(front, j)
  {
    assert (front + [op])[..j] == front[..j];
  }

  lemma StillReplaced(front: seq<Op>, op: Op, k: PubKey, i: nat)
    requires LastReplaced(front, k, i) && k !in BookStep(BookAfter(front), op).active
    ensures LastReplaced(front + [op], k, i)
  {
    AfterOneMore(front, op, i);
    forall j | i < j <= |front| + 1 ensures k !in ActiveAt(front + [op], j) {
      StillAbsent(front, op, k, j);
    }
  }

  lemma StillUnused(front: seq<Op>, op: Op, k: PubKey)
    requires NeverUsed(front, k) && k !in BookStep(BookAfter(front), op).active
    ensures NeverUsed(front + [op], k)
  {
    forall j | 0 <= j <= |front| + 1 ensures k !in ActiveAt(front + [op], j) {
      StillAbsent(front, op, k, j);
    }
  }

  lemma StillAbsent(front: seq<Op>, op: Op, k: PubKey, j: nat)
    requires j <= |front| + 1 && (j <= |front| ==> k !in ActiveAt(front, j)) && k !in BookStep(BookAfter(front), op).active
    ensures k !in ActiveAt(front + [op], j)
  {
    var ops := front + [op];
    if j <= |front| {
      AfterOneMore(front, op, j);
    } else {
      assert ops[..j] == ops && ops[..|ops| - 1] == front;
    }
  }

  /** A former key's deadline dates from the last rotation away from it, and the
      keys without one are those in use and those never used. */
  lemma {:induction false} DeadlineIsLatest(ops: seq<Op>, k: PubKey) returns (i: nat)
    ensures k in BookAfter(ops).deadline ==>
              && LastReplaced(ops, k, i)
              && BookAfter(ops).deadline[k] == ops[i].now + ops[i].graceDuration
    ensures k !in BookAfter(ops).deadline ==> k in BookAfter(ops).active || NeverUsed(ops, k)
    decreases |ops|
  {
    if ops == [] {
      i := 0;
      assert ops[..0] == ops;
    } else {
      var n, front, op := |ops| - 1, ops[..|ops| - 1], ops[|ops| - 1];
      i := DeadlineIsLatest(front, k);
      assert ops == front + [op];
      var before, after := BookAfter(front), BookAfter(ops);
      if k in after.deadline {
        ActiveHaveNoDeadline(ops);
        if k in before.active {
          i := n;
          Replaces(front, op, k);
        } else {
          StillReplaced(front, op, k, i);
        }
      } else if k !in after.active {
        StillUnused(front, op, k);
      }
    }
  }

  /** A key that goes from use to a deadline is replaced by that operation. */
  lemma Replaces(front: seq<Op>, op: Op, k: PubKey)
    requires k in BookAfter(front).active && k !in BookStep(BookAfter(front), op).active
    ensures LastReplaced(front + [op], k, |front|)
  {
    var ops := front + [op];
    assert ops[..|front|] == front && ops[..|ops|] == ops;
  }
}
