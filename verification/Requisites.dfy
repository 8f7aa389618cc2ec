/**
 The requisite language: when a step may run, must fail, or has to wait, given
 what is known of the steps it names.
 */
module Requisites {
  import opened Recipe

  type Entries = map<StepID, Entry>

  datatype Verdict = Run | Wait | Unmeetable

  /** A step that is not in the completion map reads as not started. */
  function Lookup(m: Entries, id: StepID): Entry {
    if id in m then m[id] else Entry(NotStarted, false)
  }

  predicate IsAny(c: Condition) {
    c.RequireAny? || c.OnFailAny? || c.OnChangesAny?
  }

  /** The step ended the way the condition asks for. */
  predicate Satisfies(c: Condition, e: Entry) {
    match c
    case Require | RequireAny => e.status.Completed?
    case OnFail | OnFailAny => e.status.Failed?
    case OnChanges | OnChangesAny => e.Settled() && e.changed
    case Unrecognised(_) => false
  }

  /** The step ended, and not the way the condition asks for. */
  predicate Violates(c: Condition, e: Entry) {
    e.Settled() && !Satisfies(c, e)
  }

  ghost predicate Met(r: Requisite, m: Entries) {
    if r.condition.Unrecognised? then false
    else if IsAny(r.condition) then
      exists id :: id in r.stepIDs && Satisfies(r.condition, Lookup(m, id))
    else
      forall id :: id in r.stepIDs ==> Satisfies(r.condition, Lookup(m, id))
  }

  ghost predicate Broken(r: Requisite, m: Entries) {
    if r.condition.Unrecognised? then true
    else if IsAny(r.condition) then
      forall id :: id in r.stepIDs ==> Violates(r.condition, Lookup(m, id))
    else
      exists id :: id in r.stepIDs && Violates(r.condition, Lookup(m, id))
  }

  /** One broken requisite fails the step; all must be met for it to run. */
  ghost function VerdictOn(step: Step, m: Entries): (v: Verdict) {
    if exists r :: r in step.requisites && Broken(r, m) then Unmeetable
    else if forall r :: r in step.requisites ==> Met(r, m) then Run
    else Wait
  }

  ghost predicate Needs(step: Step, id: StepID) {
    exists r :: r in step.requisites && id in r.stepIDs
  }

  lemma NeedsIsAllIDs(step: Step, id: StepID)
    ensures Needs(step, id) <==> id in AllIDs(step.requisites)
  {
    AllIDsMembers(step.requisites, id);
  }

  /** Every settled entry of `m` is still there in `n`, for the steps `step` needs. */
  ghost predicate Keeps(step: Step, m: Entries, n: Entries) {
    forall id :: Needs(step, id) && Lookup(m, id).Settled() ==> Lookup(n, id) == Lookup(m, id)
  }

  lemma MetOrBrokenStable(step: Step, r: Requisite, m: Entries, n: Entries)
    requires r in step.requisites && Keeps(step, m, n)
    ensures Met(r, m) ==> Met(r, n)
    ensures Broken(r, m) ==> Broken(r, n)
    ensures !(Met(r, m) && Broken(r, m))
  {
    assert forall id :: id in r.stepIDs ==> Needs(step, id);
  }

  /** Once a step is told to run or to fail, no later news changes that. */
  lemma VerdictStable(step: Step, m: Entries, n: Entries)
    requires Keeps(step, m, n) && VerdictOn(step, m) != Wait
    ensures VerdictOn(step, n) == VerdictOn(step, m)
  {
    forall r | r in step.requisites
      ensures Met(r, m) ==> Met(r, n) && !Broken(r, n)
      ensures Broken(r, m) ==> Broken(r, n)
    {
      MetOrBrokenStable(step, r, m, n);
      MetOrBrokenStable(step, r, n, n);
    }
  }

  /** When a step runs, in statuses.  Each requisite asks: for `require`, that all it
      names completed; for `onfail`, that all failed; for `onchanges`, that all ended
      with changes; for the `_any` forms, that one did. */
  lemma RunsExactlyWhen(step: Step, m: Entries)
    ensures VerdictOn(step, m) == Run <==>
            forall r :: r in step.requisites ==>
              match r.condition
              case Require => forall id :: id in r.stepIDs ==> id in m && m[id].status == Completed
              case OnFail => forall id :: id in r.stepIDs ==> id in m && m[id].status == Failed
              case OnChanges => forall id :: id in r.stepIDs ==> id in m && m[id].status in {Completed, Failed} && m[id].changed
              case RequireAny => exists id :: id in r.stepIDs && id in m && m[id].status == Completed
              case OnFailAny => exists id :: id in r.stepIDs && id in m && m[id].status == Failed
              case OnChangesAny => exists id :: id in r.stepIDs && id in m && m[id].status in {Completed, Failed} && m[id].changed
              case Unrecognised(_) => false
  {
    forall r | r in step.requisites ensures !(Met(r, m) && Broken(r, m)) {
      MetOrBrokenStable(step, r, m, m);
    }
  }

  /** When it is failed: some requisite can no longer be met.  For `require`, one it
      names failed; for `onfail`, one completed; for `onchanges`, one ended without
      changes; for the `_any` forms, all did; and for an unknown condition, always. */
  lemma FailsExactlyWhen(step: Step, m: Entries)
    ensures VerdictOn(step, m) == Unmeetable <==>
            exists r :: r in step.requisites &&
              match r.condition
              case Require => exists id :: id in r.stepIDs && id in m && m[id].status == Failed
              case OnFail => exists id :: id in r.stepIDs && id in m && m[id].status == Completed
              case OnChanges => exists id :: id in r.stepIDs && id in m && m[id].status in {Completed, Failed} && !m[id].changed
              case RequireAny => forall id :: id in r.stepIDs ==> id in m && m[id].status == Failed
              case OnFailAny => forall id :: id in r.stepIDs ==> id in m && m[id].status == Completed
              case OnChangesAny => forall id :: id in r.stepIDs ==> id in m && m[id].status in {Completed, Failed} && !m[id].changed
              case Unrecognised(_) => true
  {
  }

  /** The verdict reads nothing but the entries of the steps named. */
  lemma VerdictLocal(step: Step, m: Entries, n: Entries)
    requires forall id :: Needs(step, id) ==> Lookup(m, id) == Lookup(n, id)
    ensures VerdictOn(step, m) == VerdictOn(step, n)
  {
    if VerdictOn(step, m) != Wait {
      VerdictStable(step, m, n);
    } else if VerdictOn(step, n) != Wait {
      VerdictStable(step, n, m);
    }
  }

  /** A requisite that is neither met nor broken names an unsettled step. */
  lemma UndecidedNamesUnsettled(r: Requisite, m: Entries) returns (id: StepID)
    requires !Met(r, m) && !Broken(r, m)
    ensures id in r.stepIDs && !Lookup(m, id).Settled()
  {
    if IsAny(r.condition) {
      id :| id in r.stepIDs && !Violates(r.condition, Lookup(m, id));
    } else {
      id :| id in r.stepIDs && !Satisfies(r.condition, Lookup(m, id));
    }
  }

  /** The decision procedure, flag by flag. */
  method RequisitesAreMet(step: Step, completionMap: Entries) returns (v: Verdict)
    ensures v == VerdictOn(step, completionMap)
  {
    if |step.requisites| == 0 {
      return Run;
    }
    var unmet := false;
    for i := 0 to |step.requisites|
      invariant forall k :: 0 <= k < i ==> !Broken(step.requisites[k], completionMap)
      invariant unmet <==> exists k :: 0 <= k < i && !Met(step.requisites[k], completionMap)
    {
      var reqSet := step.requisites[i];
      var failed, waiting;
      match reqSet.condition {
        case OnChanges | OnFail | Require =>
          failed, waiting := CheckEvery(reqSet, completionMap);
        case OnChangesAny | OnFailAny | RequireAny =>
          failed, waiting := CheckAny(reqSet, completionMap);
        case Unrecognised(_) =>
          assert reqSet in step.requisites && Broken(reqSet, completionMap);
          return Unmeetable;
      }
      if failed {
        return Unmeetable;
      }
      if waiting {
        unmet := true;
      }
    }
    v := if unmet then Wait else Run;
  }

  /** The loops of the `require`, `onfail` and `onchanges` branches. */
  method CheckEvery(reqSet: Requisite, completionMap: Entries) returns (failed: bool, unmet: bool)
    requires !IsAny(reqSet.condition) && !reqSet.condition.Unrecognised?
    ensures failed <==> Broken(reqSet, completionMap)
    ensures !failed ==> (unmet <==> !Met(reqSet, completionMap))
  {
    unmet := false;
    for i := 0 to |reqSet.stepIDs|
      invariant forall k :: 0 <= k < i ==> !Violates(reqSet.condition, Lookup(completionMap, reqSet.stepIDs[k]))
      invariant unmet <==> exists k :: 0 <= k < i && !Satisfies(reqSet.condition, Lookup(completionMap, reqSet.stepIDs[k]))
    {
      var reqStatus := Lookup(completionMap, reqSet.stepIDs[i]);
      match reqSet.condition {
        case OnChanges =>
          if reqStatus.status.Completed? || reqStatus.status.Failed? {
            if !reqStatus.changed {
              return true, unmet;
            }
          } else {
            unmet := true;
          }
        case OnFail =>
          if reqStatus.status.Completed? {
            return true, unmet;
          } else if !reqStatus.status.Failed? {
            unmet := true;
          }
        case Require =>
          if reqStatus.status.Failed? {
            return true, unmet;
          } else if !reqStatus.status.Completed? {
            unmet := true;
          }
      }
    }
    failed := false;
  }

  /** The loops of the `_any` branches. */
  method CheckAny(reqSet: Requisite, completionMap: Entries) returns (failed: bool, unmet: bool)
    requires IsAny(reqSet.condition)
    ensures failed <==> Broken(reqSet, completionMap)
    ensures unmet <==> !Met(reqSet, completionMap)
  {
    var met, pendingRemaining := false, false;
    for i := 0 to |reqSet.stepIDs|
      invariant met <==> exists k :: 0 <= k < i && Satisfies(reqSet.condition, Lookup(completionMap, reqSet.stepIDs[k]))
      invariant pendingRemaining <==> exists k :: 0 <= k < i && !Lookup(completionMap, reqSet.stepIDs[k]).Settled()
    {
      var reqStatus := Lookup(completionMap, reqSet.stepIDs[i]);
      match reqSet.condition {
        case OnChangesAny =>
          if reqStatus.status.Completed? || reqStatus.status.Failed? {
            if reqStatus.changed {
              met := true;
            }
          } else {
            pendingRemaining := true;
          }
        case OnFailAny =>
          if reqStatus.status.Failed? {
            met := true;
          } else if !reqStatus.status.Completed? {
            pendingRemaining := true;
          }
        case RequireAny =>
          if reqStatus.status.Completed? {
            met := true;
          } else if !reqStatus.status.Failed? {
            pendingRemaining := true;
          }
      }
    }
    failed := !pendingRemaining && !met;
    unmet := !met;
  }
}
