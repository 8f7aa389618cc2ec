/**
 Cohorts: named groups of sprouts, given by a list, by a property rule, or as a
 boolean combination of other cohorts.  A static validator and an evaluator walk
 the same definitions independently.
 */
module Cohorts {
  import opened Options
  import opened Graphs
  import opened Strings

  type SproutID = string

  datatype CohortType = Static | Dynamic | Compound | UnknownType(text: string)

  datatype Operator = And | Or | Except | UnknownOperator(text: string)

  datatype DynamicMatch = DynamicMatch(propName: string, propValue: string)

  datatype CompoundExpr = CompoundExpr(operator: Operator, operands: seq<string>)

  datatype Cohort = Cohort(name: string, ty: CohortType, members: seq<SproutID>,
                           rule: Option<DynamicMatch>, compound: Option<CompoundExpr>)

  type Registry = map<string, Cohort>

  datatype CohortError = NotFound | CircularReference | MaxDepthExceeded

  datatype Result<T> = Ok(value: T) | Err(error: CohortError)

  const MAX_NESTING_DEPTH: nat := 16

  /** What registration accepts.  Nothing is asked of a static cohort but its name. */
  predicate Validate(c: Cohort) {
    && c.name != ""
    && match c.ty
       case Static => true
       case Dynamic => c.rule.Some? && c.rule.value.propName != ""
       case Compound => c.compound.Some? && !c.compound.value.operator.UnknownOperator? && |c.compound.value.operands| >= 2
       case UnknownType(_) => false
  }

  /** Which definitions are accepted, by type. */
  lemma Accepted(name: string, members: seq<SproutID>, rule: Option<DynamicMatch>, compound: Option<CompoundExpr>)
    ensures Validate(Cohort(name, Static, members, rule, compound)) <==> name != ""
    ensures Validate(Cohort(name, Dynamic, members, rule, compound)) <==>
            name != "" && exists p, v :: p != "" && rule == Some(DynamicMatch(p, v))
    ensures Validate(Cohort(name, Compound, members, rule, compound)) <==>
            name != "" && exists op, ops :: op in {And, Or, Except} && |ops| > 1 && compound == Some(CompoundExpr(op, ops))
    ensures forall text :: !Validate(Cohort(name, UnknownType(text), members, rule, compound))
  {
    if rule.Some? {
      assert rule == Some(DynamicMatch(rule.value.propName, rule.value.propValue));
    }
    if compound.Some? {
      assert compound == Some(CompoundExpr(compound.value.operator, compound.value.operands));
    }
  }

  /** Every stored definition passed validation under the name it is stored by. */
  ghost predicate Validated(reg: Registry) {
    forall name :: name in reg ==> reg[name].name == name && Validate(reg[name])
  }

  /** The sprouts' properties, as the evaluator may look them up. */
  type Props = (SproutID, string) -> string

  predicate MatchesPropValue(actual: string, expected: string) {
    if expected == "*" then actual != ""
    else if HasPrefix(expected, "*") && HasSuffix(expected, "*") then Contains(actual, expected[1..|expected| - 1])
    else if HasPrefix(expected, "*") then HasSuffix(actual, expected[1..])
    else if HasSuffix(expected, "*") then HasPrefix(actual, expected[..|expected| - 1])
    else actual == expected
  }

  predicate Starred(s: string) {
    HasPrefix(s, "*") || HasSuffix(s, "*")
  }

  /** A star at either end of the expected value stands for any text; one alone,
      for any but the empty. */
  lemma MatchMeaning(actual: string, core: string)
    ensures MatchesPropValue(actual, "*") <==> actual != ""
    ensures MatchesPropValue(actual, "*" + core + "*") <==> exists a, b :: actual == a + core + b
    ensures !Starred(core) && core != "" ==> (MatchesPropValue(actual, "*" + core) <==> exists a :: actual == a + core)
    ensures !Starred(core) && core != "" ==> (MatchesPropValue(actual, core + "*") <==> exists b :: actual == core + b)
    ensures !Starred(core) ==> (MatchesPropValue(actual, core) <==> actual == core)
  {
    MatchBoth(actual, core);
    if !Starred(core) && core != "" {
      MatchOne(actual, core);
    }
  }

  lemma MatchBoth(actual: string, core: string)
    ensures MatchesPropValue(actual, "*" + core + "*") <==> exists a, b :: actual == a + core + b
  {
    var expected := "*" + core + "*";
    assert expected[..1] == "*" && expected[|expected| - 1..] == "*";
    assert expected[1..|expected| - 1] == core;
    if Contains(actual, core) {
      var i :| 0 <= i <= |actual| - |core| && OccursAt(actual, core, i);
      assert actual == actual[..i] + core + actual[i + |core|..];
    }
    if a, b :| actual == a + core + b {
      assert actual[|a|..|a| + |core|] == core;
      assert OccursAt(actual, core, |a|);
    }
  }

  lemma MatchOne(actual: string, core: string)
    requires !Starred(core) && core != ""
    ensures MatchesPropValue(actual, "*" + core) <==> exists a :: actual == a + core
    ensures MatchesPropValue(actual, core + "*") <==> exists b :: actual == core + b
  {
    var left, right := "*" + core, core + "*";
    assert HasPrefix(left, "*") && left[1..] == core;
    assert !HasSuffix(left, "*") by {
      assert left[|left| - 1..] == core[|core| - 1..];
    }
    assert HasSuffix(right, "*") && right[..|right| - 1] == core;
    assert !HasPrefix(right, "*") by {
      assert right[..1] == core[..1];
    }
    SuffixSplits(actual, core);
    PrefixSplits(actual, core);
  }

  lemma SuffixSplits(s: string, p: string)
    ensures HasSuffix(s, p) <==> exists a :: s == a + p
  {
    if HasSuffix(s, p) {
      assert s == s[..|s| - |p|] + p;
    }
  }

  lemma PrefixSplits(s: string, p: string)
    ensures HasPrefix(s, p) <==> exists b :: s == p + b
  {
    if HasPrefix(s, p) {
      assert s == p + s[|p|..];
    }
  }

  /** The reference graph: a compound cohort lists its operands. */
  ghost function References(reg: Registry): (g: Graph)
    requires Validated(reg)
    ensures g.Keys == reg.Keys
  {
    map name | name in reg :: if reg[name].ty.Compound? then reg[name].compound.value.operands else []
  }

  // ----- Meaning -----

  /** `sets` solves the cohort equations: what each cohort it covers stands for,
      member by member, in terms of what the cohorts it refers to stand for. */
  ghost predicate Solves(reg: Registry, props: Props, all: seq<SproutID>, sets: map<string, set<SproutID>>)
    requires Validated(reg)
  {
    forall name {:trigger SolvedAt(reg, props, all, sets, name)} :: name in sets ==> SolvedAt(reg, props, all, sets, name)
  }

  ghost predicate SolvedAt(reg: Registry, props: Props, all: seq<SproutID>, sets: map<string, set<SproutID>>, name: string)
    requires Validated(reg) && name in sets
  {
    && name in reg
    && (forall op :: op in References(reg)[name] ==> op in sets)
    && forall id :: id in sets[name] <==> Belongs(reg[name], props, all, sets, id)
  }

  ghost predicate Belongs(c: Cohort, props: Props, all: seq<SproutID>, sets: map<string, set<SproutID>>, id: SproutID)
    requires Validate(c)
    requires c.ty.Compound? ==> forall op :: op in c.compound.value.operands ==> op in sets
  {
    match c.ty
    case Static => id in c.members
    case Dynamic => id in all && MatchesPropValue(props(id, c.rule.value.propName), c.rule.value.propValue)
    case Compound =>
      var ops := c.compound.value.operands;
      match c.compound.value.operator {
        case And => forall k :: 0 <= k < |ops| ==> id in sets[ops[k]]
        case Or => exists k :: 0 <= k < |ops| && id in sets[ops[k]]
        case Except => id in sets[ops[0]] && forall k :: 1 <= k < |ops| ==> id !in sets[ops[k]]
      }
  }

  // ----- The validator -----

  /** `v` refers, in one step or more, to `name`. */
  ghost predicate RefersTo(g: Graph, v: string, name: string) {
    exists p :: WalkTo(g, v, name, p) && |p| >= 2
  }

  lemma RefersToOperand(g: Graph, v: string, name: string, op: string)
    requires Edge(g, name, op) && (v == name || RefersTo(g, v, name))
    ensures RefersTo(g, v, op)
  {
    if v == name {
      assert WalkTo(g, v, op, [v, op]);
    } else {
      var p :| WalkTo(g, v, name, p) && |p| >= 2;
      WalkSnoc(g, p, op);
      assert WalkTo(g, v, op, p + [op]);
    }
  }

  /** The depth of a cohort is `d`: no reference chain is longer, and one is that long. */
  ghost predicate HasDepth(g: Graph, name: string, d: nat) {
    Tame(g, name, {}, d) && (d > 0 ==> !Tame(g, name, {}, d - 1))
  }

  ghost predicate Unbounded(g: Graph, name: string) {
    forall n: nat :: !Tame(g, name, {}, n)
  }

  // ----- Which error is returned -----

  /** The name, met at nesting level `level`, is in order: its reference chains are
      bounded and stay in the registry, and under a limit, they do not exceed it. */
  ghost predicate Sound(reg: Registry, name: string, level: nat, limit: Option<nat>)
    requires Validated(reg)
  {
    match limit
    case None => !Unbounded(References(reg), name)
    case Some(most) => level <= most && Tame(References(reg), name, {}, most - level)
  }

  /** `b` is the first operand of `a` that is not in order. */
  ghost predicate FirstUnsound(reg: Registry, a: string, b: string, level: nat, limit: Option<nat>)
    requires Validated(reg)
  {
    a in reg && exists k: nat :: UnsoundAt(reg, References(reg)[a], k, level + 1, limit) && References(reg)[a][k] == b
  }

  ghost predicate UnsoundAt(reg: Registry, ops: seq<string>, k: nat, level: nat, limit: Option<nat>)
    requires Validated(reg)
  {
    && k < |ops| && !Sound(reg, ops[k], level, limit)
    && forall j :: 0 <= j < k ==> Sound(reg, ops[j], level, limit)
  }

  ghost predicate TooDeep(level: nat, limit: Option<nat>) {
    limit.Some? && level > limit.value
  }

  /** The chain cannot go on from `name`. */
  ghost predicate Stops(reg: Registry, name: string, on: set<string>, level: nat, limit: Option<nat>) {
    TooDeep(level, limit) || name in on || name !in reg
  }

  function Complaint(name: string, on: set<string>, level: nat, limit: Option<nat>): CohortError {
    if limit.Some? && level > limit.value then MaxDepthExceeded
    else if name in on then CircularReference
    else NotFound
  }

  /** What the chain has met before entry `i`. */
  ghost function Met(path: seq<string>, i: nat, visited: set<string>): set<string>
    requires i <= |path|
  {
    visited + set x | x in path[..i]
  }

  ghost predicate GoesOnAt(reg: Registry, path: seq<string>, i: nat, visited: set<string>, level: nat, limit: Option<nat>)
    requires Validated(reg)
  {
    && i + 1 < |path|
    && !Stops(reg, path[i], Met(path, i, visited), level + i, limit)
    && FirstUnsound(reg, path[i], path[i + 1], level + i, limit)
  }

  ghost predicate GoesOn(reg: Registry, path: seq<string>, visited: set<string>, level: nat, limit: Option<nat>)
    requires Validated(reg)
  {
    forall i :: 0 <= i < |path| - 1 ==> GoesOnAt(reg, path, i, visited, level, limit)
  }

  /** From its first entry, always to the first operand that is not in order, until
      the limit is exceeded, a name comes up again, or one is not registered. */
  ghost predicate FaultChain(reg: Registry, path: seq<string>, visited: set<string>, level: nat, limit: Option<nat>)
    requires Validated(reg)
  {
    && path != [] && GoesOn(reg, path, visited, level, limit)
    && var last := |path| - 1; Stops(reg, path[last], Met(path, last, visited), level + last, limit)
  }

  ghost predicate Blames(reg: Registry, path: seq<string>, name: string, visited: set<string>, level: nat, limit: Option<nat>, e: CohortError)
    requires Validated(reg)
  {
    && FaultChain(reg, path, visited, level, limit) && path[0] == name
    && var last := |path| - 1; e == Complaint(path[last], Met(path, last, visited), level + last, limit)
  }

  /** The error is what that chain ends in. */
  ghost predicate Blamed(reg: Registry, name: string, visited: set<string>, level: nat, limit: Option<nat>, e: CohortError)
    requires Validated(reg)
  {
    exists path :: Blames(reg, path, name, visited, level, limit, e)
  }

  lemma BlamedHere(reg: Registry, name: string, visited: set<string>, level: nat, limit: Option<nat>)
    requires Validated(reg) && Stops(reg, name, visited, level, limit)
    ensures Blamed(reg, name, visited, level, limit, Complaint(name, visited, level, limit))
  {
    assert Met([name], 0, visited) == visited;
    assert Blames(reg, [name], name, visited, level, limit, Complaint(name, visited, level, limit));
  }

  lemma BlamedBelow(reg: Registry, name: string, k: nat, visited: set<string>, level: nat, limit: Option<nat>, e: CohortError)
    requires Validated(reg) && name in reg && !Stops(reg, name, visited, level, limit)
    requires UnsoundAt(reg, References(reg)[name], k, level + 1, limit)
    requires Blamed(reg, References(reg)[name][k], visited + {name}, level + 1, limit, e)
    ensures Blamed(reg, name, visited, level, limit, e)
  {
    var rest :| Blames(reg, rest, References(reg)[name][k], visited + {name}, level + 1, limit, e);
    var path := [name] + rest;
    forall i: nat | i < |rest| ensures Met(path, i + 1, visited) == Met(rest, i, visited + {name}) {
      MetShift(name, rest, i, visited);
    }
    GoesOnFrom(reg, name, rest, k, visited, level, limit);
    assert Blames(reg, path, name, visited, level, limit, e);
  }

  lemma MetShift(name: string, rest: seq<string>, i: nat, visited: set<string>)
    requires i <= |rest|
    ensures Met([name] + rest, i + 1, visited) == Met(rest, i, visited + {name})
  {
    assert ([name] + rest)[..i + 1] == [name] + rest[..i];
  }

  lemma GoesOnFrom(reg: Registry, name: string, rest: seq<string>, k: nat, visited: set<string>, level: nat, limit: Option<nat>)
    requires Validated(reg) && name in reg && !Stops(reg, name, visited, level, limit)
    requires UnsoundAt(reg, References(reg)[name], k, level + 1, limit)
    requires rest != [] && rest[0] == References(reg)[name][k] && GoesOn(reg, rest, visited + {name}, level + 1, limit)
    ensures GoesOn(reg, [name] + rest, visited, level, limit)
  {
    var path := [name] + rest;
    forall i | 0 <= i < |path| - 1 ensures GoesOnAt(reg, path, i, visited, level, limit) {
      if i == 0 {
        assert Met(path, 0, visited) == visited;
        assert path[0 + 1] == References(reg)[name][k];
        assert FirstUnsound(reg, path[0], path[0 + 1], level, limit);
      } else {
        assert GoesOnAt(reg, rest, i - 1, visited + {name}, level + 1, limit);
        GoesOnShift(reg, name, rest, i - 1, visited, level, limit);
      }
    }
  }

  lemma GoesOnShift(reg: Registry, name: string, rest: seq<string>, i: nat, visited: set<string>, level: nat, limit: Option<nat>)
    requires Validated(reg) && GoesOnAt(reg, rest, i, visited + {name}, level + 1, limit)
    ensures GoesOnAt(reg, [name] + rest, i + 1, visited, level, limit)
  {
    var path, at := [name] + rest, level + i + 1;
    MetShift(name, rest, i, visited);
    assert path[i + 1] == rest[i] && path[i + 1 + 1] == rest[i + 1];
    assert FirstUnsound(reg, path[i + 1], path[i + 1 + 1], at, limit);
    assert !Stops(reg, path[i + 1], Met(path, i + 1, visited), at, limit);
  }

  lemma {:induction false} FaultChainsAgree(reg: Registry, p: seq<string>, q: seq<string>, visited: set<string>, level: nat, limit: Option<nat>, i: nat)
    requires Validated(reg) && GoesOn(reg, p, visited, level, limit) && GoesOn(reg, q, visited, level, limit)
    requires i < |p| && i < |q| && p[0] == q[0]
    ensures p[i] == q[i]
  {
    if i > 0 {
      var h := i - 1;
      FaultChainsAgree(reg, p, q, visited, level, limit, h);
      assert GoesOnAt(reg, p, h, visited, level, limit) && GoesOnAt(reg, q, h, visited, level, limit);
      FirstUnsoundUnique(reg, p[h], p[h + 1], q[h + 1], level + h, limit);
    }
  }

  lemma FirstUnsoundUnique(reg: Registry, a: string, b: string, c: string, level: nat, limit: Option<nat>)
    requires Validated(reg) && FirstUnsound(reg, a, b, level, limit) && FirstUnsound(reg, a, c, level, limit)
    ensures b == c
  {
    var ops := References(reg)[a];
    var k: nat :| UnsoundAt(reg, ops, k, level + 1, limit) && ops[k] == b;
    var l: nat :| UnsoundAt(reg, ops, l, level + 1, limit) && ops[l] == c;
  }

  lemma SameMet(reg: Registry, p: seq<string>, q: seq<string>, visited: set<string>, level: nat, limit: Option<nat>, last: nat)
    requires Validated(reg) && GoesOn(reg, p, visited, level, limit) && GoesOn(reg, q, visited, level, limit)
    requires last < |p| && last < |q| && p[0] == q[0]
    ensures p[last] == q[last] && Met(p, last, visited) == Met(q, last, visited)
  {
    forall i: nat | i <= last ensures p[i] == q[i] {
      FaultChainsAgree(reg, p, q, visited, level, limit, i);
    }
    assert p[..last] == q[..last];
  }

  lemma FaultChainsSameLength(reg: Registry, p: seq<string>, q: seq<string>, visited: set<string>, level: nat, limit: Option<nat>)
    requires Validated(reg) && FaultChain(reg, p, visited, level, limit) && FaultChain(reg, q, visited, level, limit)
    requires p[0] == q[0]
    ensures |q| <= |p|
  {
    var last := |p| - 1;
    if last < |q| {
      SameMet(reg, p, q, visited, level, limit, last);
      assert !GoesOnAt(reg, q, last, visited, level, limit);
    }
  }

  /** There is only one error to return. */
  lemma BlameUnique(reg: Registry, name: string, visited: set<string>, level: nat, limit: Option<nat>, e: CohortError, f: CohortError)
    requires Validated(reg) && Blamed(reg, name, visited, level, limit, e) && Blamed(reg, name, visited, level, limit, f)
    ensures e == f
  {
    var p :| Blames(reg, p, name, visited, level, limit, e);
    var q :| Blames(reg, q, name, visited, level, limit, f);
    FaultChainsSameLength(reg, p, q, visited, level, limit);
    FaultChainsSameLength(reg, q, p, visited, level, limit);
    SameMet(reg, p, q, visited, level, limit, |p| - 1);
  }

  class Validator {
    const cohorts: Registry
    var visited: set<string>

    constructor (cohorts: Registry)
      ensures this.cohorts == cohorts && visited == {}
    {
      this.cohorts := cohorts;
      visited := {};
    }

    /** The nesting depth of a cohort, or an error when there is none: a chain
        that closes on itself or leaves the registry. */
    method ComputeDepth(name: string, ghost level: nat) returns (r: Result<nat>)
      requires Validated(cohorts) && visited <= cohorts.Keys
      requires forall v :: v in visited ==> RefersTo(References(cohorts), v, name)
      modifies this
      ensures r.Ok? ==> visited == old(visited) && HasDepth(References(cohorts), name, r.value)
      ensures r.Err? ==> Unbounded(References(cohorts), name) && Blamed(cohorts, name, old(visited), level, None, r.error)
      decreases |cohorts.Keys - visited|, 1
    {
      if name in visited {
        SelfReferenceUnbounded(References(cohorts), name);
        BlamedHere(cohorts, name, visited, level, None);
        return Err(CircularReference);
      }
      if name !in cohorts {
        BlamedHere(cohorts, name, visited, level, None);
        return Err(NotFound);
      }
      if !cohorts[name].ty.Compound? {
        return Ok(0);
      }
      r := CompoundDepth(name, level);
    }

    method CompoundDepth(name: string, ghost level: nat) returns (r: Result<nat>)
      requires Validated(cohorts) && visited <= cohorts.Keys
      requires forall v :: v in visited ==> RefersTo(References(cohorts), v, name)
      requires name in cohorts && name !in visited && cohorts[name].ty.Compound?
      modifies this
      ensures r.Ok? ==> visited == old(visited) && HasDepth(References(cohorts), name, r.value)
      ensures r.Err? ==> Unbounded(References(cohorts), name) && Blamed(cohorts, name, old(visited), level, None, r.error)
      decreases |cohorts.Keys - visited|, 0
    {
      ghost var g := References(cohorts);
      OperandsReferredTo(g, visited, name);
      visited := visited + {name};
      assert cohorts.Keys - visited == (cohorts.Keys - old(visited)) - {name};
      ghost var k;
      r, k := MaxOperandDepth(cohorts[name].compound.value.operands, level + 1);
      if r.Err? {
        assert g[name][k] in g[name];
        UnboundedOperand(g, name);
        BlamedBelow(cohorts, name, k, old(visited), level, None, r.error);
        return;
      }
      visited := visited - {name};
      DepthOfCompound(g, name, r.value);
      r := Ok(1 + r.value);
    }

    /** The loop over a compound cohort's operands. */
    method MaxOperandDepth(ops: seq<string>, ghost level: nat) returns (r: Result<nat>, ghost at: nat)
      requires Validated(cohorts) && visited <= cohorts.Keys
      requires forall v, op :: v in visited && op in ops ==> RefersTo(References(cohorts), v, op)
      modifies this
      ensures r.Ok? ==> visited == old(visited) && DeepestIs(References(cohorts), ops, |ops|, r.value)
      ensures r.Err? ==> UnsoundAt(cohorts, ops, at, level, None) && Unbounded(References(cohorts), ops[at])
      ensures r.Err? ==> Blamed(cohorts, ops[at], old(visited), level, None, r.error)
      decreases |cohorts.Keys - visited|, 2
    {
      ghost var g := References(cohorts);
      var maxChild: nat := 0;
      at := 0;
      for k := 0 to |ops|
        invariant visited == old(visited) && DeepestIs(g, ops, k, maxChild)
      {
        assert ops[k] in ops;
        var d := ComputeDepth(ops[k], level);
        if d.Err? {
          SoundBelow(cohorts, ops, k, maxChild, level);
          return Err(d.error), k;
        }
        DeepestMore(g, ops, k, maxChild, d.value);
        if d.value > maxChild {
          maxChild := d.value;
        }
      }
      r := Ok(maxChild);
    }
  }

  lemma SoundBelow(reg: Registry, ops: seq<string>, k: nat, d: nat, level: nat)
    requires Validated(reg) && k < |ops| && DeepestIs(References(reg), ops, k, d)
    ensures forall j :: 0 <= j < k ==> Sound(reg, ops[j], level, None)
  {
    forall j | 0 <= j < k ensures Sound(reg, ops[j], level, None) {
      assert Tame(References(reg), ops[j], {}, d);
    }
  }

  lemma OperandsReferredTo(g: Graph, visited: set<string>, name: string)
    requires name in g && forall v :: v in visited ==> RefersTo(g, v, name)
    ensures forall v, op :: v in visited + {name} && op in g[name] ==> RefersTo(g, v, op)
  {
    forall v, op | v in visited + {name} && op in g[name] ensures RefersTo(g, v, op) {
      RefersToOperand(g, v, name, op);
    }
  }

  lemma SelfReferenceUnbounded(g: Graph, name: string)
    requires RefersTo(g, name, name)
    ensures Unbounded(g, name)
  {
    var p :| WalkTo(g, name, name, p) && |p| >= 2;
    if n: nat :| Tame(g, name, {}, n) {
      TameNotOnCycle(g, name, {}, n, p);
    }
  }

  lemma UnboundedOperand(g: Graph, name: string)
    requires name in g && exists op :: op in g[name] && Unbounded(g, op)
    ensures Unbounded(g, name)
  {
    var op :| op in g[name] && Unbounded(g, op);
  }

  /** `d` is the greatest of the first `k` operands' depths, or 0. */
  ghost predicate DeepestIs(g: Graph, ops: seq<string>, k: nat, d: nat)
    requires k <= |ops|
  {
    && (forall j :: 0 <= j < k ==> Tame(g, ops[j], {}, d))
    && (d > 0 ==> exists j :: 0 <= j < k && !Tame(g, ops[j], {}, d - 1))
  }

  lemma DeepestMore(g: Graph, ops: seq<string>, k: nat, d: nat, e: nat)
    requires k < |ops| && DeepestIs(g, ops, k, d) && HasDepth(g, ops[k], e)
    ensures DeepestIs(g, ops, k + 1, if e > d then e else d)
  {
    var deeper := if e > d then e else d;
    forall j | 0 <= j <= k ensures Tame(g, ops[j], {}, deeper) {
      TameMonotone(g, ops[j], {}, if j < k then d else e, {}, deeper);
    }
  }

  lemma DepthOfCompound(g: Graph, name: string, maxChild: nat)
    requires name in g && |g[name]| > 0 && DeepestIs(g, g[name], |g[name]|, maxChild)
    ensures HasDepth(g, name, 1 + maxChild)
  {
    var ops := g[name];
    assert forall j :: 0 <= j < |ops| ==> ops[j] in ops;
    assert ops[0] in ops;
    forall op | op in ops ensures Tame(g, op, {}, maxChild) {
      var j :| 0 <= j < |ops| && ops[j] == op;
    }
  }

  // ----- The evaluator -----

  function Combine(op: Operator, acc: set<SproutID>, next: set<SproutID>): set<SproutID> {
    match op
    case And => acc * next
    case Or => acc + next
    case Except => acc - next
    case UnknownOperator(_) => acc
  }

  /** How the combinators fold, operand by operand. */
  ghost function Folded(op: Operator, sets: seq<set<SproutID>>): set<SproutID>
    requires |sets| > 0
  {
    if |sets| == 1 then sets[0] else Combine(op, Folded(op, sets[..|sets| - 1]), sets[|sets| - 1])
  }

  /** What a cohort without unbounded nesting comes to, operands first. */
  ghost function Meaning(reg: Registry, props: Props, all: seq<SproutID>, name: string, n: nat): set<SproutID>
    requires Validated(reg) && Tame(References(reg), name, {}, n)
    decreases n, 0
  {
    var c := reg[name];
    match c.ty
    case Static => set id | id in c.members
    case Dynamic => set id | id in all && MatchesPropValue(props(id, c.rule.value.propName), c.rule.value.propValue)
    case Compound =>
      var ops := References(reg)[name];
      assert ops[0] in ops;
      Folded(c.compound.value.operator, OperandMeanings(reg, props, all, ops, n - 1))
  }

  ghost function OperandMeanings(reg: Registry, props: Props, all: seq<SproutID>, ops: seq<string>, n: nat): (sets: seq<set<SproutID>>)
    requires Validated(reg) && forall op :: op in ops ==> Tame(References(reg), op, {}, n)
    ensures |sets| == |ops| && forall k :: 0 <= k < |ops| ==> ops[k] in ops && sets[k] == Meaning(reg, props, all, ops[k], n)
    decreases n, |ops|
  {
    if ops == [] then []
    else
      assert ops[|ops| - 1] in ops;
      OperandMeanings(reg, props, all, ops[..|ops| - 1], n) + [Meaning(reg, props, all, ops[|ops| - 1], n)]
  }

  /** The fold is the intersection of all, the union of all, or the first less
      the union of the rest. */
  lemma {:induction false} FoldedMembers(op: Operator, sets: seq<set<SproutID>>)
    requires |sets| > 0 && !op.UnknownOperator?
    ensures forall id :: id in Folded(op, sets) <==>
              match op {
                case And => forall k :: 0 <= k < |sets| ==> id in sets[k]
                case Or => exists k :: 0 <= k < |sets| && id in sets[k]
                case Except => id in sets[0] && forall k :: 1 <= k < |sets| ==> id !in sets[k]
              }
  {
    if |sets| > 1 {
      var front := sets[..|sets| - 1];
      FoldedMembers(op, front);
      assert forall k :: 0 <= k < |front| ==> front[k] == sets[k];
    }
  }

  method Intersect(a: set<SproutID>, b: set<SproutID>) returns (result: set<SproutID>)
    ensures result == a * b
  {
    result := {};
    var todo := a;
    while todo != {}
      invariant todo <= a && result == (a - todo) * b
    {
      var id :| id in todo;
      if id in b {
        result := result + {id};
      }
      todo := todo - {id};
    }
  }

  method Union(a: set<SproutID>, b: set<SproutID>) returns (result: set<SproutID>)
    ensures result == a + b
  {
    result := {};
    var todo := a;
    while todo != {}
      invariant todo <= a && result == a - todo
    {
      var id :| id in todo;
      result := result + {id};
      todo := todo - {id};
    }
    todo := b;
    while todo != {}
      invariant todo <= b && result == a + (b - todo)
    {
      var id :| id in todo;
      result := result + {id};
      todo := todo - {id};
    }
  }

  method Difference(a: set<SproutID>, b: set<SproutID>) returns (result: set<SproutID>)
    ensures result == a - b
  {
    result := {};
    var todo := a;
    while todo != {}
      invariant todo <= a && result == (a - todo) - b
    {
      var id :| id in todo;
      if id !in b {
        result := result + {id};
      }
      todo := todo - {id};
    }
  }

  method ApplyOperator(op: Operator, a: set<SproutID>, b: set<SproutID>) returns (result: set<SproutID>)
    ensures result == Combine(op, a, b)
  {
    match op {
      case And => result := Intersect(a, b);
      case Or => result := Union(a, b);
      case Except => result := Difference(a, b);
      case UnknownOperator(_) => result := a;
    }
  }

  method ResolveStatic(c: Cohort) returns (result: set<SproutID>)
    ensures forall id :: id in result <==> id in c.members
  {
    result := {};
    for k := 0 to |c.members|
      invariant forall id :: id in result <==> id in c.members[..k]
    {
      result := result + {c.members[k]};
    }
  }

  method ResolveDynamic(c: Cohort, props: Props, all: seq<SproutID>) returns (result: set<SproutID>)
    requires c.rule.Some?
    ensures forall id :: id in result <==>
              id in all && MatchesPropValue(props(id, c.rule.value.propName), c.rule.value.propValue)
  {
    result := {};
    for k := 0 to |all|
      invariant forall id :: id in result <==>
                  id in all[..k] && MatchesPropValue(props(id, c.rule.value.propName), c.rule.value.propValue)
    {
      var val := props(all[k], c.rule.value.propName);
      if MatchesPropValue(val, c.rule.value.propValue) {
        result := result + {all[k]};
      }
    }
  }

  /** At nesting level `depth` the cohort is within the limit, and means `members`. */
  ghost predicate Resolved(reg: Registry, props: Props, all: seq<SproutID>, name: string, depth: nat, members: set<SproutID>)
    requires Validated(reg)
  {
    && WithinLimit(reg, name, depth)
    && members == Meaning(reg, props, all, name, MAX_NESTING_DEPTH - depth)
  }

  /** No reference chain from `name`, met at level `depth`, goes deeper than the
      limit allows or leaves the registry. */
  ghost predicate WithinLimit(reg: Registry, name: string, depth: nat)
    requires Validated(reg)
  {
    depth <= MAX_NESTING_DEPTH && Tame(References(reg), name, {}, MAX_NESTING_DEPTH - depth)
  }

  /** Evaluate `name`, met at nesting level `depth` along the names `visited`. */
  method ResolveAt(reg: Registry, props: Props, all: seq<SproutID>, name: string, visited: set<string>, depth: nat)
    returns (r: Result<set<SproutID>>)
    requires Validated(reg) && depth <= MAX_NESTING_DEPTH + 1
    requires forall v :: v in visited ==> RefersTo(References(reg), v, name)
    ensures r.Ok? <==> WithinLimit(reg, name, depth)
    ensures r.Ok? ==> Resolved(reg, props, all, name, depth, r.value)
    ensures r.Err? ==> Blamed(reg, name, visited, depth, Some(MAX_NESTING_DEPTH), r.error)
    decreases MAX_NESTING_DEPTH + 1 - depth, 2
  {
    ghost var g := References(reg);
    if Stops(reg, name, visited, depth, Some(MAX_NESTING_DEPTH)) {
      BlamedHere(reg, name, visited, depth, Some(MAX_NESTING_DEPTH));
    }
    if depth > MAX_NESTING_DEPTH {
      return Err(MaxDepthExceeded);
    }
    if name in visited {
      SelfReferenceUnbounded(g, name);
      return Err(CircularReference);
    }
    if name !in reg {
      return Err(NotFound);
    }
    var c := reg[name];
    match c.ty {
      case Static =>
        var members := ResolveStatic(c);
        return Ok(members);
      case Dynamic =>
        var members := ResolveDynamic(c, props, all);
        return Ok(members);
      case Compound =>
        OperandsReferredTo(g, visited, name);
        ghost var k;
        r, k := ResolveCompound(reg, props, all, name, visited + {name}, depth);
        if r.Err? {
          BlamedBelow(reg, name, k, visited, depth, Some(MAX_NESTING_DEPTH), r.error);
        }
    }
  }

  /** The operands' sets, as far as `sets` goes, are what those cohorts mean. */
  ghost predicate OperandSets(reg: Registry, props: Props, all: seq<SproutID>, ops: seq<string>, depth: nat, sets: seq<set<SproutID>>)
    requires Validated(reg)
  {
    |sets| <= |ops| && forall j :: 0 <= j < |sets| ==> Resolved(reg, props, all, ops[j], depth + 1, sets[j])
  }

  lemma CompoundMeaning(reg: Registry, props: Props, all: seq<SproutID>, name: string, depth: nat, sets: seq<set<SproutID>>)
    requires Validated(reg) && depth <= MAX_NESTING_DEPTH && name in reg && reg[name].ty.Compound?
    requires |sets| == |References(reg)[name]|
    requires OperandSets(reg, props, all, References(reg)[name], depth, sets)
    ensures Resolved(reg, props, all, name, depth, Folded(reg[name].compound.value.operator, sets))
  {
    var ops, n := References(reg)[name], MAX_NESTING_DEPTH - depth;
    assert Resolved(reg, props, all, ops[0], depth + 1, sets[0]);
    forall op | op in ops ensures Tame(References(reg), op, {}, n - 1) {
      var j :| 0 <= j < |ops| && ops[j] == op;
      assert Resolved(reg, props, all, ops[j], depth + 1, sets[j]);
    }
    assert Tame(References(reg), name, {}, n);
    var vals := OperandMeanings(reg, props, all, ops, n - 1);
    forall j | 0 <= j < |ops| ensures sets[j] == vals[j] {
      assert Resolved(reg, props, all, ops[j], depth + 1, sets[j]);
    }
    assert sets == vals;
  }

  lemma NextOperand(reg: Registry, props: Props, all: seq<SproutID>, ops: seq<string>, depth: nat, sets: seq<set<SproutID>>,
                    op: Operator, next: set<SproutID>)
    requires Validated(reg) && 0 < |sets| < |ops| && OperandSets(reg, props, all, ops, depth, sets)
    requires Resolved(reg, props, all, ops[|sets|], depth + 1, next)
    ensures OperandSets(reg, props, all, ops, depth, sets + [next])
    ensures Folded(op, sets + [next]) == Combine(op, Folded(op, sets), next)
  {
    var more := sets + [next];
    assert more[..|more| - 1] == sets;
  }

  /** The first operand not within the limit is to blame. */
  lemma OperandFails(reg: Registry, props: Props, all: seq<SproutID>, name: string, depth: nat, sets: seq<set<SproutID>>)
    requires Validated(reg) && depth <= MAX_NESTING_DEPTH && name in reg && |sets| < |References(reg)[name]|
    requires OperandSets(reg, props, all, References(reg)[name], depth, sets)
    requires !WithinLimit(reg, References(reg)[name][|sets|], depth + 1)
    ensures !WithinLimit(reg, name, depth)
    ensures UnsoundAt(reg, References(reg)[name], |sets|, depth + 1, Some(MAX_NESTING_DEPTH))
  {
    var ops := References(reg)[name];
    assert ops[|sets|] in ops;
    forall j | 0 <= j < |sets| ensures Sound(reg, ops[j], depth + 1, Some(MAX_NESTING_DEPTH)) {
      assert Resolved(reg, props, all, ops[j], depth + 1, sets[j]);
    }
  }

  /** Evaluate the operands left to right, each along its own copy of `visited`. */
  method ResolveCompound(reg: Registry, props: Props, all: seq<SproutID>, name: string, visited: set<string>, depth: nat)
    returns (r: Result<set<SproutID>>, ghost at: nat)
    requires Validated(reg) && depth <= MAX_NESTING_DEPTH && name in reg && reg[name].ty.Compound?
    requires forall v, op :: v in visited && op in References(reg)[name] ==> RefersTo(References(reg), v, op)
    ensures r.Ok? <==> WithinLimit(reg, name, depth)
    ensures r.Ok? ==> Resolved(reg, props, all, name, depth, r.value)
    ensures r.Err? ==> UnsoundAt(reg, References(reg)[name], at, depth + 1, Some(MAX_NESTING_DEPTH))
    ensures r.Err? ==> Blamed(reg, References(reg)[name][at], visited, depth + 1, Some(MAX_NESTING_DEPTH), r.error)
    decreases MAX_NESTING_DEPTH + 1 - depth, 1
  {
    at := 0;
    var ops := reg[name].compound.value.operands;
    assert ops[0] in References(reg)[name];
    r := ResolveAt(reg, props, all, ops[0], visited, depth + 1);
    if r.Err? {
      OperandFails(reg, props, all, name, depth, []);
      return;
    }
    r, at := ResolveOthers(reg, props, all, name, visited, depth, r.value);
  }

  /** The loop over the operands after the first, which came to `first`. */
  method ResolveOthers(reg: Registry, props: Props, all: seq<SproutID>, name: string, visited: set<string>, depth: nat,
                       first: set<SproutID>)
    returns (r: Result<set<SproutID>>, ghost at: nat)
    requires Validated(reg) && depth <= MAX_NESTING_DEPTH && name in reg && reg[name].ty.Compound?
    requires forall v, op :: v in visited && op in References(reg)[name] ==> RefersTo(References(reg), v, op)
    requires Resolved(reg, props, all, References(reg)[name][0], depth + 1, first)
    ensures r.Ok? <==> WithinLimit(reg, name, depth)
    ensures r.Ok? ==> Resolved(reg, props, all, name, depth, r.value)
    ensures r.Err? ==> UnsoundAt(reg, References(reg)[name], at, depth + 1, Some(MAX_NESTING_DEPTH))
    ensures r.Err? ==> Blamed(reg, References(reg)[name][at], visited, depth + 1, Some(MAX_NESTING_DEPTH), r.error)
    decreases MAX_NESTING_DEPTH + 1 - depth, 0
  {
    at := 0;
    var ops, operator := reg[name].compound.value.operands, reg[name].compound.value.operator;
    var result := first;
    ghost var sets := [first];
    for k := 1 to |ops|
      invariant |sets| == k && OperandSets(reg, props, all, ops, depth, sets)
      invariant result == Folded(operator, sets)
    {
      assert ops[k] in References(reg)[name];
      r := ResolveAt(reg, props, all, ops[k], visited, depth + 1);
      if r.Err? {
        OperandFails(reg, props, all, name, depth, sets);
        at := k;
        return;
      }
      result := ApplyOperator(operator, result, r.value);
      NextOperand(reg, props, all, ops, depth, sets, operator, r.value);
      sets := sets + [r.value];
    }
    CompoundMeaning(reg, props, all, name, depth, sets);
    r := Ok(result);
  }

  method Resolve(reg: Registry, props: Props, all: seq<SproutID>, name: string) returns (r: Result<set<SproutID>>)
    requires Validated(reg)
    ensures r.Ok? <==> Tame(References(reg), name, {}, 16)
    ensures r.Ok? ==> r.value == Meaning(reg, props, all, name, 16)
    ensures r.Err? ==> Blamed(reg, name, {}, 0, Some(16), r.error)
    ensures name !in reg ==> r == Err(NotFound)
  {
    r := ResolveAt(reg, props, all, name, {}, 0);
    if name !in reg {
      BlamedHere(reg, name, {}, 0, Some(16));
      BlameUnique(reg, name, {}, 0, Some(16), r.error, NotFound);
    }
  }

  // ----- Evaluation is the solution of the cohort equations -----

  /** The operands' meanings are those in `sets`. */
  ghost predicate OperandsKnown(reg: Registry, props: Props, all: seq<SproutID>, sets: map<string, set<SproutID>>, ops: seq<string>, n: nat)
    requires Validated(reg)
  {
    forall op :: op in ops ==>
      n > 0 && op in sets && Tame(References(reg), op, {}, n - 1) && sets[op] == Meaning(reg, props, all, op, n - 1)
  }

  lemma CompoundBelongs(reg: Registry, props: Props, all: seq<SproutID>, sets: map<string, set<SproutID>>, name: string, n: nat, vals: seq<set<SproutID>>)
    requires Validated(reg) && name in reg && reg[name].ty.Compound?
    requires |vals| == |References(reg)[name]|
    requires forall k :: 0 <= k < |vals| ==> References(reg)[name][k] in sets && vals[k] == sets[References(reg)[name][k]]
    ensures forall op :: op in References(reg)[name] ==> op in sets
    ensures forall id :: id in Folded(reg[name].compound.value.operator, vals) <==> Belongs(reg[name], props, all, sets, id)
  {
    FoldedMembers(reg[name].compound.value.operator, vals);
  }

  /** If `sets` has the operands' meanings, a cohort's own meaning is what its
      equation says. */
  lemma MeaningBelongs(reg: Registry, props: Props, all: seq<SproutID>, sets: map<string, set<SproutID>>, name: string, n: nat)
    requires Validated(reg) && Tame(References(reg), name, {}, n)
    requires OperandsKnown(reg, props, all, sets, References(reg)[name], n)
    ensures forall id :: id in Meaning(reg, props, all, name, n) <==> Belongs(reg[name], props, all, sets, id)
  {
    if reg[name].ty.Compound? {
      var ops := References(reg)[name];
      var vals := MeaningUnfolds(reg, props, all, name, n);
      forall k | 0 <= k < |ops| ensures ops[k] in sets && vals[k] == sets[ops[k]] {
        assert ops[k] in ops;
      }
      CompoundBelongs(reg, props, all, sets, name, n, vals);
    }
  }

  lemma MeaningUnfolds(reg: Registry, props: Props, all: seq<SproutID>, name: string, n: nat) returns (vals: seq<set<SproutID>>)
    requires Validated(reg) && Tame(References(reg), name, {}, n) && reg[name].ty.Compound?
    ensures n > 0 && |vals| == |References(reg)[name]|
    ensures forall k :: 0 <= k < |vals| ==>
              && References(reg)[name][k] in References(reg)[name]
              && vals[k] == Meaning(reg, props, all, References(reg)[name][k], n - 1)
    ensures Meaning(reg, props, all, name, n) == Folded(reg[name].compound.value.operator, vals)
  {
    var ops := References(reg)[name];
    assert ops[0] in ops;
    vals := OperandMeanings(reg, props, all, ops, n - 1);
  }

  /** What a cohort means is what any solution that covers it says. */
  lemma {:induction false} MeaningIsUnique(reg: Registry, props: Props, all: seq<SproutID>, sets: map<string, set<SproutID>>, name: string, n: nat)
    requires Validated(reg) && Solves(reg, props, all, sets) && name in sets
    requires Tame(References(reg), name, {}, n)
    ensures Meaning(reg, props, all, name, n) == sets[name]
    decreases n
  {
    assert SolvedAt(reg, props, all, sets, name);
    forall op | op in References(reg)[name] ensures n > 0 && op in sets && Meaning(reg, props, all, op, n - 1) == sets[op] {
      MeaningIsUnique(reg, props, all, sets, op, n - 1);
    }
    MeaningBelongs(reg, props, all, sets, name, n);
  }

  lemma {:induction false} MeaningAnyBound(reg: Registry, props: Props, all: seq<SproutID>, name: string, m: nat, n: nat)
    requires Validated(reg) && Tame(References(reg), name, {}, m) && Tame(References(reg), name, {}, n)
    ensures Meaning(reg, props, all, name, m) == Meaning(reg, props, all, name, n)
    decreases m
  {
    var ops := References(reg)[name];
    if reg[name].ty.Compound? {
      assert ops[0] in ops;
      forall k | 0 <= k < |ops| ensures ops[k] in ops && Meaning(reg, props, all, ops[k], m - 1) == Meaning(reg, props, all, ops[k], n - 1) {
        assert ops[k] in ops;
        MeaningAnyBound(reg, props, all, ops[k], m - 1, n - 1);
      }
      assert OperandMeanings(reg, props, all, ops, m - 1) == OperandMeanings(reg, props, all, ops, n - 1);
    }
  }

  /** The cohorts nested within the bound, each with what it means. */
  ghost function Meanings(reg: Registry, props: Props, all: seq<SproutID>, n: nat): map<string, set<SproutID>>
    requires Validated(reg)
  {
    map name | name in reg && Tame(References(reg), name, {}, n) :: Meaning(reg, props, all, name, n)
  }

  /** The meanings do solve the equations, shared operands included. */
  lemma MeaningsSolve(reg: Registry, props: Props, all: seq<SproutID>, n: nat)
    requires Validated(reg)
    ensures Solves(reg, props, all, Meanings(reg, props, all, n))
  {
    var sets := Meanings(reg, props, all, n);
    forall name | name in sets ensures SolvedAt(reg, props, all, sets, name) {
      MeaningSolvesAt(reg, props, all, n, name);
    }
  }

  lemma OperandInMeanings(reg: Registry, props: Props, all: seq<SproutID>, n: nat, op: string)
    requires Validated(reg) && n > 0 && Tame(References(reg), op, {}, n - 1)
    ensures op in Meanings(reg, props, all, n)
    ensures Meanings(reg, props, all, n)[op] == Meaning(reg, props, all, op, n - 1)
  {
    TameMonotone(References(reg), op, {}, n - 1, {}, n);
    MeaningAnyBound(reg, props, all, op, n - 1, n);
  }

  lemma OperandsInMeanings(reg: Registry, props: Props, all: seq<SproutID>, n: nat, name: string)
    requires Validated(reg) && Tame(References(reg), name, {}, n)
    ensures OperandsKnown(reg, props, all, Meanings(reg, props, all, n), References(reg)[name], n)
  {
    forall op | op in References(reg)[name]
      ensures n > 0 && op in Meanings(reg, props, all, n) && Tame(References(reg), op, {}, n - 1)
      ensures Meanings(reg, props, all, n)[op] == Meaning(reg, props, all, op, n - 1)
    {
      OperandInMeanings(reg, props, all, n, op);
    }
  }

  lemma MeaningSolvesAt(reg: Registry, props: Props, all: seq<SproutID>, n: nat, name: string)
    requires Validated(reg) && name in Meanings(reg, props, all, n)
    ensures SolvedAt(reg, props, all, Meanings(reg, props, all, n), name)
  {
    OperandsInMeanings(reg, props, all, n, name);
    MeaningBelongs(reg, props, all, Meanings(reg, props, all, n), name, n);
  }

  // ----- The validator and the evaluator agree -----

  /** A cohort has a depth, and it is within the limit, exactly when it resolves. */
  lemma DepthDecidesResolution(reg: Registry, name: string, d: nat)
    requires Validated(reg) && HasDepth(References(reg), name, d)
    ensures d <= MAX_NESTING_DEPTH <==> Tame(References(reg), name, {}, MAX_NESTING_DEPTH)
  {
    var g := References(reg);
    if d <= MAX_NESTING_DEPTH {
      TameMonotone(g, name, {}, d, {}, MAX_NESTING_DEPTH);
    } else if Tame(g, name, {}, MAX_NESTING_DEPTH) {
      TameMonotone(g, name, {}, MAX_NESTING_DEPTH, {}, d - 1);
    }
  }

  /** What the validator says: nothing iff every cohort resolves; that an operand is
      unknown iff one is; that the nesting is too deep iff some cohort has a depth
      beyond the limit; and that there is a circle only if there is. */
  method ValidateReferencesAll(reg: Registry) returns (errs: seq<CohortError>)
    requires Validated(reg)
    ensures errs == [] <==> forall name :: name in reg ==> Tame(References(reg), name, {}, 16)
    ensures NotFound in errs <==> !Closed(References(reg))
    ensures MaxDepthExceeded in errs <==> exists name, d :: name in reg && d > 16 && HasDepth(References(reg), name, d)
    ensures CircularReference in errs ==> Cyclic(References(reg))
  {
    errs := CheckOperands(reg);
    ghost var missing := errs != [];
    var todo := reg.Keys;
    while todo != {}
      invariant todo <= reg.Keys && (missing ==> errs != [])
      invariant errs == [] <==>
                  !missing && forall name :: name in reg && name !in todo ==> Tame(References(reg), name, {}, MAX_NESTING_DEPTH)
      invariant NotFound in errs <==> !Closed(References(reg))
      invariant MaxDepthExceeded in errs <==> exists name :: name in reg && name !in todo && Deep(reg, name)
      invariant CircularReference in errs ==> Cyclic(References(reg))
    {
      var name :| name in todo;
      var err := CheckDepth(reg, name);
      todo := todo - {name};
      errs := if err.Some? then errs + [err.value] else errs;
    }
    DeepMeans(reg);
  }

  /** The cohort's depth is beyond the limit. */
  ghost predicate Deep(reg: Registry, name: string)
    requires Validated(reg)
  {
    exists d: nat :: d > MAX_NESTING_DEPTH && HasDepth(References(reg), name, d)
  }

  lemma DeepMeans(reg: Registry)
    requires Validated(reg)
    ensures (exists name :: name in reg && Deep(reg, name)) <==>
            exists name, d: nat :: name in reg && d > 16 && HasDepth(References(reg), name, d)
  {
  }

  lemma DepthUnique(g: Graph, name: string, d: nat, e: nat)
    requires HasDepth(g, name, d) && HasDepth(g, name, e)
    ensures d == e
  {
    if d < e {
      TameMonotone(g, name, {}, d, {}, e - 1);
    } else if e < d {
      TameMonotone(g, name, {}, e, {}, d - 1);
    }
  }

  /** The second loop's check of one cohort. */
  method CheckDepth(reg: Registry, name: string) returns (err: Option<CohortError>)
    requires Validated(reg) && name in reg
    ensures err.None? <==> Tame(References(reg), name, {}, MAX_NESTING_DEPTH)
    ensures err == Some(MaxDepthExceeded) <==> Deep(reg, name)
    ensures err == Some(NotFound) ==> !Closed(References(reg))
    ensures err == Some(CircularReference) ==> Cyclic(References(reg))
  {
    ghost var g := References(reg);
    if !reg[name].ty.Compound? {
      ShallowDepth(reg, name, 0);
      return None;
    }
    var validator := new Validator(reg);
    var depth := validator.ComputeDepth(name, 0);
    if depth.Err? {
      BlameShows(reg, name, None, depth.error);
      if depth.error == NotFound {
        ghost var x :| Reaches(g, name, x) && x !in reg;
        ReachesOutsideNotClosed(g, name, x);
      }
      return Some(depth.error);
    }
    ShallowDepth(reg, name, depth.value);
    DepthDecidesResolution(reg, name, depth.value);
    err := if depth.value > MAX_NESTING_DEPTH then Some(MaxDepthExceeded) else None;
  }

  lemma ShallowDepth(reg: Registry, name: string, d: nat)
    requires Validated(reg) && HasDepth(References(reg), name, d)
    ensures Deep(reg, name) <==> d > MAX_NESTING_DEPTH
  {
    if Deep(reg, name) {
      var e: nat :| e > MAX_NESTING_DEPTH && HasDepth(References(reg), name, e);
      DepthUnique(References(reg), name, d, e);
    }
  }

  lemma BlameWalks(reg: Registry, path: seq<string>, name: string, limit: Option<nat>, e: CohortError)
    requires Validated(reg) && Blames(reg, path, name, {}, 0, limit, e)
    ensures WalkFrom(References(reg), name, path)
  {
    forall i | 0 <= i < |path| - 1 ensures Edge(References(reg), path[i], path[i + 1]) {
      assert GoesOnAt(reg, path, i, {}, 0, limit);
    }
  }

  /** What each error tells: a chain from `name` leaves the registry, the references
      go in a circle, or a chain has one link more than the limit. */
  lemma BlameShows(reg: Registry, name: string, limit: Option<nat>, e: CohortError)
    requires Validated(reg) && Blamed(reg, name, {}, 0, limit, e)
    ensures e == NotFound ==> exists x :: Reaches(References(reg), name, x) && x !in reg
    ensures e == CircularReference ==> Cyclic(References(reg))
    ensures e == MaxDepthExceeded ==>
              limit.Some? && exists p :: WalkFrom(References(reg), name, p) && |p| - 1 == limit.value + 1
  {
    var g := References(reg);
    var path :| Blames(reg, path, name, {}, 0, limit, e);
    BlameWalks(reg, path, name, limit, e);
    var last := |path| - 1;
    var front := path[..last];
    if e == CircularReference {
      assert path[last] in front;
      WalkSlice(g, path, 0, last);
      assert path[0..last] == front;
      assert Edge(g, path[last - 1], path[last - 1 + 1]);
      ClosingEdgeMakesCycle(g, front, path[last]);
    } else if e == NotFound {
      assert WalkTo(g, name, path[last], path);
    } else {
      if last > 0 {
        assert GoesOnAt(reg, path, last - 1, {}, 0, limit);
      }
    }
  }

  lemma ReachesOutsideNotClosed(g: Graph, a: string, x: string)
    requires a in g && Reaches(g, a, x) && x !in g
    ensures !Closed(g)
  {
    if Closed(g) {
      var p :| WalkTo(g, a, x, p);
      ReachStaysInside(g, g.Keys, p);
    }
  }

  /** The first loop: operands that name no cohort. */
  method CheckOperands(reg: Registry) returns (errs: seq<CohortError>)
    requires Validated(reg)
    ensures errs == [] <==> Closed(References(reg))
    ensures forall e :: e in errs ==> e == NotFound
    ensures errs != [] ==> NotFound in errs
    ensures errs != [] ==> exists name :: name in reg && !Tame(References(reg), name, {}, MAX_NESTING_DEPTH)
  {
    ghost var g := References(reg);
    errs := [];
    var todo := reg.Keys;
    while todo != {}
      invariant todo <= reg.Keys
      invariant errs == [] <==> forall a, b :: Edge(g, a, b) && a !in todo ==> b in g
      invariant forall e :: e in errs ==> e == NotFound
    {
      var name :| name in todo;
      todo := todo - {name};
      if !reg[name].ty.Compound? {
        continue;
      }
      var ops := reg[name].compound.value.operands;
      ghost var before := errs;
      for k := 0 to |ops|
        invariant errs == [] <==> before == [] && forall j :: 0 <= j < k ==> ops[j] in reg
        invariant forall e :: e in errs ==> e == NotFound
      {
        if ops[k] !in reg {
          errs := errs + [NotFound];
        }
      }
      assert forall b :: Edge(g, name, b) <==> b in ops;
    }
    if errs != [] {
      assert errs[0] in errs;
      ghost var a, b :| Edge(g, a, b) && b !in g;
      assert !Tame(g, a, {}, MAX_NESTING_DEPTH);
    }
  }
}
