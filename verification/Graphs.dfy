/**
 Directed graphs over string names, as finite maps from a name to the names it
 lists.  Recipes (steps and requisites), recipe files (includes) and cohorts
 (operands) are all read as such graphs.
 */
module Graphs {
  type Graph = map<string, seq<string>>

  ghost predicate Edge(g: Graph, a: string, b: string) {
    a in g && b in g[a]
  }

  /** Every name that is listed is itself defined. */
  ghost predicate Closed(g: Graph) {
    forall a, b :: Edge(g, a, b) ==> b in g
  }

  ghost predicate Walk(g: Graph, p: seq<string>) {
    |p| > 0 && forall i :: 0 <= i < |p| - 1 ==> Edge(g, p[i], p[i + 1])
  }

  ghost predicate WalkFrom(g: Graph, a: string, p: seq<string>) {
    Walk(g, p) && p[0] == a
  }

  ghost predicate WalkTo(g: Graph, a: string, b: string, p: seq<string>) {
    WalkFrom(g, a, p) && p[|p| - 1] == b
  }

  ghost predicate Reaches(g: Graph, a: string, b: string) {
    exists p :: WalkTo(g, a, b, p)
  }

  /** A closed chain: starts and ends at the same name, each pair an edge. */
  ghost predicate IsCycle(g: Graph, p: seq<string>) {
    |p| >= 2 && Walk(g, p) && p[0] == p[|p| - 1]
  }

  ghost predicate Cyclic(g: Graph) {
    exists p :: IsCycle(g, p)
  }

  /** Every walk from `a` has at most `n` edges, meets only defined names, and
      stays off `avoid`; see TameMeansShortWalks. */
  ghost predicate Tame(g: Graph, a: string, avoid: set<string>, n: nat)
    decreases n
  {
    && a in g
    && a !in avoid
    && forall b :: b in g[a] ==> n > 0 && Tame(g, b, avoid, n - 1)
  }

  ghost predicate ShortWalk(g: Graph, avoid: set<string>, n: nat, p: seq<string>) {
    |p| <= n + 1 && forall i :: 0 <= i < |p| ==> p[i] in g && p[i] !in avoid
  }

  lemma {:induction false} TameMonotone(g: Graph, a: string, s: set<string>, m: nat, t: set<string>, n: nat)
    requires Tame(g, a, s, m) && t <= s && m <= n
    ensures Tame(g, a, t, n)
    decreases m
  {
    forall b | b in g[a] ensures n > 0 && Tame(g, b, t, n - 1) {
      TameMonotone(g, b, s, m - 1, t, n - 1);
    }
  }

  lemma WalkTail(g: Graph, p: seq<string>)
    requires Walk(g, p) && |p| > 1
    ensures Walk(g, p[1..]) && Edge(g, p[0], p[1])
  {
    var q := p[1..];
    forall i | 0 <= i < |q| - 1 ensures Edge(g, q[i], q[i + 1]) {
      assert Edge(g, p[i + 1], p[i + 1 + 1]);
    }
    assert Edge(g, p[0], p[0 + 1]);
  }

  lemma WalkCons(g: Graph, a: string, p: seq<string>)
    requires Walk(g, p) && Edge(g, a, p[0])
    ensures Walk(g, [a] + p)
  {
    var q := [a] + p;
    forall i | 0 <= i < |q| - 1 ensures Edge(g, q[i], q[i + 1]) {
      if i > 0 {
        assert Edge(g, p[i - 1], p[i - 1 + 1]);
      }
    }
  }

  lemma WalkSnoc(g: Graph, p: seq<string>, b: string)
    requires Walk(g, p) && Edge(g, p[|p| - 1], b)
    ensures Walk(g, p + [b])
  {
    var q := p + [b];
    forall i | 0 <= i < |q| - 1 ensures Edge(g, q[i], q[i + 1]) {
      if i < |p| - 1 {
        assert Edge(g, p[i], p[i + 1]);
      }
    }
  }

  lemma WalkSlice(g: Graph, p: seq<string>, lo: nat, hi: nat)
    requires Walk(g, p) && lo < hi <= |p|
    ensures Walk(g, p[lo..hi])
  {
    var q := p[lo..hi];
    forall i | 0 <= i < |q| - 1 ensures Edge(g, q[i], q[i + 1]) {
      assert Edge(g, p[lo + i], p[lo + i + 1]);
    }
  }

  lemma {:induction false} TameBoundsWalk(g: Graph, a: string, avoid: set<string>, n: nat, p: seq<string>)
    requires Tame(g, a, avoid, n) && WalkFrom(g, a, p)
    ensures ShortWalk(g, avoid, n, p)
    decreases n
  {
    if |p| > 1 {
      WalkTail(g, p);
      TameBoundsWalk(g, p[1], avoid, n - 1, p[1..]);
      forall i | 0 <= i < |p| ensures p[i] in g && p[i] !in avoid {
        if i > 0 {
          assert p[1..][i - 1] == p[i];
        }
      }
    }
  }

  lemma {:induction false} ShortWalksTame(g: Graph, a: string, avoid: set<string>, n: nat)
    requires forall p :: WalkFrom(g, a, p) ==> ShortWalk(g, avoid, n, p)
    ensures Tame(g, a, avoid, n)
    decreases n
  {
    assert WalkFrom(g, a, [a]);
    assert [a][0] in g && [a][0] !in avoid;
    forall b | b in g[a] ensures n > 0 && Tame(g, b, avoid, n - 1) {
      assert WalkFrom(g, a, [a, b]);
      assert n > 0;
      forall p | WalkFrom(g, b, p) ensures ShortWalk(g, avoid, n - 1, p) {
        WalkCons(g, a, p);
        var q := [a] + p;
        assert WalkFrom(g, a, q);
        assert forall i :: 0 <= i < |p| ==> p[i] == q[i + 1];
      }
      ShortWalksTame(g, b, avoid, n - 1);
    }
  }

  /** The recursive predicate Tame says exactly what it is documented to say. */
  lemma TameMeansShortWalks(g: Graph, a: string, avoid: set<string>, n: nat)
    ensures Tame(g, a, avoid, n) <==> forall p :: WalkFrom(g, a, p) ==> ShortWalk(g, avoid, n, p)
  {
    if Tame(g, a, avoid, n) {
      forall p | WalkFrom(g, a, p) ensures ShortWalk(g, avoid, n, p) {
        TameBoundsWalk(g, a, avoid, n, p);
      }
    } else if forall p :: WalkFrom(g, a, p) ==> ShortWalk(g, avoid, n, p) {
      ShortWalksTame(g, a, avoid, n);
    }
  }

  /** A name from which walks are bounded lies on no cycle. */
  lemma {:induction false} TameNotOnCycle(g: Graph, a: string, avoid: set<string>, n: nat, p: seq<string>)
    requires Tame(g, a, avoid, n) && IsCycle(g, p) && p[0] == a
    ensures false
    decreases n
  {
    // rotate the cycle by one edge
    WalkTail(g, p);
    var q := p[1..];
    assert Edge(g, q[|q| - 1], p[1]);
    WalkSnoc(g, q, p[1]);
    TameNotOnCycle(g, p[1], avoid, n - 1, q + [p[1]]);
  }

  /** In an acyclic closed graph every walk is bounded (pigeonhole). */
  lemma AcyclicTame(g: Graph, a: string)
    requires Closed(g) && !Cyclic(g) && a in g
    ensures Tame(g, a, {}, |g.Keys|)
  {
    AcyclicTameFrom(g, [], g.Keys, a);
  }

  /** `left` are the names not yet on the walk `p` that leads to `a`. */
  lemma {:induction false} AcyclicTameFrom(g: Graph, p: seq<string>, left: set<string>, a: string)
    requires Closed(g) && !Cyclic(g) && a in g
    requires p != [] ==> Walk(g, p) && Edge(g, p[|p| - 1], a)
    requires left <= g.Keys && forall x :: x in g ==> x in left || x in p
    ensures Tame(g, a, {}, |left|)
    decreases |left|
  {
    if a in p {
      ClosingEdgeMakesCycle(g, p, a);
    }
    var q := p + [a];
    if p != [] {
      WalkSnoc(g, p, a);
    }
    assert Walk(g, q);
    forall b | b in g[a] ensures |left| > 0 && Tame(g, b, {}, |left| - 1) {
      assert Edge(g, a, b);
      AcyclicTameFrom(g, q, left - {a}, b);
    }
  }

  lemma ClosingEdgeMakesCycle(g: Graph, p: seq<string>, a: string)
    requires Walk(g, p) && Edge(g, p[|p| - 1], a) && a in p
    ensures Cyclic(g)
  {
    var i :| 0 <= i < |p| && p[i] == a;
    WalkSlice(g, p, i, |p|);
    WalkSnoc(g, p[i..], a);
    assert IsCycle(g, p[i..] + [a]);
  }

  lemma ReachesSelf(g: Graph, a: string)
    ensures Reaches(g, a, a)
  {
    assert WalkTo(g, a, a, [a]);
  }

  lemma ReachesStep(g: Graph, a: string, b: string, c: string)
    requires Edge(g, a, b) && Reaches(g, b, c)
    ensures Reaches(g, a, c)
  {
    var p :| WalkTo(g, b, c, p);
    WalkCons(g, a, p);
    assert WalkTo(g, a, c, [a] + p);
  }

  lemma ReachesThen(g: Graph, a: string, b: string, c: string)
    requires Reaches(g, a, b) && Edge(g, b, c)
    ensures Reaches(g, a, c)
  {
    var p :| WalkTo(g, a, b, p);
    WalkSnoc(g, p, c);
    assert WalkTo(g, a, c, p + [c]);
  }

  /** A set that holds `a` and is closed under edges holds all that `a` reaches. */
  lemma {:induction false} ReachStaysInside(g: Graph, inside: set<string>, p: seq<string>)
    requires Walk(g, p) && p[0] in inside
    requires forall x, y :: x in inside && Edge(g, x, y) ==> y in inside
    ensures p[|p| - 1] in inside
    decreases |p|
  {
    if |p| > 1 {
      WalkTail(g, p);
      ReachStaysInside(g, inside, p[1..]);
    }
  }
}
