/** Finite directed graphs given by successor sets, and what it means to reach a node. */
module Graphs {

  type Graph = seq<set<nat>>

  ghost predicate Closed(g: Graph) {
    forall x, y :: 0 <= x < |g| && y in g[x] ==> y < |g|
  }

  ghost predicate IsPath(g: Graph, p: seq<nat>) {
    && |p| > 0
    && p[0] < |g|
    && forall m :: 0 <= m < |p| - 1 ==> p[m] < |g| && p[m + 1] in g[p[m]]
  }

  ghost predicate PathFromTo(g: Graph, p: seq<nat>, x: nat, y: nat) {
    IsPath(g, p) && p[0] == x && p[|p| - 1] == y
  }

  /** y can be reached from x in zero or more steps. */
  ghost predicate Reach(g: Graph, x: nat, y: nat) {
    exists p :: PathFromTo(g, p, x, y)
  }

  /** y can be reached from x in one or more steps. */
  ghost predicate ReachPlus(g: Graph, x: nat, y: nat) {
    exists p :: PathFromTo(g, p, x, y) && |p| > 1
  }

  lemma ReachRefl(g: Graph, x: nat)
    requires x < |g|
    ensures Reach(g, x, x)
  {
    assert PathFromTo(g, [x], x, x);
  }

  lemma ReachEdge(g: Graph, x: nat, y: nat)
    requires x < |g| && y in g[x]
    ensures ReachPlus(g, x, y) && Reach(g, x, y)
  {
    assert PathFromTo(g, [x, y], x, y);
  }

  lemma JoinPaths(g: Graph, p: seq<nat>, q: seq<nat>, x: nat, y: nat, z: nat)
    requires PathFromTo(g, p, x, y) && PathFromTo(g, q, y, z)
    ensures PathFromTo(g, p + q[1..], x, z)
  {
    var r := p + q[1..];
    forall m | 0 <= m < |r| - 1 ensures r[m] < |g| && r[m + 1] in g[r[m]] {
      if m >= |p| - 1 {
        assert r[m] == q[m - (|p| - 1)] && r[m + 1] == q[m + 1 - (|p| - 1)];
      }
    }
  }

  lemma ReachTrans(g: Graph, x: nat, y: nat, z: nat)
    requires Reach(g, x, y) && Reach(g, y, z)
    ensures Reach(g, x, z)
  {
    var p :| PathFromTo(g, p, x, y);
    var q :| PathFromTo(g, q, y, z);
    JoinPaths(g, p, q, x, y, z);
  }

  lemma ReachPlusTrans(g: Graph, x: nat, y: nat, z: nat)
    requires ReachPlus(g, x, y) && ReachPlus(g, y, z)
    ensures ReachPlus(g, x, z)
  {
    var p :| PathFromTo(g, p, x, y) && |p| > 1;
    var q :| PathFromTo(g, q, y, z) && |q| > 1;
    JoinPaths(g, p, q, x, y, z);
  }

  lemma PathInRange(g: Graph, p: seq<nat>, m: nat)
    requires Closed(g) && IsPath(g, p) && m < |p|
    ensures p[m] < |g|
  {
    if m > 0 {
      assert p[m - 1 + 1] in g[p[m - 1]];
    }
  }

  lemma SubPath(g: Graph, p: seq<nat>, i: nat, j: nat)
    requires Closed(g) && IsPath(g, p) && i <= j < |p|
    ensures PathFromTo(g, p[i..j + 1], p[i], p[j])
  {
    PathInRange(g, p, i);
  }

  /** Reach is the least relation that holds reflexively and is kept by one more first step. */
  lemma ReachFirstStep(g: Graph, x: nat, y: nat)
    requires Closed(g) && x < |g|
    ensures Reach(g, x, y) <==> x == y || exists z :: z in g[x] && Reach(g, z, y)
  {
    if Reach(g, x, y) {
      var p :| PathFromTo(g, p, x, y);
      if |p| > 1 {
        SubPath(g, p, 1, |p| - 1);
        assert p[0 + 1] in g[p[0]];
        assert p[1] in g[x] && Reach(g, p[1], y);
      }
    }
    if x == y {
      ReachRefl(g, x);
    }
    forall z | z in g[x] && Reach(g, z, y) ensures Reach(g, x, y) {
      ReachEdge(g, x, z);
      ReachTrans(g, x, z, y);
    }
  }

  lemma ReachPlusOrSame(g: Graph, x: nat, y: nat)
    requires x < |g|
    ensures Reach(g, x, y) <==> x == y || ReachPlus(g, x, y)
  {
    ReachRefl(g, x);
  }

  /** The transitive closure of g. */
  ghost function PlusClosure(g: Graph): Graph {
    seq(|g|, (i: nat) => set j: nat | j < |g| && ReachPlus(g, i, j))
  }

  /** The reflexive transitive closure of g. */
  ghost function StarClosure(g: Graph): Graph {
    seq(|g|, (i: nat) => set j: nat | j < |g| && Reach(g, i, j))
  }
}
