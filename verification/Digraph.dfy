/** `digraph` and `traverse` of byacc/lalr.c: one depth-first pass that adds up rows of bits
    over everything a node can reach, strongly connected components included. */
module Digraph {
  import opened Bits
  import opened Graphs
  import opened Sequences

  /** The graph of a relation given by rows of successors; an absent row is empty. */
  ghost function GraphOf(relation: seq<seq<nat>>): (g: Graph)
    ensures |g| == |relation|
  {
    seq(|relation|, i requires 0 <= i < |relation| => SetOf(relation[i]))
  }

  /** t belongs to the initial row of some node that x reaches: the least solution at x of
      F(x) = initial(x) + the union of F(y) over the successors y of x. */
  ghost predicate InSolution(g: Graph, initial: seq<set<nat>>, x: nat, t: nat) {
    exists y: nat :: Reach(g, x, y) && y < |initial| && t in initial[y]
  }

  lemma SolutionOfEdge(g: Graph, initial: seq<set<nat>>, x: nat, y: nat, t: nat)
    requires Reach(g, x, y) && InSolution(g, initial, y, t)
    ensures InSolution(g, initial, x, t)
  {
    var z: nat :| Reach(g, y, z) && z < |initial| && t in initial[z];
    ReachTrans(g, x, y, z);
  }

  /** F solves F(x) = initial(x) + the union of F(y) over the successors y of x, or at least
      holds all that the right-hand sides hold. */
  ghost predicate Solves(g: Graph, initial: seq<set<nat>>, F: seq<set<nat>>) {
    |F| == |initial| == |g| && forall x, t: nat :: 0 <= x < |g| ==> (t in F[x] <==> Required(g, initial, F, x, t))
  }

  ghost predicate Exceeds(g: Graph, initial: seq<set<nat>>, F: seq<set<nat>>) {
    |F| == |initial| == |g| && forall x, t: nat :: 0 <= x < |g| && Required(g, initial, F, x, t) ==> t in F[x]
  }

  ghost predicate Required(g: Graph, initial: seq<set<nat>>, F: seq<set<nat>>, x: nat, t: nat)
    requires |F| == |initial| == |g| && x < |g|
  {
    t in initial[x] || exists y :: y in g[x] && y < |F| && t in F[y]
  }

  ghost predicate IsSolution(g: Graph, initial: seq<set<nat>>, F: seq<set<nat>>) {
    |F| == |initial| == |g| && forall x: nat, t: nat :: x < |g| ==> (t in F[x] <==> InSolution(g, initial, x, t))
  }

  /** What the pass leaves satisfies the equations... */
  lemma SolutionSolves(g: Graph, initial: seq<set<nat>>, F: seq<set<nat>>)
    requires Closed(g) && IsSolution(g, initial, F)
    ensures Solves(g, initial, F)
  {
    forall x, t: nat | 0 <= x < |g| ensures t in F[x] <==> Required(g, initial, F, x, t) {
      if t in F[x] {
        var z: nat :| Reach(g, x, z) && z < |initial| && t in initial[z];
        ReachFirstStep(g, x, z);
        if x != z {
          var y :| y in g[x] && Reach(g, y, z);
          assert InSolution(g, initial, y, t);
        }
      }
      if t in initial[x] {
        ReachRefl(g, x);
        assert InSolution(g, initial, x, t);
      }
      forall y | y in g[x] && y < |F| && t in F[y] ensures t in F[x] {
        ReachEdge(g, x, y);
        SolutionOfEdge(g, initial, x, y, t);
      }
    }
  }

  /** ... and is contained in everything else that does. */
  lemma SolutionIsLeast(g: Graph, initial: seq<set<nat>>, F: seq<set<nat>>, x: nat, t: nat)
    requires Closed(g) && Exceeds(g, initial, F) && InSolution(g, initial, x, t) && x < |g|
    ensures t in F[x]
  {
    var z: nat :| Reach(g, x, z) && z < |initial| && t in initial[z];
    var p :| PathFromTo(g, p, x, z);
    CarriedBack(g, initial, F, p, t);
  }

  lemma {:induction false} CarriedBack(g: Graph, initial: seq<set<nat>>, F: seq<set<nat>>, p: seq<nat>, t: nat)
    requires Closed(g) && Exceeds(g, initial, F) && IsPath(g, p) && p[|p| - 1] < |g| && t in initial[p[|p| - 1]]
    ensures t in F[p[0]]
    decreases |p|
  {
    if |p| > 1 {
      assert p[0 + 1] in g[p[0]];
      SubPath(g, p, 1, |p| - 1);
      assert p[1..|p| - 1 + 1] == p[1..];
      CarriedBack(g, initial, F, p[1..], t);
    }
    assert Required(g, initial, F, p[0], t);
  }

  /** The members of a cycle end with the same row. */
  lemma CycleRowsEqual(g: Graph, initial: seq<set<nat>>, F: seq<set<nat>>, x: nat, y: nat)
    requires IsSolution(g, initial, F) && x < |g| && y < |g| && Reach(g, x, y) && Reach(g, y, x)
    ensures F[x] == F[y]
  {
    forall t: nat ensures t in F[x] <==> t in F[y] {
      if InSolution(g, initial, x, t) {
        SolutionOfEdge(g, initial, y, x, t);
      }
      if InSolution(g, initial, y, t) {
        SolutionOfEdge(g, initial, x, y, t);
      }
    }
  }

  // ---------- The state of the search ----------

  /** INDEX, the used part of VERTICES, and the rows of F. A node is unvisited when its index
      is 0, finished when it is `infinity`, and on the stack otherwise. */
  datatype Search = Search(index: seq<nat>, stack: seq<nat>, rows: seq<set<nat>>)

  function Infinity(n: nat): nat {
    n + 2
  }

  ghost predicate Shape(g: Graph, s: Search) {
    && |s.index| == |s.rows| == |g| && NoRepeats(s.stack) && |s.stack| <= |g|
    && (forall k :: 0 <= k < |s.stack| ==> s.stack[k] < |g| && 1 <= s.index[s.stack[k]] <= k + 1)
    && (forall v :: 0 <= v < |g| ==> s.index[v] == 0 || s.index[v] == Infinity(|g|) || v in s.stack)
  }

  ghost predicate Finished(g: Graph, s: Search, v: nat) {
    v < |s.index| && s.index[v] == Infinity(|g|)
  }

  /** Rows hold at least their initial bits and at most the solution. */
  ghost predicate Bounded(g: Graph, initial: seq<set<nat>>, s: Search, v: nat)
    requires v < |s.rows| && v < |initial|
  {
    && initial[v] <= s.rows[v]
    && forall t :: t in s.rows[v] ==> InSolution(g, initial, v, t)
  }

  /** A finished node holds the solution, and so do its successors. */
  ghost predicate Solved(g: Graph, initial: seq<set<nat>>, s: Search, v: nat)
    requires v < |g| && |s.rows| == |g|
  {
    && (forall w :: w in g[v] ==> Finished(g, s, w))
    && (forall t :: InSolution(g, initial, v, t) ==> t in s.rows[v])
  }

  /** The edge from u to w has been taken into account. */
  ghost predicate EdgeDone(g: Graph, s: Search, u: nat, w: nat)
    requires u < |s.index| == |s.rows|
  {
    && w < |s.index| && s.index[w] != 0
    && (Finished(g, s, w) ==> s.rows[w] <= s.rows[u])
    && (forall m :: 0 <= m < |s.stack| && s.stack[m] == w ==> s.index[u] <= m + 1)
  }

  /** What holds of a node on the stack whose call of traverse has returned: its index fell,
      its edges are done, and none of them leads past a call that is still running. */
  ghost predicate Returned(g: Graph, s: Search, k: nat, open: set<nat>)
    requires Shape(g, s) && k < |s.stack|
  {
    var u := s.stack[k];
    && s.index[u] <= k
    && (forall w :: w in g[u] ==> EdgeDone(g, s, u, w))
    && (forall j, m :: k < j <= m < |s.stack| && s.stack[m] in g[u] ==> s.stack[j] !in open)
  }

  /** The node at place k of the stack reaches the node that its index names. */
  ghost predicate LowReach(g: Graph, s: Search, k: nat)
    requires Shape(g, s) && k < |s.stack|
  {
    Reach(g, s.stack[k], s.stack[s.index[s.stack[k]] - 1])
  }

  /** The invariant of the search; `open` holds the nodes whose calls are still running. */
  ghost predicate Inv(g: Graph, initial: seq<set<nat>>, s: Search, open: set<nat>) {
    && Closed(g) && |initial| == |g| && Shape(g, s)
    && (forall u :: u in open ==> u in s.stack)
    && (forall v :: 0 <= v < |g| ==> Bounded(g, initial, s, v))
    && (forall v :: 0 <= v < |g| && Finished(g, s, v) ==> Solved(g, initial, s, v))
    && (forall k :: 0 <= k < |s.stack| ==> LowReach(g, s, k))
    && (forall k :: 0 <= k < |s.stack| && s.stack[k] !in open ==> Returned(g, s, k, open))
  }

  /** Visited nodes are left alone. */
  ghost predicate Keeps(s: Search, s': Search) {
    && |s'.index| == |s.index| && |s'.rows| == |s.rows|
    && s.stack <= s'.stack
    && forall v :: 0 <= v < |s.index| && v < |s.rows| && s.index[v] != 0 ==>
      s'.index[v] == s.index[v] && s'.rows[v] == s.rows[v]
  }

  /** The nodes stacked above place n during the call for i: none still running, all below i
      in the search, none with a smaller index or a bit that i has not. */
  ghost predicate Above(g: Graph, s: Search, n: nat, i: nat, open: set<nat>)
    requires Shape(g, s) && i < |g|
  {
    forall k :: n <= k < |s.stack| ==> AboveAt(g, s, k, i, open)
  }

  ghost predicate AboveAt(g: Graph, s: Search, k: nat, i: nat, open: set<nat>)
    requires Shape(g, s) && i < |g| && k < |s.stack|
  {
    var u := s.stack[k];
    u !in open && s.index[u] >= s.index[i] && s.rows[u] <= s.rows[i] && Reach(g, i, u)
  }

  /** What a call of traverse for i leaves behind, when it started from s. */
  ghost predicate Traversed(g: Graph, s: Search, s': Search, i: nat, open: set<nat>)
    requires Shape(g, s) && Shape(g, s') && i < |g|
  {
    && Keeps(s, s') && s'.index[i] != 0
    && if Finished(g, s', i) then s'.stack == s.stack
       else && |s'.stack| > |s.stack| && s'.stack[|s.stack|] == i && s'.index[i] <= |s.stack|
            && Above(g, s', |s.stack|, i, open)
  }

  // ---------- Entering a node ----------

  function Push(s: Search, i: nat): Search
    requires i < |s.index|
  {
    Search(s.index[i := |s.stack| + 1], s.stack + [i], s.rows)
  }

  lemma StackRoom(g: Graph, s: Search, i: nat)
    requires Shape(g, s) && i < |g| && s.index[i] == 0
    ensures |s.stack| < |g|
  {
    DistinctBound(s.stack + [i], |g|);
  }

  lemma PushShape(g: Graph, s: Search, i: nat)
    requires Shape(g, s) && i < |g| && s.index[i] == 0
    ensures Shape(g, Push(s, i))
  {
    var s' := Push(s, i);
    assert i !in s.stack;
    StackRoom(g, s, i);
    forall v | 0 <= v < |g| ensures s'.index[v] == 0 || s'.index[v] == Infinity(|g|) || v in s'.stack {
      if v == i {
        assert s'.stack[|s.stack|] == i;
      }
    }
  }

  lemma PushReturned(g: Graph, s: Search, i: nat, k: nat, open: set<nat>)
    requires Shape(g, s) && i < |g| && s.index[i] == 0 && Shape(g, Push(s, i))
    requires k < |s.stack| && Returned(g, s, k, open)
    ensures Returned(g, Push(s, i), k, open + {i})
  {
    var s', u := Push(s, i), s.stack[k];
    assert i !in s.stack;
    forall w | w in g[u] ensures EdgeDone(g, s', u, w) && w != i {
      assert EdgeDone(g, s, u, w);
    }
    forall j, m | k < j <= m < |s'.stack| && s'.stack[m] in g[u] ensures s'.stack[j] !in open + {i} {
      assert m < |s.stack|;
    }
  }

  lemma PushInv(g: Graph, initial: seq<set<nat>>, s: Search, i: nat, open: set<nat>)
    requires Inv(g, initial, s, open) && i < |g| && s.index[i] == 0
    ensures Inv(g, initial, Push(s, i), open + {i})
  {
    var s' := Push(s, i);
    PushShape(g, s, i);
    StackRoom(g, s, i);
    ReachRefl(g, i);
    forall v | 0 <= v < |g| && Finished(g, s', v) ensures Solved(g, initial, s', v) {
      assert Finished(g, s, v) && Solved(g, initial, s, v);
      forall w | w in g[v] ensures Finished(g, s', w) {
        assert Finished(g, s, w);
      }
    }
    forall v | 0 <= v < |g| ensures Bounded(g, initial, s', v) {
      assert Bounded(g, initial, s, v);
    }
    forall k | 0 <= k < |s'.stack| ensures LowReach(g, s', k) {
      if k < |s.stack| {
        assert LowReach(g, s, k);
      }
    }
    forall k | 0 <= k < |s'.stack| && s'.stack[k] !in open + {i} ensures Returned(g, s', k, open + {i}) {
      PushReturned(g, s, i, k, open);
    }
  }

  // ---------- Taking an edge ----------

  /** Lowers the index of i to that of j if it is smaller, and ORs row j into row i. */
  function Fold(s: Search, i: nat, j: nat): Search
    requires i < |s.index| == |s.rows| && j < |s.index|
  {
    Search(if s.index[i] > s.index[j] then s.index[i := s.index[j]] else s.index, s.stack, s.rows[i := s.rows[i] + s.rows[j]])
  }

  /** Place n of the stack holds the running node i. */
  ghost predicate Running(g: Graph, s: Search, i: nat, n: nat, open: set<nat>) {
    Shape(g, s) && i in open && i < |g| && n < |s.stack| && s.stack[n] == i
  }

  lemma PlaceOnStack(g: Graph, s: Search, j: nat) returns (m: nat)
    requires Shape(g, s) && j < |g| && s.index[j] != 0 && !Finished(g, s, j)
    ensures m < |s.stack| && s.stack[m] == j && 1 <= s.index[j] <= m + 1
  {
    m :| 0 <= m < |s.stack| && s.stack[m] == j;
  }

  lemma FoldShape(g: Graph, initial: seq<set<nat>>, s: Search, i: nat, j: nat, n: nat, open: set<nat>)
    requires Inv(g, initial, s, open) && Running(g, s, i, n, open) && j in g[i] && s.index[j] != 0
    ensures j < |g| && 1 <= s.index[i] <= n + 1 && Shape(g, Fold(s, i, j))
    ensures forall v :: 0 <= v < |g| ==> (Finished(g, Fold(s, i, j), v) <==> Finished(g, s, v))
  {
    assert j < |g|;
    var s' := Fold(s, i, j);
    forall k | 0 <= k < |s.stack| ensures 1 <= s'.index[s.stack[k]] <= k + 1 {
      assert 1 <= s.index[s.stack[k]] <= k + 1;
    }
    forall v | 0 <= v < |g| ensures s'.index[v] == 0 || s'.index[v] == Infinity(|g|) || v in s'.stack {
      assert s.index[v] == 0 || s.index[v] == Infinity(|g|) || v in s.stack;
    }
  }

  lemma FoldLow(g: Graph, initial: seq<set<nat>>, s: Search, i: nat, j: nat, n: nat, open: set<nat>)
    requires Inv(g, initial, s, open) && Running(g, s, i, n, open) && j in g[i] && s.index[j] != 0
    requires j < |g| && Shape(g, Fold(s, i, j))
    ensures LowReach(g, Fold(s, i, j), n)
  {
    assert LowReach(g, s, n);
    if s.index[i] > s.index[j] {
      var m := PlaceOnStack(g, s, j);
      assert LowReach(g, s, m);
      ReachEdge(g, i, j);
      ReachTrans(g, i, j, s.stack[s.index[j] - 1]);
    }
  }

  lemma FoldBounded(g: Graph, initial: seq<set<nat>>, s: Search, i: nat, j: nat)
    requires Closed(g) && |initial| == |g| == |s.rows| == |s.index| && i < |g| && j in g[i]
    requires Bounded(g, initial, s, i) && Bounded(g, initial, s, j)
    ensures Bounded(g, initial, Fold(s, i, j), i)
  {
    ReachEdge(g, i, j);
    forall t | t in s.rows[j] ensures InSolution(g, initial, i, t) {
      SolutionOfEdge(g, initial, i, j, t);
    }
  }

  lemma FoldInv(g: Graph, initial: seq<set<nat>>, s: Search, i: nat, j: nat, n: nat, open: set<nat>)
    requires Inv(g, initial, s, open) && Running(g, s, i, n, open) && j in g[i] && s.index[j] != 0
    ensures Inv(g, initial, Fold(s, i, j), open)
  {
    var s' := Fold(s, i, j);
    FoldShape(g, initial, s, i, j, n, open);
    FoldLow(g, initial, s, i, j, n, open);
    assert j < |g| && Bounded(g, initial, s, i) && Bounded(g, initial, s, j);
    FoldBounded(g, initial, s, i, j);
    forall v | 0 <= v < |g| ensures Bounded(g, initial, s', v) {
      assert Bounded(g, initial, s, v);
    }
    forall v | 0 <= v < |g| && Finished(g, s', v) ensures Solved(g, initial, s', v) {
      assert Solved(g, initial, s, v);
      forall w | w in g[v] ensures Finished(g, s', w) {
        assert Finished(g, s, w);
      }
    }
    forall k | 0 <= k < |s'.stack| ensures LowReach(g, s', k) {
      assert LowReach(g, s, k);
    }
    forall k | 0 <= k < |s'.stack| && s'.stack[k] !in open ensures Returned(g, s', k, open) {
      FoldReturned(g, s, i, j, k, open);
    }
  }

  lemma FoldReturned(g: Graph, s: Search, i: nat, j: nat, k: nat, open: set<nat>)
    requires Shape(g, s) && i < |g| && j < |g| && k < |s.stack| && Shape(g, Fold(s, i, j))
    requires s.stack[k] != i && Returned(g, s, k, open) && !Finished(g, s, i) && !Finished(g, Fold(s, i, j), i)
    ensures Returned(g, Fold(s, i, j), k, open)
  {
    var s', u := Fold(s, i, j), s.stack[k];
    forall w | w in g[u] ensures EdgeDone(g, s', u, w) {
      assert EdgeDone(g, s, u, w);
    }
  }

  lemma FoldEdges(g: Graph, initial: seq<set<nat>>, s: Search, i: nat, j: nat, n: nat, open: set<nat>, w: nat)
    requires Inv(g, initial, s, open) && Running(g, s, i, n, open) && j in g[i] && s.index[j] != 0
    requires w == j || EdgeDone(g, s, i, w)
    ensures EdgeDone(g, Fold(s, i, j), i, w)
  {
    var s' := Fold(s, i, j);
    FoldShape(g, initial, s, i, j, n, open);
    if w == j {
      forall m | 0 <= m < |s'.stack| && s'.stack[m] == j ensures s'.index[i] <= m + 1 {
        assert 1 <= s.index[j] <= m + 1;
      }
    }
  }

  lemma FoldAbove(g: Graph, initial: seq<set<nat>>, s: Search, i: nat, j: nat, n: nat, open: set<nat>)
    requires Inv(g, initial, s, open) && Running(g, s, i, n, open) && j in g[i] && s.index[j] != 0
    requires forall k :: n < k < |s.stack| ==> AboveAt(g, s, k, i, open) || AboveAt(g, s, k, j, open)
    ensures Shape(g, Fold(s, i, j)) && Above(g, Fold(s, i, j), n + 1, i, open)
  {
    var s' := Fold(s, i, j);
    FoldShape(g, initial, s, i, j, n, open);
    assert j < |g|;
    ReachEdge(g, i, j);
    forall k | n < k < |s'.stack| ensures AboveAt(g, s', k, i, open) {
      var u := s.stack[k];
      assert u != i;
      if AboveAt(g, s, k, i, open) {
      } else {
        assert AboveAt(g, s, k, j, open);
        ReachTrans(g, i, j, u);
      }
    }
  }

  // ---------- The loop over the successors of i ----------

  /** The loop of traverse(i), begun in state s0, has taken the first e edges. */
  ghost predicate InLoop(g: Graph, initial: seq<set<nat>>, s0: Search, s: Search, i: nat, open: set<nat>,
                         edges: seq<nat>, e: nat)
    requires Shape(g, s0) && i < |g| && e <= |edges|
  {
    && Inv(g, initial, s, open + {i}) && Running(g, s, i, |s0.stack|, open + {i})
    && Keeps(s0, s)
    && Above(g, s, |s0.stack| + 1, i, open + {i})
    && forall m :: 0 <= m < e ==> EdgeDone(g, s, i, edges[m])
  }

  /** The same after a possible recursive call for the next successor j. */
  ghost predicate InStep(g: Graph, initial: seq<set<nat>>, s0: Search, s: Search, i: nat, open: set<nat>,
                         edges: seq<nat>, e: nat)
    requires Shape(g, s0) && i < |g| && e < |edges| && edges[e] < |g|
  {
    && Inv(g, initial, s, open + {i}) && Running(g, s, i, |s0.stack|, open + {i})
    && Keeps(s0, s) && s.index[edges[e]] != 0
    && (forall k :: |s0.stack| < k < |s.stack| ==>
      AboveAt(g, s, k, i, open + {i}) || AboveAt(g, s, k, edges[e], open + {i}))
    && forall m :: 0 <= m < e ==> EdgeDone(g, s, i, edges[m])
  }

  lemma EnterLoop(g: Graph, initial: seq<set<nat>>, s0: Search, i: nat, open: set<nat>, edges: seq<nat>)
    requires Inv(g, initial, s0, open) && i < |g| && s0.index[i] == 0
    ensures InLoop(g, initial, s0, Push(s0, i), i, open, edges, 0)
  {
    PushInv(g, initial, s0, i, open);
  }

  lemma CallKeepsEdge(g: Graph, s: Search, s': Search, i: nat, w: nat)
    requires Shape(g, s) && Shape(g, s') && Keeps(s, s') && i < |g| && s.index[i] != 0
    requires EdgeDone(g, s, i, w)
    ensures EdgeDone(g, s', i, w)
  {
    forall m | 0 <= m < |s'.stack| && s'.stack[m] == w ensures s'.index[i] <= m + 1 {
      assert s'.index[w] <= m + 1;
      var k := PlaceOnStack(g, s, w);
      assert s'.stack[k] == w;
    }
  }

  lemma AfterCall(g: Graph, initial: seq<set<nat>>, s0: Search, s: Search, s': Search, i: nat, open: set<nat>,
                  edges: seq<nat>, e: nat)
    requires Shape(g, s0) && i < |g| && e < |edges| && edges[e] < |g|
    requires InLoop(g, initial, s0, s, i, open, edges, e) && s.index[edges[e]] == 0
    requires Inv(g, initial, s', open + {i}) && Traversed(g, s, s', edges[e], open + {i})
    ensures InStep(g, initial, s0, s', i, open, edges, e)
  {
    forall m | 0 <= m < e ensures EdgeDone(g, s', i, edges[m]) {
      CallKeepsEdge(g, s, s', i, edges[m]);
    }
    forall k | |s0.stack| < k < |s'.stack|
      ensures AboveAt(g, s', k, i, open + {i}) || AboveAt(g, s', k, edges[e], open + {i})
    {
      if k < |s.stack| {
        assert AboveAt(g, s, k, i, open + {i});
        assert s'.stack[k] == s.stack[k];
      }
    }
  }

  lemma NextEdge(g: Graph, initial: seq<set<nat>>, s0: Search, s: Search, i: nat, open: set<nat>, edges: seq<nat>,
                 e: nat)
    requires Shape(g, s0) && i < |g| && s0.index[i] == 0 && e < |edges| && edges[e] in g[i] && edges[e] < |g|
    requires InStep(g, initial, s0, s, i, open, edges, e)
    ensures InLoop(g, initial, s0, Fold(s, i, edges[e]), i, open, edges, e + 1)
  {
    var j, n := edges[e], |s0.stack|;
    FoldInv(g, initial, s, i, j, n, open + {i});
    FoldAbove(g, initial, s, i, j, n, open + {i});
    forall m | 0 <= m < e + 1 ensures EdgeDone(g, Fold(s, i, j), i, edges[m]) {
      FoldEdges(g, initial, s, i, j, n, open + {i}, edges[m]);
    }
  }

  /** When the index of i fell below its place, i stays on the stack. */
  lemma LeaveOnStack(g: Graph, initial: seq<set<nat>>, s0: Search, s: Search, i: nat, open: set<nat>, edges: seq<nat>)
    requires Shape(g, s0) && i < |g| && s0.index[i] == 0 && i !in open && g[i] == SetOf(edges)
    requires InLoop(g, initial, s0, s, i, open, edges, |edges|) && s.index[i] != |s0.stack| + 1
    ensures Inv(g, initial, s, open) && Traversed(g, s0, s, i, open)
  {
    var n := |s0.stack|;
    assert s.index[i] <= n + 1;
    forall k | 0 <= k < |s.stack| && s.stack[k] !in open ensures Returned(g, s, k, open) {
      if s.stack[k] == i {
        assert k == n;
        RootReturned(g, initial, s0, s, i, open, edges);
      } else {
        assert Returned(g, s, k, open + {i});
      }
    }
    ReachRefl(g, i);
    forall k | n <= k < |s.stack| ensures AboveAt(g, s, k, i, open) {
      if k > n {
        assert AboveAt(g, s, k, i, open + {i});
      }
    }
  }

  lemma RootReturned(g: Graph, initial: seq<set<nat>>, s0: Search, s: Search, i: nat, open: set<nat>, edges: seq<nat>)
    requires Shape(g, s0) && i < |g| && i !in open && g[i] == SetOf(edges)
    requires InLoop(g, initial, s0, s, i, open, edges, |edges|) && s.index[i] <= |s0.stack|
    ensures Shape(g, s) && |s0.stack| < |s.stack| && Returned(g, s, |s0.stack|, open)
  {
    var n := |s0.stack|;
    forall w | w in g[i] ensures EdgeDone(g, s, i, w) {
      var m :| 0 <= m < |edges| && edges[m] == w;
    }
    forall j | n < j < |s.stack| ensures s.stack[j] !in open {
      assert AboveAt(g, s, j, i, open + {i});
    }
  }

  // ---------- Popping a strongly connected component ----------

  /** Everything from place n of the stack on is one component, with i = stack[n] its root. */
  ghost predicate RootOk(g: Graph, initial: seq<set<nat>>, s: Search, i: nat, open: set<nat>, n: nat) {
    && Inv(g, initial, s, open + {i}) && Running(g, s, i, n, open + {i}) && s.index[i] == n + 1
    && Above(g, s, n + 1, i, open + {i})
    && forall w :: w in g[i] ==> EdgeDone(g, s, i, w)
  }

  lemma {:induction false} ReachesRoot(g: Graph, initial: seq<set<nat>>, s: Search, i: nat, open: set<nat>, n: nat,
                                       k: nat)
    requires RootOk(g, initial, s, i, open, n) && n <= k < |s.stack|
    ensures Reach(g, s.stack[k], i)
    decreases k
  {
    if k == n {
      ReachRefl(g, i);
    } else {
      assert AboveAt(g, s, k, i, open + {i});
      assert Returned(g, s, k, open + {i}) && LowReach(g, s, k);
      var low := s.index[s.stack[k]] - 1;
      ReachesRoot(g, initial, s, i, open, n, low);
      ReachTrans(g, s.stack[k], s.stack[low], i);
    }
  }

  /** No edge leaves the component except to a finished node, whose row the root already has. */
  lemma EdgeFromComponent(g: Graph, initial: seq<set<nat>>, s: Search, i: nat, open: set<nat>, n: nat, k: nat, w: nat)
    returns (m: nat)
    requires RootOk(g, initial, s, i, open, n) && n <= k < |s.stack| && w in g[s.stack[k]]
    ensures w < |g| && (Finished(g, s, w) ==> s.rows[w] <= s.rows[i])
    ensures !Finished(g, s, w) ==> n <= m < |s.stack| && s.stack[m] == w
  {
    var u := s.stack[k];
    assert EdgeDone(g, s, u, w) && s.index[u] >= n + 1 && s.rows[u] <= s.rows[i] by {
      if k > n {
        assert AboveAt(g, s, k, i, open + {i});
        assert Returned(g, s, k, open + {i});
      }
    }
    m := 0;
    if !Finished(g, s, w) {
      m := PlaceOnStack(g, s, w);
    }
  }

  /** The row of the root holds the initial bits of all that the component reaches. */
  lemma {:induction false} RootHasAll(g: Graph, initial: seq<set<nat>>, s: Search, i: nat, open: set<nat>, n: nat,
                                      k: nat, p: seq<nat>, t: nat)
    requires RootOk(g, initial, s, i, open, n) && n <= k < |s.stack|
    requires IsPath(g, p) && p[0] == s.stack[k] && p[|p| - 1] < |g| && t in initial[p[|p| - 1]]
    ensures t in s.rows[i]
    decreases |p|
  {
    if |p| == 1 {
      assert Bounded(g, initial, s, p[0]);
      if k > n {
        assert AboveAt(g, s, k, i, open + {i});
      }
    } else {
      assert p[0 + 1] in g[p[0]];
      var m := EdgeFromComponent(g, initial, s, i, open, n, k, p[1]);
      SubPath(g, p, 1, |p| - 1);
      assert p[1..|p| - 1 + 1] == p[1..];
      if Finished(g, s, p[1]) {
        assert PathFromTo(g, p[1..], p[1], p[|p| - 1]);
        assert InSolution(g, initial, p[1], t);
        assert Solved(g, initial, s, p[1]);
      } else {
        RootHasAll(g, initial, s, i, open, n, m, p[1..], t);
      }
    }
  }

  lemma RootSolved(g: Graph, initial: seq<set<nat>>, s: Search, i: nat, open: set<nat>, n: nat, k: nat)
    requires RootOk(g, initial, s, i, open, n) && n <= k < |s.stack|
    ensures forall t :: t in s.rows[i] <==> InSolution(g, initial, s.stack[k], t)
  {
    var u := s.stack[k];
    ReachesRoot(g, initial, s, i, open, n, k);
    assert Bounded(g, initial, s, i);
    forall t | t in s.rows[i] ensures InSolution(g, initial, u, t) {
      SolutionOfEdge(g, initial, u, i, t);
    }
    forall t | InSolution(g, initial, u, t) ensures t in s.rows[i] {
      var y: nat :| Reach(g, u, y) && y < |initial| && t in initial[y];
      var p :| PathFromTo(g, p, u, y);
      RootHasAll(g, initial, s, i, open, n, k, p, t);
    }
  }

  /** s' is s with everything from place n of the stack on finished and given row i. */
  ghost predicate Popped(g: Graph, s: Search, s': Search, i: nat, n: nat)
    requires |s.index| == |s.rows| == |g| && i < |g| && n <= |s.stack|
  {
    && |s'.index| == |s'.rows| == |g| && s'.stack == s.stack[..n]
    && forall v :: 0 <= v < |g| ==>
      if v in s.stack[n..] then s'.index[v] == Infinity(|g|) && s'.rows[v] == s.rows[i]
      else s'.index[v] == s.index[v] && s'.rows[v] == s.rows[v]
  }

  lemma PopShape(g: Graph, initial: seq<set<nat>>, s: Search, s': Search, i: nat, open: set<nat>, n: nat)
    requires RootOk(g, initial, s, i, open, n) && Popped(g, s, s', i, n)
    ensures Shape(g, s') && forall k :: 0 <= k < n ==> s.stack[k] !in s.stack[n..]
    ensures forall v :: 0 <= v < |g| && Finished(g, s, v) ==> v !in s.stack[n..] && Finished(g, s', v)
  {
    hide InSolution, Reach, Bounded, Solved, Returned, LowReach, Closed;
    forall v | 0 <= v < |g| && Finished(g, s, v) ensures v !in s.stack[n..] {
      assert forall k :: 0 <= k < |s.stack| ==> s.index[s.stack[k]] <= k + 1;
    }
    forall v | 0 <= v < |g| ensures s'.index[v] == 0 || s'.index[v] == Infinity(|g|) || v in s'.stack {
      assert s.stack == s.stack[..n] + s.stack[n..];
      assert s.index[v] == 0 || s.index[v] == Infinity(|g|) || v in s.stack;
    }
  }

  lemma PopKeeps(g: Graph, initial: seq<set<nat>>, s: Search, s': Search, i: nat, open: set<nat>, n: nat, v: nat)
    requires RootOk(g, initial, s, i, open, n) && Popped(g, s, s', i, n) && v < |g| && v !in s.stack[n..]
    ensures |initial| == |g| && Bounded(g, initial, s', v) && (Finished(g, s', v) ==> Solved(g, initial, s', v))
  {
    hide InSolution, Returned, LowReach;
    PopShape(g, initial, s, s', i, open, n);
    assert Bounded(g, initial, s, v);
    if Finished(g, s', v) {
      assert Solved(g, initial, s, v);
      forall w | w in g[v] ensures Finished(g, s', w) {
        assert Finished(g, s, w);
      }
    }
  }

  lemma PopLow(g: Graph, initial: seq<set<nat>>, s: Search, s': Search, i: nat, open: set<nat>, n: nat, k: nat)
    requires RootOk(g, initial, s, i, open, n) && Popped(g, s, s', i, n) && Shape(g, s') && k < n
    ensures LowReach(g, s', k)
  {
    hide InSolution, Reach, Bounded, Solved, Returned;
    PopShape(g, initial, s, s', i, open, n);
    assert LowReach(g, s, k);
  }

  lemma PopInv(g: Graph, initial: seq<set<nat>>, s: Search, s': Search, i: nat, open: set<nat>, n: nat)
    requires RootOk(g, initial, s, i, open, n) && Popped(g, s, s', i, n)
    requires i !in open && forall u :: u in open ==> u in s.stack[..n]
    ensures Inv(g, initial, s', open)
  {
    hide InSolution, Reach, Bounded, Solved, Returned, LowReach, Above;
    PopShape(g, initial, s, s', i, open, n);
    forall v | 0 <= v < |g| ensures Bounded(g, initial, s', v) && (Finished(g, s', v) ==> Solved(g, initial, s', v)) {
      if v in s.stack[n..] {
        var k :| n <= k < |s.stack| && s.stack[k] == v;
        PopSolved(g, initial, s, s', i, open, n, k);
      } else {
        PopKeeps(g, initial, s, s', i, open, n, v);
      }
    }
    forall k | 0 <= k < |s'.stack| ensures LowReach(g, s', k) {
      PopLow(g, initial, s, s', i, open, n, k);
    }
    forall k | 0 <= k < |s'.stack| && s'.stack[k] !in open ensures Returned(g, s', k, open) {
      assert s.stack[k] != i;
      PopReturned(g, initial, s, s', i, open, n, k);
    }
  }

  lemma PopSolved(g: Graph, initial: seq<set<nat>>, s: Search, s': Search, i: nat, open: set<nat>, n: nat, k: nat)
    requires RootOk(g, initial, s, i, open, n) && Popped(g, s, s', i, n) && n <= k < |s.stack|
    ensures |initial| == |g| && Bounded(g, initial, s', s.stack[k]) && Solved(g, initial, s', s.stack[k])
  {
    var v := s.stack[k];
    PopShape(g, initial, s, s', i, open, n);
    assert s.stack[n..][k - n] == v;
    RootSolved(g, initial, s, i, open, n, k);
    assert Bounded(g, initial, s, v);
    ReachRefl(g, v);
    forall w | w in g[v] ensures Finished(g, s', w) {
      var m := EdgeFromComponent(g, initial, s, i, open, n, k, w);
      if !Finished(g, s, w) {
        assert s.stack[n..][m - n] == w;
      }
    }
  }

  lemma PopReturned(g: Graph, initial: seq<set<nat>>, s: Search, s': Search, i: nat, open: set<nat>, n: nat, k: nat)
    requires RootOk(g, initial, s, i, open, n) && Popped(g, s, s', i, n) && Shape(g, s')
    requires k < n && s.stack[k] !in open && s.stack[k] != i
    ensures Returned(g, s', k, open)
  {
    PopShape(g, initial, s, s', i, open, n);
    var u := s.stack[k];
    assert Returned(g, s, k, open + {i});
    forall w | w in g[u] ensures EdgeDone(g, s', u, w) {
      assert EdgeDone(g, s, u, w);
      assert w !in s.stack[n..];
    }
  }

  lemma PopStep(g: Graph, s: Search, s1: Search, s2: Search, i: nat, c: nat)
    requires |s.index| == |s.rows| == |g| && i < |g| && 0 < c <= |s.stack| && s.stack[c - 1] < |g|
    requires Popped(g, s, s1, i, c) && |s2.index| == |s2.rows| == |g| && s2.stack == s.stack[..c - 1]
    requires s2.index == s1.index[s.stack[c - 1] := Infinity(|g|)]
    requires s2.rows == s1.rows[s.stack[c - 1] := s.rows[i]]
    ensures Popped(g, s, s2, i, c - 1)
  {
    assert s.stack[c - 1..] == [s.stack[c - 1]] + s.stack[c..];
  }

  /** While the popping goes on, row i is still the row of the root. */
  lemma RowOfRoot(g: Graph, s: Search, s1: Search, i: nat, n: nat, c: nat)
    requires Shape(g, s) && i < |g| && n < c <= |s.stack| && s.stack[n] == i && Popped(g, s, s1, i, c)
    ensures |s1.index| == |s1.rows| == |g| && s1.rows[i] == s.rows[i]
    ensures s1.stack == s.stack[..c] && s.stack[c - 1] < |g| && (s.stack[c - 1] == i <==> c - 1 == n)
  {
  }

  lemma PopNone(g: Graph, s: Search, i: nat)
    requires Shape(g, s) && i < |g|
    ensures Popped(g, s, s, i, |s.stack|)
  {
  }

  // ---------- The pass itself ----------

  ghost function Unvisited(index: seq<nat>): set<nat> {
    set v: nat | v < |index| && index[v] == 0
  }

  lemma FewerUnvisited(g: Graph, s0: Search, s: Search, i: nat)
    requires Keeps(s0, s) && |s0.rows| == |s0.index| && i < |s0.index| && s0.index[i] == 0 && s.index[i] != 0
    ensures Unvisited(s.index) < Unvisited(s0.index)
  {
    assert i in Unvisited(s0.index) && i !in Unvisited(s.index);
  }

  lemma LoopVisited(g: Graph, initial: seq<set<nat>>, s0: Search, s: Search, i: nat, open: set<nat>, edges: seq<nat>,
                    e: nat)
    requires Shape(g, s0) && i < |g| && e <= |edges| && InLoop(g, initial, s0, s, i, open, edges, e)
    ensures Shape(g, s) && s.index[i] != 0 && Keeps(s0, s) && Inv(g, initial, s, open + {i})
  {
  }

  lemma NoCall(g: Graph, initial: seq<set<nat>>, s0: Search, s: Search, i: nat, open: set<nat>, edges: seq<nat>, e: nat)
    requires Shape(g, s0) && i < |g| && e < |edges| && edges[e] < |g|
    requires InLoop(g, initial, s0, s, i, open, edges, e) && edges[e] < |s.index| && s.index[edges[e]] != 0
    ensures InStep(g, initial, s0, s, i, open, edges, e)
  {
    forall k | |s0.stack| < k < |s.stack| ensures AboveAt(g, s, k, i, open + {i}) {
    }
  }

  lemma LoopEnds(g: Graph, initial: seq<set<nat>>, s0: Search, s: Search, i: nat, open: set<nat>, edges: seq<nat>)
    requires Shape(g, s0) && i < |g| && g[i] == SetOf(edges)
    requires InLoop(g, initial, s0, s, i, open, edges, |edges|) && i < |s.index| && s.index[i] == |s0.stack| + 1
    ensures RootOk(g, initial, s, i, open, |s0.stack|)
    ensures |s0.stack| < |s.stack| && s.stack[|s0.stack|] == i
  {
    forall w | w in g[i] ensures EdgeDone(g, s, i, w) {
      var m :| 0 <= m < |edges| && edges[m] == w;
    }
  }

  lemma OpenBelow(g: Graph, initial: seq<set<nat>>, s0: Search, s: Search, i: nat, open: set<nat>)
    requires Inv(g, initial, s0, open) && i < |g| && s0.index[i] == 0 && Keeps(s0, s)
    ensures i !in open && |s0.stack| <= |s.stack| && forall u :: u in open ==> u in s.stack[..|s0.stack|]
  {
  }

  lemma RootTraversed(g: Graph, initial: seq<set<nat>>, s0: Search, s: Search, s': Search, i: nat, open: set<nat>,
                      edges: seq<nat>)
    requires Shape(g, s0) && i < |g| && s0.index[i] == 0
    requires InLoop(g, initial, s0, s, i, open, edges, |edges|) && Shape(g, s')
    requires |s.index| == |s.rows| == |g| && |s0.stack| <= |s.stack| && Popped(g, s, s', i, |s0.stack|)
    ensures Traversed(g, s0, s', i, open)
  {
    hide InSolution, Reach, Bounded, Solved, Returned, LowReach, Closed, Above;
    var n := |s0.stack|;
    assert s.stack[n..][0] == i;
    forall v | 0 <= v < |g| && s0.index[v] != 0 ensures v !in s.stack[n..] {
      assert s.index[v] == s0.index[v];
      if s0.index[v] == Infinity(|g|) {
        assert forall k :: 0 <= k < |s.stack| ==> s.index[s.stack[k]] <= k + 1;
      } else {
        var k := PlaceOnStack(g, s0, v);
        assert s.stack[k] == v;
      }
    }
  }

  /** The component of i has been popped: traverse(i) is done. */
  lemma ComponentPopped(g: Graph, initial: seq<set<nat>>, s0: Search, s: Search, s': Search, i: nat, open: set<nat>,
                        edges: seq<nat>)
    requires Inv(g, initial, s0, open) && i < |g| && s0.index[i] == 0 && g[i] == SetOf(edges)
    requires InLoop(g, initial, s0, s, i, open, edges, |edges|) && i < |s.index| && s.index[i] == |s0.stack| + 1
    requires |s.index| == |s.rows| == |g| && |s0.stack| <= |s.stack| && Popped(g, s, s', i, |s0.stack|)
    ensures Inv(g, initial, s', open) && Traversed(g, s0, s', i, open)
  {
    LoopVisited(g, initial, s0, s, i, open, edges, |edges|);
    hide Inv, InLoop, RootOk, Popped, Traversed, Keeps;
    OpenBelow(g, initial, s0, s, i, open);
    LoopEnds(g, initial, s0, s, i, open, edges);
    PopInv(g, initial, s, s', i, open, |s0.stack|);
    PopShape(g, initial, s, s', i, open, |s0.stack|);
    RootTraversed(g, initial, s0, s, s', i, open, edges);
  }

  lemma StartInv(g: Graph, initial: seq<set<nat>>, s: Search)
    requires Closed(g) && |initial| == |g| == |s.index| && s.rows == initial && s.stack == []
    requires forall v :: 0 <= v < |g| ==> s.index[v] == 0
    ensures Inv(g, initial, s, {})
  {
    forall v | 0 <= v < |g| ensures Bounded(g, initial, s, v) {
      ReachRefl(g, v);
    }
  }

  lemma NothingLeft(g: Graph, initial: seq<set<nat>>, s: Search, s': Search, i: nat)
    requires Inv(g, initial, s, {}) && Inv(g, initial, s', {}) && s.stack == [] && i < |g| && s.index[i] == 0
    requires Traversed(g, s, s', i, {})
    ensures s'.stack == [] && Finished(g, s', i)
    ensures forall v :: 0 <= v < |g| && Finished(g, s, v) ==> Finished(g, s', v)
  {
  }

  /** Nodes without successors are left unvisited; their initial rows are their solutions. */
  lemma EndRows(g: Graph, initial: seq<set<nat>>, s: Search, relation: seq<seq<nat>>)
    requires g == GraphOf(relation) && Inv(g, initial, s, {})
    requires forall v :: 0 <= v < |g| ==> relation[v] == [] || Finished(g, s, v)
    ensures forall x, t :: 0 <= x < |g| && 0 <= t ==> (t in s.rows[x] <==> InSolution(g, initial, x, t))
  {
    forall x: nat, t: nat | x < |g| ensures t in s.rows[x] <==> InSolution(g, initial, x, t) {
      assert Bounded(g, initial, s, x);
      if Finished(g, s, x) {
        assert Solved(g, initial, s, x);
      } else if InSolution(g, initial, x, t) {
        var y: nat :| Reach(g, x, y) && y < |initial| && t in initial[y];
        ReachFirstStep(g, x, y);
        assert g[x] == {};
      }
    }
  }

  class DigraphPass {
    const relation: seq<seq<nat>>
    const rows: array<Word>
    const tokensetsize: nat
    const index: array<nat>
    const vertices: array<nat>
    var top: nat

    ghost predicate Valid()
      reads this
    {
      && index.Length == vertices.Length == |relation| + 1 && top <= |relation|
      && index != vertices && rows as object != index && rows as object != vertices
      && Start(|relation|, tokensetsize) <= rows.Length
      && Closed(GraphOf(relation))
    }

    ghost function State(): (s: Search)
      requires Valid()
      reads this, index, vertices, rows
      ensures |s.index| == |s.rows| == |relation| && |s.stack| == top
    {
      Search(index[..|relation|], vertices[1..top + 1], Rows(rows[..], tokensetsize, |relation|))
    }

    constructor (relation: seq<seq<nat>>, rows: array<Word>, tokensetsize: nat)
      requires Closed(GraphOf(relation)) && Start(|relation|, tokensetsize) <= rows.Length
      ensures Valid() && this.relation == relation && this.rows == rows && this.tokensetsize == tokensetsize
      ensures top == 0 && fresh(index) && fresh(vertices)
    {
      this.relation := relation;
      this.rows := rows;
      this.tokensetsize := tokensetsize;
      index := new nat[|relation| + 1];
      vertices := new nat[|relation| + 1];
      top := 0;
    }

    method Traverse(i: nat, ghost initial: seq<set<nat>>, ghost open: set<nat>)
      requires Valid() && Inv(GraphOf(relation), initial, State(), open)
      requires i < |relation| && index[i] == 0
      modifies this, rows, index, vertices
      ensures Valid() && Inv(GraphOf(relation), initial, State(), open)
      ensures Traversed(GraphOf(relation), old(State()), State(), i, open)
      decreases Unvisited(index[..|relation|]), 2
    {
      hide Inv, InLoop, Traversed, Shape, Keeps, RowSet, Row, Mask;
      ghost var g, s0 := GraphOf(relation), State();
      var height := Enter(i, initial, open);
      TakeEdges(i, initial, open, s0);
      Leave(i, height, initial, open, s0);
    }

    /** What is left of traverse after the loop: the component of i is popped if i is its root. */
    method Leave(i: nat, height: nat, ghost initial: seq<set<nat>>, ghost open: set<nat>, ghost s0: Search)
      requires Valid() && Inv(GraphOf(relation), initial, s0, open) && i < |relation| && s0.index[i] == 0
      requires height == |s0.stack| + 1
      requires InLoop(GraphOf(relation), initial, s0, State(), i, open, relation[i], |relation[i]|)
      modifies this, rows, index, vertices
      ensures Valid() && Inv(GraphOf(relation), initial, State(), open)
      ensures Traversed(GraphOf(relation), s0, State(), i, open)
    {
      ghost var g, s := GraphOf(relation), State();
      LoopVisited(g, initial, s0, s, i, open, relation[i], |relation[i]|);
      hide Inv, InLoop, RootOk, Popped, Traversed, Keeps, RowSet, Row, Mask;
      OpenBelow(g, initial, s0, s, i, open);
      if index[i] == height {
        LoopEnds(g, initial, s0, s, i, open, relation[i]);
        Pop(i, |s0.stack|);
        ComponentPopped(g, initial, s0, s, State(), i, open, relation[i]);
      } else {
        LeaveOnStack(g, initial, s0, s, i, open, relation[i]);
      }
    }

    /** `VERTICES[++top] = i; INDEX[i] = height = top` */
    method Enter(i: nat, ghost initial: seq<set<nat>>, ghost open: set<nat>) returns (height: nat)
      requires Valid() && Inv(GraphOf(relation), initial, State(), open)
      requires i < |relation| && index[i] == 0
      modifies this, index, vertices
      ensures Valid() && height == old(top) + 1
      ensures Shape(GraphOf(relation), old(State())) && State() == Push(old(State()), i)
      ensures InLoop(GraphOf(relation), initial, old(State()), State(), i, open, relation[i], 0)
    {
      hide RowSet, Row, Mask;
      ghost var s0 := State();
      EnterLoop(GraphOf(relation), initial, s0, i, open, relation[i]);
      StackRoom(GraphOf(relation), s0, i);
      top := top + 1;
      vertices[top] := i;
      index[i] := top;
      height := top;
      assert vertices[1..top + 1] == s0.stack + [i];
      assert State() == Push(s0, i);
    }

    /** The loop over the successors of i. */
    method TakeEdges(i: nat, ghost initial: seq<set<nat>>, ghost open: set<nat>, ghost s0: Search)
      requires Valid() && i < |relation| && Shape(GraphOf(relation), s0) && s0.index[i] == 0
      requires InLoop(GraphOf(relation), initial, s0, State(), i, open, relation[i], 0)
      modifies this, rows, index, vertices
      ensures Valid() && InLoop(GraphOf(relation), initial, s0, State(), i, open, relation[i], |relation[i]|)
      decreases Unvisited(s0.index), 1
    {
      hide RowSet, Row, Mask;
      var rp := 0;
      while rp < |relation[i]|
        invariant Valid() && rp <= |relation[i]|
        invariant InLoop(GraphOf(relation), initial, s0, State(), i, open, relation[i], rp)
      {
        TakeEdge(i, rp, initial, open, s0);
        rp := rp + 1;
      }
    }

    method TakeEdge(i: nat, rp: nat, ghost initial: seq<set<nat>>, ghost open: set<nat>, ghost s0: Search)
      requires Valid() && i < |relation| && rp < |relation[i]| && Shape(GraphOf(relation), s0) && s0.index[i] == 0
      requires InLoop(GraphOf(relation), initial, s0, State(), i, open, relation[i], rp)
      modifies this, rows, index, vertices
      ensures Valid() && InLoop(GraphOf(relation), initial, s0, State(), i, open, relation[i], rp + 1)
      decreases Unvisited(s0.index), 0
    {
      hide RowSet, Row, Mask, Inv, Above, EdgeDone, Bounded, Solved;
      ghost var g, s := GraphOf(relation), State();
      var j := relation[i][rp];
      assert j in g[i] && j < |relation|;
      LoopVisited(g, initial, s0, s, i, open, relation[i], rp);
      if index[j] == 0 {
        FewerUnvisited(g, s0, s, i);
        Traverse(j, initial, open + {i});
        AfterCall(g, initial, s0, s, State(), i, open, relation[i], rp);
      } else {
        NoCall(g, initial, s0, s, i, open, relation[i], rp);
      }
      ghost var s1 := State();
      FoldInto(i, j);
      NextEdge(g, initial, s0, s1, i, open, relation[i], rp);
    }

    /** Lowers index[i] to index[j] if need be and ORs row j into row i. */
    method FoldInto(i: nat, j: nat)
      requires Valid() && i < |relation| && j < |relation|
      modifies rows, index
      ensures Valid() && State() == Fold(old(State()), i, j)
    {
      hide RowSet, Row, Mask;
      ghost var s := State();
      if index[i] > index[j] {
        index[i] := index[j];
      }
      assert index[..|relation|] == if s.index[i] > s.index[j] then s.index[i := s.index[j]] else s.index;
      var base := RowPointer(i, tokensetsize);
      var fp2 := RowPointer(j, tokensetsize);
      OrRow(rows, base, fp2, tokensetsize, |relation|, i, j);
    }

    /** Pops the component of i, giving every member the row of i. */
    method Pop(i: nat, ghost n: nat)
      requires Valid() && i < |relation| && n < top && vertices[n + 1] == i && Shape(GraphOf(relation), State())
      modifies this, rows, index
      ensures Valid() && Popped(GraphOf(relation), old(State()), State(), i, n)
    {
      hide Popped, Shape, RowSet, Row, Mask;
      ghost var g, s := GraphOf(relation), State();
      var base := RowPointer(i, tokensetsize);
      var done := false;
      assert s.stack[n] == i;
      PopNone(g, s, i);
      while !done
        invariant Valid() && vertices[..] == old(vertices[..])
        invariant if done then top == n else n < top <= |s.stack|
        invariant Popped(g, s, State(), i, top)
        decreases top
      {
        ghost var s1, t := State(), top;
        RowOfRoot(g, s, s1, i, n, top);
        assert vertices[top] == s1.stack[top - 1] == s.stack[top - 1];
        done := PopOne(i, base);
        PopStep(g, s, s1, State(), i, t);
      }
    }

    /** `j = VERTICES[top--]; INDEX[j] = infinity`, and the copy of row i unless j is i. */
    method PopOne(i: nat, base: nat) returns (done: bool)
      requires Valid() && i < |relation| && top > 0 && vertices[top] < |relation| && base == Start(i, tokensetsize)
      modifies this, rows, index
      ensures Valid() && top == old(top) - 1 && done == (vertices[old(top)] == i)
      ensures State().stack == old(State()).stack[..top]
      ensures State().index == old(State()).index[vertices[old(top)] := Infinity(|relation|)]
      ensures State().rows == old(State()).rows[vertices[old(top)] := old(State()).rows[i]]
    {
      hide RowSet, Row, Mask;
      ghost var s := State();
      var infinity := Infinity(|relation|);
      var j := vertices[top];
      top := top - 1;
      index[j] := infinity;
      assert index[..|relation|] == s.index[j := infinity];
      if i == j {
        done := true;
      } else {
        var fp2 := RowPointer(j, tokensetsize);
        CopyRow(rows, fp2, base, tokensetsize, |relation|, j, i);
        done := false;
      }
      assert vertices[1..top + 1] == s.stack[..top];
    }

    /** digraph */
    method Run()
      requires Valid() && top == 0
      modifies this, rows, index, vertices
      ensures Valid()
      ensures var initial := old(Rows(rows[..], tokensetsize, |relation|));
              forall x, t :: 0 <= x < |relation| && 0 <= t ==>
                (t in Rows(rows[..], tokensetsize, |relation|)[x] <==> InSolution(GraphOf(relation), initial, x, t))
    {
      hide RowSet, Row, Mask;
      ghost var g, initial := GraphOf(relation), Rows(rows[..], tokensetsize, |relation|);
      for i := 0 to |relation|
        invariant Valid() && top == 0 && Rows(rows[..], tokensetsize, |relation|) == initial
        invariant forall v :: 0 <= v < i ==> index[v] == 0
      {
        index[i] := 0;
      }
      StartInv(g, initial, State());
      for i := 0 to |relation|
        invariant Valid() && top == 0 && Inv(g, initial, State(), {})
        invariant forall v :: 0 <= v < i ==> relation[v] == [] || Finished(g, State(), v)
      {
        if index[i] == 0 && relation[i] != [] {
          ghost var s := State();
          Traverse(i, initial, {});
          NothingLeft(g, initial, s, State(), i);
        }
      }
      EndRows(g, initial, State(), relation);
    }
  }
}
