/** The relations between gotos from which byacc/lalr.c computes lookaheads: direct reads,
    reads, includes and lookback, as DeRemer and Pennello define them. */
module Relations {
  import opened Graphs
  import opened Sequences
  import opened Grammars
  import opened Items
  import opened Automata
  import opened Gotos

  /** x derives the empty string. */
  ghost predicate IsNullable(g: Grammar, x: int)
    requires Valid(g)
  {
    Derives(g, [x], [])
  }

  ghost predicate AllNullable(g: Grammar, w: seq<int>)
    requires Valid(g)
  {
    forall i :: 0 <= i < |w| ==> IsNullable(g, w[i])
  }

  // ---------- Walks ----------

  /** The states met on the way from q over the symbols of w. */
  ghost predicate IsWalk(a: Automaton, q: nat, w: seq<int>, states: seq<nat>) {
    && |states| == |w| + 1 && states[0] == q && q < |a.states|
    && forall j :: 0 <= j < |w| ==> Edge(a, states[j], w[j], states[j + 1])
  }

  ghost predicate Walks(a: Automaton, q: nat, w: seq<int>, p: nat) {
    exists states :: IsWalk(a, q, w, states) && states[|w|] == p
  }

  lemma {:induction false} WalkUnique(g: Grammar, a: Automaton, q: nat, w: seq<int>, s: seq<nat>, t: seq<nat>, j: nat)
    requires Valid(g) && IsAutomaton(g, a) && IsWalk(a, q, w, s) && IsWalk(a, q, w, t) && j <= |w|
    ensures s[j] == t[j]
  {
    hide IsAutomaton, Valid;
    if j > 0 {
      WalkUnique(g, a, q, w, s, t, j - 1);
      assert Edge(a, s[j - 1], w[j - 1], s[j - 1 + 1]) && Edge(a, t[j - 1], w[j - 1], t[j - 1 + 1]);
      EdgeUnique(g, a, s[j - 1], w[j - 1], s[j], t[j]);
    }
  }

  lemma WalkPrefix(a: Automaton, q: nat, w: seq<int>, states: seq<nat>, j: nat)
    requires IsWalk(a, q, w, states) && j <= |w|
    ensures IsWalk(a, q, w[..j], states[..j + 1])
  {
  }

  /** From a state that holds the first item of a rule one can walk over its whole right-hand
      side, and the state reached holds its last item. */
  lemma {:induction false} RuleWalk(g: Grammar, a: Automaton, q: nat, r: nat, j: nat) returns (states: seq<nat>)
    requires Valid(g) && IsAutomaton(g, a) && q < |a.states| && IsRule(g, r) && r > FIRST_RULE
    requires g.rrhs[r] in ItemsOf(g, a.states[q]) && j <= |Rhs(g, r)|
    ensures IsWalk(a, q, Rhs(g, r)[..j], states)
    ensures states[j] < |a.states| && g.rrhs[r] + j in ItemsOf(g, a.states[states[j]])
    decreases j
  {
    hide IsAutomaton, Valid, ItemsOf;
    if j == 0 {
      states := [q];
    } else {
      var front := RuleWalk(g, a, q, r, j - 1);
      RhsSymbol(g, r, j - 1);
      var i := g.rrhs[r] + (j - 1);
      var p := EdgeExists(g, a, front[j - 1], i);
      states := front + [p];
      assert Rhs(g, r)[..j] == Rhs(g, r)[..j - 1] + [g.ritem[i]];
      forall k | 0 <= k < j ensures Edge(a, states[k], Rhs(g, r)[..j][k], states[k + 1]) {
        if k < j - 1 {
          assert Edge(a, front[k], Rhs(g, r)[..j - 1][k], front[k + 1]);
        }
      }
    }
  }

  /** A transition on a nonterminal puts the first items of its rules into the state left. */
  lemma RuleItemPresent(g: Grammar, a: Automaton, q: nat, x: int, p: nat, r: nat)
    requires Valid(g) && IsAutomaton(g, a) && Edge(a, q, x, p) && IsRule(g, r) && g.rlhs[r] == x
    ensures q < |a.states| && r > FIRST_RULE && g.rrhs[r] in ItemsOf(g, a.states[q])
  {
    EdgeGivesKernel(g, a, q, x, p);
    var c := ItemsOf(g, a.states[q]);
    var i :| i in c && i < |g.ritem| && g.ritem[i] == x;
    ClosureIsClosed(g, SetOf(a.states[q].items));
    NoStartInRules(g, a, q, i, r);
  }

  /** The start symbol stands in no right-hand side. */
  lemma NoStartInRules(g: Grammar, a: Automaton, q: nat, i: nat, r: nat)
    requires Valid(g) && IsAutomaton(g, a) && q < |a.states| && i in ItemsOf(g, a.states[q]) && i < |g.ritem|
    requires IsRule(g, r) && g.ritem[i] == g.rlhs[r]
    ensures r > FIRST_RULE
  {
    LhsIsVar(g, r);
    StateItems(g, a, q);
    ItemsAreItems(g, SetOf(a.states[q].items), i);
    var s := RuleOfItem(g, i, |g.rlhs|);
    AtItem(g, s, i);
    assert ValidRule(g, s);
  }

  lemma ItemsAreItems(g: Grammar, k: set<nat>, i: nat)
    requires Valid(g) && AreItems(g, k) && i in ClosureSet(g, k)
    ensures 1 <= i < |g.ritem|
  {
    if i !in k {
      var r: nat :| r < |g.rlhs| && Pulled(g, k, r) && g.rrhs[r] == i;
      RuleStarts(g, r);
      LowestRule(g, r);
    }
  }

  // ---------- The four relations ----------

  /** t is read directly after goto k: its target shifts token t, or it is the goto from the
      start state on the goal, after which $end is read. */
  ghost predicate DirectlyReads(g: Grammar, a: Automaton, m: GotoTable, k: nat, t: int)
    requires k < |m.toState|
  {
    (0 < t < g.ntokens && exists p :: Edge(a, m.toState[k], t, p)) || (t == END && k == 0)
  }

  /** Goto k reads goto l: l leaves the target of k over a nullable nonterminal. */
  ghost predicate Reads(g: Grammar, a: Automaton, m: GotoTable, k: nat, l: nat)
    requires Valid(g) && k < |m.toState|
  {
    exists x, p :: IsVar(g, x) && IsNullable(g, x) && GotoIs(a, m, l, m.toState[k], x, p)
  }

  /** Goto l = (p, B) includes goto k = (p', A): some rule A: beta B gamma has a nullable
      gamma, and beta leads from p' to p. */
  ghost predicate Includes(g: Grammar, a: Automaton, m: GotoTable, l: nat, k: nat)
    requires Valid(g)
  {
    exists r, j, p, p', q, q' :: IncludesBy(g, a, m, l, k, r, j, p, p', q, q')
  }

  ghost predicate IncludesBy(g: Grammar, a: Automaton, m: GotoTable, l: nat, k: nat, r: nat, j: nat, p: nat, p': nat,
                             q: nat, q': nat)
    requires Valid(g)
  {
    && IsRule(g, r) && GotoIs(a, m, k, p', g.rlhs[r], q')
    && j < |Rhs(g, r)| && IsVar(g, Rhs(g, r)[j]) && AllNullable(g, Rhs(g, r)[j + 1..])
    && Walks(a, p', Rhs(g, r)[..j], p) && GotoIs(a, m, l, p, Rhs(g, r)[j], q)
  }

  /** The reduction by rule r in state q looks back to goto k = (p, A): the right-hand side
      of r leads from p to q, and A is its left-hand side. */
  ghost predicate LooksBack(g: Grammar, a: Automaton, m: GotoTable, q: nat, r: nat, k: nat)
    requires Valid(g)
  {
    IsRule(g, r) && exists p, p' :: GotoIs(a, m, k, p, g.rlhs[r], p') && Walks(a, p, Rhs(g, r), q)
  }

  ghost function ReadsGraph(g: Grammar, a: Automaton, m: GotoTable): (h: Graph)
    requires Valid(g)
    ensures |h| == |m.toState| && Closed(h)
  {
    seq(|m.toState|, k requires 0 <= k < |m.toState| => set l: nat | l < |m.toState| && Reads(g, a, m, k, l))
  }

  ghost function IncludesGraph(g: Grammar, a: Automaton, m: GotoTable): (h: Graph)
    requires Valid(g)
    ensures |h| == |m.toState| && Closed(h)
  {
    seq(|m.toState|, (l: nat) => set k: nat | k < |m.toState| && Includes(g, a, m, l, k))
  }

  /** Token t can follow the reduction by rule r in state q: the reduction looks back to a
      goto i that includes, in any number of steps, a goto j that reads, in any number of
      steps, a goto k that reads t directly. */
  ghost predicate IsLookahead(g: Grammar, a: Automaton, m: GotoTable, q: nat, r: nat, t: int)
    requires Valid(g)
  {
    exists i, j, k :: LookaheadBy(g, a, m, q, r, t, i, j, k)
  }

  ghost predicate LookaheadBy(g: Grammar, a: Automaton, m: GotoTable, q: nat, r: nat, t: int, i: nat, j: nat, k: nat)
    requires Valid(g)
  {
    && LooksBack(g, a, m, q, r, i)
    && Reach(IncludesGraph(g, a, m), i, j)
    && Reach(ReadsGraph(g, a, m), j, k)
    && k < |m.toState| && DirectlyReads(g, a, m, k, t)
  }
}
