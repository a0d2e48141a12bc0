/** State stacks of an LR parser: paths of the automaton, and what a complete item says about
    the top of the stack. */
module Stacks {
  import opened Sequences
  import opened Graphs
  import opened Grammars
  import opened Items
  import opened Automata

  /** The stack is a path of the automaton from state 0. */
  ghost predicate IsStack(a: Automaton, stack: seq<nat>) {
    && |stack| > 0 && stack[0] == 0
    && (forall i :: 0 <= i < |stack| ==> stack[i] < |a.states|)
    && forall i :: 0 < i < |stack| ==> Edge(a, stack[i - 1], a.states[stack[i]].symbol, stack[i])
  }

  /** The symbols along the path. */
  ghost function Symbols(a: Automaton, stack: seq<nat>): (w: seq<int>)
    requires IsStack(a, stack)
    ensures |w| == |stack| - 1
  {
    seq(|stack| - 1, i requires 0 <= i < |stack| - 1 => a.states[stack[i + 1]].symbol)
  }

  lemma StackPrefix(a: Automaton, stack: seq<nat>, n: nat)
    requires IsStack(a, stack) && 0 < n <= |stack|
    ensures IsStack(a, stack[..n]) && Symbols(a, stack[..n]) == Symbols(a, stack)[..n - 1]
  {
  }

  lemma StackPush(a: Automaton, stack: seq<nat>, x: int, p: nat)
    requires IsStack(a, stack) && Edge(a, stack[|stack| - 1], x, p)
    ensures IsStack(a, stack + [p]) && Symbols(a, stack + [p]) == Symbols(a, stack) + [x]
  {
    var longer := stack + [p];
    forall i | 0 < i < |longer| ensures Edge(a, longer[i - 1], a.states[longer[i]].symbol, longer[i]) {
      if i < |stack| {
        assert Edge(a, stack[i - 1], a.states[stack[i]].symbol, stack[i]);
      }
    }
  }

  /** An item with d symbols before the dot, d > 0, is a kernel item: its state is entered over the
      symbol before the dot, from a state that holds the item with the dot one place back. */
  lemma ItemStepsBack(g: Grammar, a: Automaton, s: nat, q: nat, r: nat, d: nat)
    requires Valid(g) && IsAutomaton(g, a) && IsRule(g, r) && r > FIRST_RULE && 0 < d <= |Rhs(g, r)|
    requires q < |a.states| && Edge(a, s, a.states[q].symbol, q)
    requires g.rrhs[r] + d in ItemsOf(g, a.states[q])
    ensures s < |a.states| && a.states[q].symbol == Rhs(g, r)[d - 1] && g.rrhs[r] + (d - 1) in ItemsOf(g, a.states[s])
  {
    hide IsAutomaton;
    var i, k := g.rrhs[r] + d, SetOf(a.states[q].items);
    RhsSymbol(g, r, d - 1);
    MovedIsKernel(g, k, r, d);
    EdgeGivesKernel(g, a, s, a.states[q].symbol, q);
    StateItems(g, a, q);
    assert g.ritem[i - 1] == Rhs(g, r)[d - 1];
    var j :| j in ItemsOf(g, a.states[s]) && j < |g.ritem| && g.ritem[j] == a.states[q].symbol && j + 1 == i;
  }

  /** Closure adds only items with nothing before the dot. */
  lemma MovedIsKernel(g: Grammar, k: set<nat>, r: nat, d: nat)
    requires Valid(g) && IsRule(g, r) && 0 < d <= |Rhs(g, r)| && g.rrhs[r] + d in ClosureSet(g, k)
    ensures g.rrhs[r] + d in k
  {
    var i := g.rrhs[r] + d;
    if i !in k {
      var s: nat :| s < |g.rlhs| && Pulled(g, k, s) && g.rrhs[s] == i;
      assert ValidRule(g, s) && ValidRule(g, r);
      OneRuleOfItem(g, i, r, s);
      assert false;
    }
  }

  /** The start state is entered by no transition and holds no user item past its first symbol. */
  lemma NotAtBottom(g: Grammar, a: Automaton, r: nat, d: nat)
    requires Valid(g) && IsAutomaton(g, a) && IsRule(g, r) && r > FIRST_RULE && 0 < d <= |Rhs(g, r)|
    ensures g.rrhs[r] + d !in ItemsOf(g, a.states[0])
  {
    if g.rrhs[r] + d in ItemsOf(g, a.states[0]) {
      MovedIsKernel(g, SetOf(a.states[0].items), r, d);
      RulesAscend(g, FIRST_RULE, r);
      assert false;
    }
  }

  /** If the state on top holds rule r with d symbols before the dot, those symbols are on top of
      the stack, and the state below them holds the rule with the dot in front. */
  lemma {:induction false} ItemOnStack(g: Grammar, a: Automaton, stack: seq<nat>, r: nat, d: nat)
    requires Valid(g) && IsAutomaton(g, a) && IsStack(a, stack) && IsRule(g, r) && r > FIRST_RULE && d <= |Rhs(g, r)|
    requires g.rrhs[r] + d in ItemsOf(g, a.states[stack[|stack| - 1]])
    ensures d < |stack| && Symbols(a, stack)[|stack| - 1 - d..] == Rhs(g, r)[..d]
    ensures g.rrhs[r] in ItemsOf(g, a.states[stack[|stack| - 1 - d]])
    decreases d
  {
    hide Valid, IsAutomaton, ItemsOf, Edge;
    if d > 0 {
      var n := |stack| - 1;
      NotAtBottom(g, a, r, d);
      assert n > 0;
      assert Edge(a, stack[n - 1], a.states[stack[n]].symbol, stack[n]);
      ItemStepsBack(g, a, stack[n - 1], stack[n], r, d);
      StackPrefix(a, stack, n);
      ItemOnStack(g, a, stack[..n], r, d - 1);
      assert Rhs(g, r)[..d] == Rhs(g, r)[..d - 1] + [Rhs(g, r)[d - 1]];
      assert Symbols(a, stack)[n - d..] == Symbols(a, stack[..n])[n - d..] + [a.states[stack[n]].symbol];
    }
  }

  /** A state that holds the first item of a rule has a goto on its left-hand side. */
  lemma LhsGoto(g: Grammar, a: Automaton, q: nat, r: nat) returns (p: nat)
    requires Valid(g) && IsAutomaton(g, a) && q < |a.states| && IsRule(g, r) && r > FIRST_RULE
    requires g.rrhs[r] in ItemsOf(g, a.states[q])
    ensures Edge(a, q, g.rlhs[r], p)
  {
    hide IsAutomaton, Edge;
    var k := SetOf(a.states[q].items);
    FirstIsNotKernel(g, a, q, r);
    var s: nat :| s < |g.rlhs| && Pulled(g, k, s) && g.rrhs[s] == g.rrhs[r];
    assert ValidRule(g, s) && ValidRule(g, r);
    OneRuleOfItem(g, g.rrhs[r], r, s);
    var i := ItemBeforeLhs(g, k, r);
    p := EdgeExists(g, a, q, i);
  }

  lemma FirstIsNotKernel(g: Grammar, a: Automaton, q: nat, r: nat)
    requires Valid(g) && IsAutomaton(g, a) && q < |a.states| && IsRule(g, r) && r > FIRST_RULE
    ensures g.rrhs[r] !in SetOf(a.states[q].items)
  {
    assert ValidRule(g, r - 1);
    RulesAscend(g, FIRST_RULE, r);
    StateItems(g, a, q);
  }

  /** A rule that closure pulls in comes with an item in front of its left-hand side. */
  lemma ItemBeforeLhs(g: Grammar, k: set<nat>, r: nat) returns (i: nat)
    requires Valid(g) && IsRule(g, r) && Pulled(g, k, r)
    ensures i in ClosureSet(g, k) && i < |g.ritem| && g.ritem[i] == g.rlhs[r] > 0
  {
    var j, x :| j in k && Before(g, j, x) && IsFirstRule(g, x, r);
    var h := LeftGraph(g);
    LhsIsVar(g, r);
    var p :| PathFromTo(h, p, x - g.ntokens, g.rlhs[r] - g.ntokens);
    if |p| == 1 {
      i := j;
    } else {
      var n := |p| - 2;
      assert p[n + 1] in h[p[n]];
      assert LeftNodes(g, p[n], p[n + 1]);
      var s :| IsRule(g, s) && g.rlhs[s] == g.ntokens + p[n] && Leftmost(g, s) == g.ntokens + p[n + 1];
      SubPath(h, p, 0, n);
      LhsIsVar(g, s);
      assert IsFirstRule(g, x, s);
      assert Pulled(g, k, s);
      RuleStarts(g, s);
      i := g.rrhs[s];
    }
  }

  // ---------- Shifting and reducing keep what the stack derives ----------

  lemma ShiftDerives(g: Grammar, a: Automaton, stack: seq<nat>, consumed: seq<int>, x: nat, p: nat)
    requires Valid(g) && IsStack(a, stack) && Derives(g, Symbols(a, stack), consumed)
    requires Edge(a, stack[|stack| - 1], x, p)
    ensures IsStack(a, stack + [p]) && Derives(g, Symbols(a, stack + [p]), consumed + [x])
  {
    hide Valid, Edge, Derives;
    StackPush(a, stack, x, p);
    DerivesRefl(g, [x]);
    DerivesConcat(g, Symbols(a, stack), consumed, [x], [x]);
  }

  /** A complete rule can be reduced: its right-hand side is on top of the stack, there is a goto
      below it, and the shorter stack still derives what has been consumed. */
  lemma ReduceDerives(g: Grammar, a: Automaton, stack: seq<nat>, consumed: seq<int>, r: nat) returns (p: nat)
    requires Valid(g) && IsAutomaton(g, a) && IsStack(a, stack) && Derives(g, Symbols(a, stack), consumed)
    requires IsRule(g, r) && r > FIRST_RULE && Complete(g, ItemsOf(g, a.states[stack[|stack| - 1]]), r)
    ensures |Rhs(g, r)| < |stack|
    ensures Edge(a, stack[|stack| - 1 - |Rhs(g, r)|], g.rlhs[r], p)
    ensures var shorter := stack[..|stack| - |Rhs(g, r)|] + [p];
      IsStack(a, shorter) && Derives(g, Symbols(a, shorter), consumed)
  {
    hide Valid, IsAutomaton, ItemsOf, Edge, Derives, IsStack, Symbols;
    var n := |Rhs(g, r)|;
    RhsLength(g, r);
    TopInRange(a, stack);
    ItemOnStack(g, a, stack, r, n);
    assert Rhs(g, r)[..n] == Rhs(g, r);
    var rest := stack[..|stack| - n];
    StackPrefix(a, stack, |stack| - n);
    TopInRange(a, rest);
    p := LhsGoto(g, a, rest[|rest| - 1], r);
    StackPush(a, rest, g.rlhs[r], p);
    ReplaceDerives(g, Symbols(a, stack), |rest| - 1, r, consumed);
  }

  lemma TopInRange(a: Automaton, stack: seq<nat>)
    requires IsStack(a, stack)
    ensures |stack| > 0 && stack[|stack| - 1] < |a.states|
  {
  }

  /** Putting the left-hand side of a rule for its right-hand side loses no derivation. */
  lemma ReplaceDerives(g: Grammar, w: seq<int>, k: nat, r: nat, consumed: seq<int>)
    requires Valid(g) && IsRule(g, r) && k <= |w| && w[k..] == Rhs(g, r) && Derives(g, w, consumed)
    ensures Derives(g, w[..k] + [g.rlhs[r]], consumed)
  {
    hide Valid, Derives;
    DerivesRule(g, r);
    DerivesInContext(g, w[..k], [g.rlhs[r]], w[k..], []);
    assert w[..k] + w[k..] + [] == w;
    assert w[..k] + [g.rlhs[r]] + [] == w[..k] + [g.rlhs[r]];
    DerivesTrans(g, w[..k] + [g.rlhs[r]], w, consumed);
  }

  lemma RhsLength(g: Grammar, r: nat)
    requires Valid(g) && IsRule(g, r)
    ensures g.rrhs[r] + |Rhs(g, r)| + 1 == g.rrhs[r + 1]
  {
    assert ValidRule(g, r);
  }
}
