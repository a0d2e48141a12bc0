/** The correct-prefix property: the symbols on the stack of an LR parser, and so the tokens it has
    consumed, begin a sentential form of the grammar. */
module Prefixes {
  import opened Graphs
  import opened Grammars
  import opened Items
  import opened Sequences
  import opened Automata
  import opened Relations
  import opened Stacks

  /** w begins a sentential form that the goal derives. */
  ghost predicate Begins(g: Grammar, w: seq<int>)
    requires Valid(g)
  {
    exists u :: Derives(g, [Goal(g)], w + u)
  }

  /** Along leftmost symbols of rules, a nonterminal derives a form that starts with the last. */
  lemma {:induction false} LeftmostDerives(g: Grammar, p: seq<nat>) returns (v: seq<int>)
    requires Valid(g) && IsPath(LeftGraph(g), p)
    ensures Derives(g, [g.ntokens + p[0]], [g.ntokens + p[|p| - 1]] + v)
    decreases |p|
  {
    hide Derives;
    var h := LeftGraph(g);
    if |p| == 1 {
      v := [];
      assert [g.ntokens + p[0]] + [] == [g.ntokens + p[0]];
      DerivesRefl(g, [g.ntokens + p[0]]);
    } else {
      assert p[0 + 1] in h[p[0]];
      assert LeftNodes(g, p[0], p[1]);
      var q :| IsRule(g, q) && g.rlhs[q] == g.ntokens + p[0] && Leftmost(g, q) == g.ntokens + p[1];
      SubPath(h, p, 1, |p| - 1);
      assert p[1..|p| - 1 + 1] == p[1..];
      var u := LeftmostDerives(g, p[1..]);
      RuleBegins(g, q);
      v := u + Rhs(g, q)[1..];
      OneMoreRule(g, q, [g.ntokens + p[|p| - 1]] + u);
      assert [g.ntokens + p[|p| - 1]] + v == [g.ntokens + p[|p| - 1]] + u + Rhs(g, q)[1..];
    }
  }

  lemma RuleBegins(g: Grammar, q: nat)
    requires Valid(g) && IsRule(g, q) && Leftmost(g, q) >= 0
    ensures Rhs(g, q) != [] && Rhs(g, q)[0] == Leftmost(g, q)
  {
    assert ValidRule(g, q);
    AtItem(g, q, g.rrhs[q]);
  }

  lemma OneMoreRule(g: Grammar, q: nat, w: seq<int>)
    requires Valid(g) && IsRule(g, q) && Rhs(g, q) != [] && Derives(g, [Rhs(g, q)[0]], w)
    ensures Derives(g, [g.rlhs[q]], w + Rhs(g, q)[1..])
  {
    hide Derives, Valid;
    DerivesRule(g, q);
    DerivesInContext(g, [], [Rhs(g, q)[0]], w, Rhs(g, q)[1..]);
    assert [] + [Rhs(g, q)[0]] + Rhs(g, q)[1..] == Rhs(g, q) && [] + w + Rhs(g, q)[1..] == w + Rhs(g, q)[1..];
    DerivesTrans(g, [g.rlhs[q]], Rhs(g, q), w + Rhs(g, q)[1..]);
  }

  /** A kernel item before a nonterminal lies in a user rule, behind its first symbol. */
  lemma KernelRule(g: Grammar, a: Automaton, q: nat, j: nat) returns (r: nat, d: nat)
    requires Valid(g) && IsAutomaton(g, a) && 0 < q < |a.states| && j in SetOf(a.states[q].items)
    requires j != 2
    ensures IsRule(g, r) && r > FIRST_RULE && 0 < d <= |Rhs(g, r)| && j == g.rrhs[r] + d
    ensures j < |g.ritem| && (g.ritem[j] >= 0 ==> d < |Rhs(g, r)| && Rhs(g, r)[d] == g.ritem[j])
  {
    hide IsAutomaton;
    StateItems(g, a, q);
    r := RuleOfItem(g, j, |g.rlhs|);
    AtItem(g, r, j);
    RulesAscend(g, r, r + 1);
    if r == FIRST_RULE {
      assert false;
    }
    FirstIsNotKernel(g, a, q, r);
    RhsLength(g, r);
    d := j - g.rrhs[r];
  }

  /** A state on top that holds the first item of a rule: its left-hand side may come next. */
  lemma {:induction false} LhsMayFollow(g: Grammar, a: Automaton, stack: seq<nat>, r: nat) returns (u: seq<int>)
    requires Valid(g) && IsAutomaton(g, a) && IsStack(a, stack) && IsRule(g, r) && r > FIRST_RULE
    requires g.rrhs[r] in ItemsOf(g, a.states[stack[|stack| - 1]])
    ensures Derives(g, [Goal(g)], Symbols(a, stack) + [g.rlhs[r]] + u)
    decreases |stack|, 1
  {
    hide Valid, IsAutomaton, Edge, Derives, Symbols, Pulled, ItemsOf;
    var q := stack[|stack| - 1];
    var k := SetOf(a.states[q].items);
    FirstIsPulled(g, a, q, r);
    var j, x, v := PulledDerives(g, k, r);
    if q == 0 {
      AtBottom(g, a, stack);
      StartItems(g, a);
      assert x == Goal(g);
      u := v;
      assert Symbols(a, stack) + [g.rlhs[r]] + u == [g.rlhs[r]] + v;
    } else {
      KernelIsHeld(g, a, q, j);
      var r2, d := KernelRule(g, a, q, j);
      var u2 := ItemMayFollow(g, a, stack, r2, d);
      var w := Rhs(g, r2);
      u := v + w[d + 1..] + u2;
      assert Symbols(a, stack) + w[d..] + u2 == Symbols(a, stack) + [x] + (w[d + 1..] + u2);
      DerivesInContext(g, Symbols(a, stack), [x], [g.rlhs[r]] + v, w[d + 1..] + u2);
      assert Symbols(a, stack) + ([g.rlhs[r]] + v) + (w[d + 1..] + u2) == Symbols(a, stack) + [g.rlhs[r]] + u;
      DerivesTrans(g, [Goal(g)], Symbols(a, stack) + w[d..] + u2, Symbols(a, stack) + [g.rlhs[r]] + u);
    }
  }

  lemma FirstIsPulled(g: Grammar, a: Automaton, q: nat, r: nat)
    requires Valid(g) && IsAutomaton(g, a) && q < |a.states| && IsRule(g, r) && r > FIRST_RULE
    requires g.rrhs[r] in ItemsOf(g, a.states[q])
    ensures Pulled(g, SetOf(a.states[q].items), r)
  {
    hide IsAutomaton, Pulled;
    var k := SetOf(a.states[q].items);
    FirstIsNotKernel(g, a, q, r);
    var s: nat :| s < |g.rlhs| && Pulled(g, k, s) && g.rrhs[s] == g.rrhs[r];
    assert ValidRule(g, r);
    PulledIsRule(g, k, s);
    assert ValidRule(g, s);
    OneRuleOfItem(g, g.rrhs[r], r, s);
  }

  lemma PulledIsRule(g: Grammar, k: set<nat>, s: nat)
    requires Valid(g) && Pulled(g, k, s)
    ensures IsRule(g, s)
  {
  }

  lemma PulledDerives(g: Grammar, k: set<nat>, r: nat) returns (j: nat, x: int, v: seq<int>)
    requires Valid(g) && IsRule(g, r) && Pulled(g, k, r)
    ensures j in k && Before(g, j, x) && j != 2 && Derives(g, [x], [g.rlhs[r]] + v)
  {
    hide Derives;
    j, x :| j in k && Before(g, j, x) && IsFirstRule(g, x, r);
    LhsIsVar(g, r);
    var p :| PathFromTo(LeftGraph(g), p, x - g.ntokens, g.rlhs[r] - g.ntokens);
    v := LeftmostDerives(g, p);
  }

  lemma KernelIsHeld(g: Grammar, a: Automaton, q: nat, j: nat)
    requires Valid(g) && IsAutomaton(g, a) && q < |a.states| && j in SetOf(a.states[q].items)
    ensures j in ItemsOf(g, a.states[q])
  {
  }

  lemma StartItems(g: Grammar, a: Automaton)
    requires Valid(g) && IsAutomaton(g, a)
    ensures |a.states| > 0 && SetOf(a.states[0].items) == {1} && g.ritem[1] == Goal(g)
  {
  }

  lemma AtBottom(g: Grammar, a: Automaton, stack: seq<nat>)
    requires Valid(g) && IsAutomaton(g, a) && IsStack(a, stack) && stack[|stack| - 1] == 0
    ensures |stack| == 1 && Symbols(a, stack) == []
  {
    hide IsAutomaton;
    var n := |stack| - 1;
    if n > 0 {
      EdgeGivesKernel(g, a, stack[n - 1], a.states[stack[n]].symbol, stack[n]);
    }
  }

  /** A state on top that holds an item with d symbols before the dot: the others may come next. */
  lemma {:induction false} ItemMayFollow(g: Grammar, a: Automaton, stack: seq<nat>, r: nat, d: nat)
    returns (u: seq<int>)
    requires Valid(g) && IsAutomaton(g, a) && IsStack(a, stack) && IsRule(g, r) && r > FIRST_RULE
    requires 0 < d <= |Rhs(g, r)|
    requires g.rrhs[r] + d in ItemsOf(g, a.states[stack[|stack| - 1]])
    ensures Derives(g, [Goal(g)], Symbols(a, stack) + Rhs(g, r)[d..] + u)
    decreases |stack|, 0
  {
    hide Valid, IsAutomaton, ItemsOf, Edge, Derives, Symbols, IsStack;
    ItemOnStack(g, a, stack, r, d);
    var rest := stack[..|stack| - d];
    StackPrefix(a, stack, |stack| - d);
    u := LhsMayFollow(g, a, rest, r);
    DerivesRule(g, r);
    DerivesInContext(g, Symbols(a, rest), [g.rlhs[r]], Rhs(g, r), u);
    assert Rhs(g, r) == Rhs(g, r)[..d] + Rhs(g, r)[d..];
    assert Symbols(a, stack) == Symbols(a, rest) + Rhs(g, r)[..d];
    assert Symbols(a, rest) + Rhs(g, r) + u == Symbols(a, stack) + Rhs(g, r)[d..] + u;
    DerivesTrans(g, [Goal(g)], Symbols(a, rest) + [g.rlhs[r]] + u, Symbols(a, stack) + Rhs(g, r)[d..] + u);
  }

  /** The state with the goal behind the dot stands right above the bottom. */
  lemma GoalAboveBottom(g: Grammar, a: Automaton, stack: seq<nat>)
    requires Valid(g) && IsAutomaton(g, a) && IsStack(a, stack) && |stack| > 1
    requires 2 in SetOf(a.states[stack[|stack| - 1]].items)
    ensures Symbols(a, stack) == [Goal(g)]
  {
    hide IsAutomaton;
    var n := |stack| - 1;
    var s, q := stack[n - 1], stack[n];
    EdgeGivesKernel(g, a, s, a.states[q].symbol, q);
    StateItems(g, a, q);
    assert g.ritem[2 - 1] == a.states[q].symbol;
    var k := SetOf(a.states[s].items);
    assert 1 in ClosureSet(g, k);
    if 1 !in k {
      var r: nat :| r < |g.rlhs| && Pulled(g, k, r) && g.rrhs[r] == 1;
      assert ValidRule(g, r) && ValidRule(g, FIRST_RULE);
      OneRuleOfItem(g, 1, r, FIRST_RULE);
      var i := ItemBeforeLhs(g, k, FIRST_RULE);
      NoStartInRules(g, a, s, i, FIRST_RULE);
    }
    StateItems(g, a, s);
    assert s == 0;
    StackPrefix(a, stack, n);
    AtBottom(g, a, stack[..n]);
  }

  /** The case of an item of a user rule on top. */
  lemma ItemBegins(g: Grammar, a: Automaton, stack: seq<nat>, j: nat)
    requires Valid(g) && IsAutomaton(g, a) && IsStack(a, stack) && stack[|stack| - 1] > 0 && j != 2
    requires j in SetOf(a.states[stack[|stack| - 1]].items)
    ensures Begins(g, Symbols(a, stack))
  {
    hide Valid, IsAutomaton, IsStack, Symbols, Derives, ItemsOf;
    TopInRange(a, stack);
    var q, w := stack[|stack| - 1], Symbols(a, stack);
    var r, d := KernelRule(g, a, q, j);
    KernelIsHeld(g, a, q, j);
    var u := ItemMayFollow(g, a, stack, r, d);
    assert w + Rhs(g, r)[d..] + u == w + (Rhs(g, r)[d..] + u);
  }

  /** The symbols on the stack begin a sentential form. */
  lemma StackBegins(g: Grammar, a: Automaton, stack: seq<nat>)
    requires Valid(g) && IsAutomaton(g, a) && IsStack(a, stack)
    ensures Begins(g, Symbols(a, stack))
  {
    hide IsAutomaton, Derives;
    var q, w := stack[|stack| - 1], Symbols(a, stack);
    if |stack| == 1 {
      assert w + [Goal(g)] == [Goal(g)];
      DerivesRefl(g, [Goal(g)]);
    } else {
      EdgeGivesKernel(g, a, stack[|stack| - 2], a.states[q].symbol, q);
      StateItems(g, a, q);
      var j := a.states[q].items[0];
      if j == 2 {
        GoalAboveBottom(g, a, stack);
        assert w + [] == [Goal(g)];
        DerivesRefl(g, [Goal(g)]);
      } else {
        ItemBegins(g, a, stack, j);
      }
    }
  }

  /** So does what the stack derives. */
  lemma DerivedBegins(g: Grammar, w: seq<int>, consumed: seq<int>)
    requires Valid(g) && Begins(g, w) && Derives(g, w, consumed)
    ensures Begins(g, consumed)
  {
    hide Derives, Valid;
    var u :| Derives(g, [Goal(g)], w + u);
    DerivesInContext(g, [], w, consumed, u);
    assert [] + w + u == w + u && [] + consumed + u == consumed + u;
    DerivesTrans(g, [Goal(g)], w + u, consumed + u);
  }
}
