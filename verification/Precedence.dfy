/** What precedence is for: the grammar e: e '+' e | e '*' e | n with left associative operators, '*'
    above '+'. */
module Precedence {
  import opened Sequences
  import opened Grammars
  import opened Items
  import opened Automata
  import opened Gotos
  import opened Relations
  import opened Graphs
  import Lookaheads
  import opened Actions
  import opened MakeParser
  import opened Output
  import opened Decisions
  import Nonassoc

  /** Tokens: $end, error, '+' (2), '*' (3) and n (4); nonterminals: $accept (5) and e (6).
      Rule 3 is e: e '+' e, rule 4 is e: e '*' e. */
  const EXAMPLE := Grammar(5, 7, [-1, 6, 0, -2, 6, 2, 6, -3, 6, 3, 6, -4, 4, -5], [0, 0, 5, 6, 6, 6],
                           [0, 0, 1, 4, 8, 12, 14])

  /** The first items of the three rules of e, which closure adds together. */
  const FIRSTS := {4, 8, 12}

  lemma ExampleIsValid()
    ensures Valid(EXAMPLE) && Goal(EXAMPLE) == 6
  {
    hide ValidRule;
    RuleIsValid(2);
    RuleIsValid(3);
    RuleIsValid(4);
    RuleIsValid(5);
  }

  lemma RuleIsValid(r: nat)
    requires 2 <= r < 6
    ensures ValidRule(EXAMPLE, r)
  {
    var g := EXAMPLE;
    var m, n := g.rrhs[r], g.rrhs[r + 1];
    assert n - m <= 4 && g.ritem[n - 1] == -(r as int);
    forall i | m <= i < n - 1 ensures IsSymbol(g, g.ritem[i]) && (r > 2 ==> g.ritem[i] != 0 && g.ritem[i] != 5) {
      assert i == m || i == m + 1 || i == m + 2;
    }
  }

  /** Rule op + 1 is e: e op e. */
  lemma OperatorRule(op: nat)
    requires Valid(EXAMPLE) && (op == 2 || op == 3)
    ensures Rhs(EXAMPLE, op + 1) == [6, op, 6]
  {
    assert EXAMPLE.ritem[4..7] == [6, 2, 6] && EXAMPLE.ritem[8..11] == [6, 3, 6];
  }

  /** An item of s stands before e. */
  predicate BeforeE(s: set<nat>) {
    1 in s || 4 in s || 6 in s || 8 in s || 10 in s
  }

  lemma ExampleClosed(s: set<nat>)
    requires Valid(EXAMPLE)
    ensures ClosedItems(EXAMPLE, s) <==> (BeforeE(s) ==> FIRSTS <= s)
  {
    var g := EXAMPLE;
    if BeforeE(s) ==> FIRSTS <= s {
      forall i, r | i in s && i < |g.ritem| && IsRule(g, r) && g.ritem[i] == g.rlhs[r] ensures g.rrhs[r] in s {
        assert i == 1 || i == 4 || i == 6 || i == 8 || i == 10;
        assert r == 3 || r == 4 || r == 5;
      }
    }
    if ClosedItems(g, s) {
      forall i: nat | i in s && (i == 1 || i == 4 || i == 6 || i == 8 || i == 10) ensures FIRSTS <= s {
        assert g.ritem[i] == g.rlhs[3] == g.rlhs[4] == g.rlhs[5] && IsRule(g, 3) && IsRule(g, 4) && IsRule(g, 5);
        assert g.rrhs[3] in s && g.rrhs[4] in s && g.rrhs[5] in s;
      }
    }
  }

  /** c is the least closed set that holds k. */
  lemma ExampleClosure(k: set<nat>, c: set<nat>)
    requires Valid(EXAMPLE) && k <= c && (BeforeE(c) ==> FIRSTS <= c)
    requires c == k || (c == k + FIRSTS && BeforeE(k))
    ensures ClosureSet(EXAMPLE, k) == c
  {
    hide ClosureSet;
    ClosureIsClosed(EXAMPLE, k);
    ExampleClosed(ClosureSet(EXAMPLE, k));
    ExampleClosed(c);
    ClosureIsLeast(EXAMPLE, k, c);
  }

  /** From a state with items c over the symbol behind item i: kernel k, with closure c'. */
  lemma ExampleStep(a: Automaton, q: nat, c: set<nat>, i: nat, k: set<nat>, c': set<nat>) returns (p: nat)
    requires Valid(EXAMPLE) && IsAutomaton(EXAMPLE, a) && q < |a.states| && ItemsOf(EXAMPLE, a.states[q]) == c
    requires i in c && i < 14 && EXAMPLE.ritem[i] > 0
    requires forall j :: j in c && j < 14 && EXAMPLE.ritem[j] == EXAMPLE.ritem[i] ==> j + 1 in k
    requires forall j :: j in k ==> j > 0 && (j - 1) in c && j <= 14 && EXAMPLE.ritem[j - 1] == EXAMPLE.ritem[i]
    requires k <= c' && (BeforeE(c') ==> FIRSTS <= c') && (c' == k || (c' == k + FIRSTS && BeforeE(k)))
    ensures Edge(a, q, EXAMPLE.ritem[i], p) && p < |a.states| && ItemsOf(EXAMPLE, a.states[p]) == c'
  {
    hide Valid, IsAutomaton, ClosureSet;
    p := EdgeExists(EXAMPLE, a, q, i);
    EdgeGivesKernel(EXAMPLE, a, q, EXAMPLE.ritem[i], p);
    GotoOver(c, EXAMPLE.ritem[i], k);
    ExampleClosure(k, c');
  }

  lemma GotoOver(c: set<nat>, x: int, k: set<nat>)
    requires forall i :: i in c && i < 14 && EXAMPLE.ritem[i] == x ==> i + 1 in k
    requires forall i :: i in k ==> i > 0 && (i - 1) in c && i <= 14 && EXAMPLE.ritem[i - 1] == x
    ensures GotoSet(EXAMPLE, c, x) == k
  {
    forall i | i in k ensures i in GotoSet(EXAMPLE, c, x) {
      assert (i - 1) + 1 == i;
    }
  }

  lemma StartKernelIs(a: Automaton)
    requires Valid(EXAMPLE) && IsAutomaton(EXAMPLE, a)
    ensures |a.states| > 0 && SetOf(a.states[0].items) == {1}
  {
  }

  /** The state behind the first e. */
  lemma StateBehindE(a: Automaton) returns (s: nat)
    requires Valid(EXAMPLE) && IsAutomaton(EXAMPLE, a)
    ensures Edge(a, 0, 6, s) && s < |a.states| && ItemsOf(EXAMPLE, a.states[s]) == {2, 5, 9}
  {
    hide Valid, IsAutomaton, Edge, ClosureSet, GotoSet;
    StartKernelIs(a);
    ExampleClosure({1}, {1, 4, 8, 12});
    s := ExampleStep(a, 0, {1, 4, 8, 12}, 1, {2, 5, 9}, {2, 5, 9});
  }

  /** The states behind e '+' and behind e '+' e. */
  lemma StatesOfSum(a: Automaton, s: nat) returns (v: nat, q: nat)
    requires Valid(EXAMPLE) && IsAutomaton(EXAMPLE, a)
    requires s < |a.states| && ItemsOf(EXAMPLE, a.states[s]) == {2, 5, 9}
    ensures Edge(a, s, 2, v) && Edge(a, v, 6, q) && q < |a.states| && ItemsOf(EXAMPLE, a.states[q]) == {5, 7, 9}
  {
    hide Valid, IsAutomaton, Edge, ItemsOf;
    v := ExampleStep(a, s, {2, 5, 9}, 5, {6}, {4, 6, 8, 12});
    q := ExampleStep(a, v, {4, 6, 8, 12}, 6, {5, 7, 9}, {5, 7, 9});
  }

  /** The states behind e '*' and behind e '*' e. */
  lemma StatesOfProduct(a: Automaton, s: nat) returns (v: nat, q: nat)
    requires Valid(EXAMPLE) && IsAutomaton(EXAMPLE, a)
    requires s < |a.states| && ItemsOf(EXAMPLE, a.states[s]) == {2, 5, 9}
    ensures Edge(a, s, 3, v) && Edge(a, v, 6, q) && q < |a.states| && ItemsOf(EXAMPLE, a.states[q]) == {5, 9, 11}
  {
    hide Valid, IsAutomaton, Edge, ItemsOf;
    v := ExampleStep(a, s, {2, 5, 9}, 9, {10}, {4, 8, 10, 12});
    q := ExampleStep(a, v, {4, 8, 10, 12}, 10, {5, 9, 11}, {5, 9, 11});
  }

  /** Both operators follow e at the start, and so may be looked ahead at in state q behind e
      operator e, by the rule for this operator. */
  lemma ExampleLookaheads(a: Automaton, m: GotoTable, s: nat, v: nat, q: nat, op: nat, u: nat)
    requires Valid(EXAMPLE) && IsAutomaton(EXAMPLE, a) && IsGotoTable(EXAMPLE, a, m)
    requires (op == 2 || op == 3) && (u == 2 || u == 3)
    requires Edge(a, 0, 6, s) && Edge(a, s, op, v) && Edge(a, v, 6, q)
    requires s < |a.states| && ItemsOf(EXAMPLE, a.states[s]) == {2, 5, 9}
    ensures IsLookahead(EXAMPLE, a, m, q, op + 1, u)
  {
    hide IsAutomaton, IsGotoTable, Edge, ItemsOf;
    var g := EXAMPLE;
    OperatorRule(op);
    var p := Lookaheads.FirstGoto(g, a, m);
    Nonassoc.GotoIsEdge(g, a, m, p);
    EdgeUnique(g, a, 0, 6, s, p);
    var w := EdgeExists(g, a, s, if u == 2 then 5 else 9);
    var states := [0, s, v, q];
    StartKernelIs(a);
    assert IsWalk(a, 0, [6, op, 6], states);
    assert LooksBack(g, a, m, q, op + 1, 0) by {
      assert states[|Rhs(g, op + 1)|] == q && Walks(a, 0, Rhs(g, op + 1), q);
      assert GotoIs(a, m, 0, 0, g.rlhs[op + 1], p);
    }
    ReachRefl(IncludesGraph(g, a, m), 0);
    ReachRefl(ReadsGraph(g, a, m), 0);
    assert DirectlyReads(g, a, m, 0, u);
    assert LookaheadBy(g, a, m, q, op + 1, u, 0, 0, 0);
  }

  /** Behind e operator e the parser can reduce by this operator's rule alone, or shift an operator. */
  lemma ExampleChoice(a: Automaton, m: GotoTable, s: nat, v: nat, q: nat, op: nat, u: nat) returns (to: nat)
    requires Valid(EXAMPLE) && IsAutomaton(EXAMPLE, a) && IsGotoTable(EXAMPLE, a, m)
    requires (op == 2 || op == 3) && (u == 2 || u == 3)
    requires Edge(a, 0, 6, s) && Edge(a, s, op, v) && Edge(a, v, 6, q)
    requires s < |a.states| && ItemsOf(EXAMPLE, a.states[s]) == {2, 5, 9}
    requires q < |a.states| && ItemsOf(EXAMPLE, a.states[q]) == if op == 2 then {5, 7, 9} else {5, 9, 11}
    ensures IsChoice(EXAMPLE, a, m, q, u, to, op + 1)
  {
    hide IsAutomaton, IsGotoTable, Edge, ItemsOf, IsLookahead;
    var g := EXAMPLE;
    to := EdgeExists(g, a, q, if u == 2 then 5 else 9);
    ExampleLookaheads(a, m, s, v, q, op, u);
    assert MayReduce(g, a, m, q, op + 1, u);
    forall r: nat | r < |g.rlhs| && MayReduce(g, a, m, q, r, u) ensures r == op + 1 {
      assert Complete(g, ItemsOf(g, a.states[q]), r);
    }
  }

  /** '+' and '*' are left associative, and '*' is above '+'; the rules have the precedence of their
      operators. */
  predicate ArithmeticPrecedence(pr: Precedences)
    requires Covers(EXAMPLE, pr)
  {
    && 0 < pr.symbolPrec[2] == pr.rulePrec[3] < pr.symbolPrec[3] == pr.rulePrec[4]
    && pr.symbolAssoc[2] == pr.symbolAssoc[3] == 1
  }

  /** In every parser made for this grammar, behind e '+' e a '*' is shifted, so that it binds its
      left operand first, and at a '+' the sum is reduced, so that sums group to the left. */
  lemma ProductBindsTighter(a: Automaton, m: GotoTable, pr: Precedences, values: seq<int>, raw: seq<seq<Action>>,
                            p: Parser, t: Tables)
    returns (s: nat, v: nat, q: nat, to: nat)
    requires Emitted(EXAMPLE, a, m, pr, values, raw, p, t) && Covers(EXAMPLE, pr) && ArithmeticPrecedence(pr)
    ensures Edge(a, 0, 6, s) && Edge(a, s, 2, v) && Edge(a, v, 6, q) && Edge(a, q, 3, to) && HasState(t, q)
    ensures |values| > 3 && Decide(t, q, values[3]) == ToShift(to) && Decide(t, q, values[2]) == ToReduce(1)
  {
    hide IsAutomaton, IsGotoTable, Edge, ItemsOf, IsTables, IsParser, Decide, MayReduce;
    ExampleIsValid();
    s := StateBehindE(a);
    v, q := StatesOfSum(a, s);
    to := ExampleChoice(a, m, s, v, q, 2, 3);
    var to' := ExampleChoice(a, m, s, v, q, 2, 2);
    PrecedenceDecides(EXAMPLE, a, m, pr, values, raw, p, t, q, 3, to, 3);
    PrecedenceDecides(EXAMPLE, a, m, pr, values, raw, p, t, q, 2, to', 3);
  }

  /** ... and behind e '*' e the product is reduced at either operator. */
  lemma ProductIsReduced(a: Automaton, m: GotoTable, pr: Precedences, values: seq<int>, raw: seq<seq<Action>>,
                         p: Parser, t: Tables)
    returns (s: nat, v: nat, q: nat)
    requires Emitted(EXAMPLE, a, m, pr, values, raw, p, t) && Covers(EXAMPLE, pr) && ArithmeticPrecedence(pr)
    ensures Edge(a, 0, 6, s) && Edge(a, s, 3, v) && Edge(a, v, 6, q) && HasState(t, q)
    ensures |values| > 3 && Decide(t, q, values[3]) == ToReduce(2) && Decide(t, q, values[2]) == ToReduce(2)
  {
    hide IsAutomaton, IsGotoTable, Edge, ItemsOf, IsTables, IsParser, Decide, MayReduce;
    ExampleIsValid();
    s := StateBehindE(a);
    v, q := StatesOfProduct(a, s);
    var to := ExampleChoice(a, m, s, v, q, 3, 3);
    var to' := ExampleChoice(a, m, s, v, q, 3, 2);
    PrecedenceDecides(EXAMPLE, a, m, pr, values, raw, p, t, q, 3, to, 4);
    PrecedenceDecides(EXAMPLE, a, m, pr, values, raw, p, t, q, 2, to', 4);
  }
}
