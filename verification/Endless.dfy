/** A grammar whose parser never ends on a sentence: s: a; a: a | (empty), with the rule a: a first. */
module Endless {
  import opened Graphs
  import opened Grammars
  import opened Items
  import opened Sequences
  import opened Automata
  import opened Gotos
  import opened Relations
  import opened Actions
  import opened Conflicts
  import opened MakeParser
  import opened Decisions
  import opened Driver
  import opened Acceptance
  import Lookaheads

  /** Tokens: $end and error; nonterminals: $accept (2), s (3) and a (4). Rules: 3 is a: a, 4 is s: a, 5 is
      a: (empty). */
  const EXAMPLE := Grammar(2, 5, [-1, 3, 0, -2, 4, -3, 4, -4, -5], [0, 0, 2, 4, 3, 4], [0, 0, 1, 4, 6, 8, 9])

  lemma ExampleIsValid()
    ensures Valid(EXAMPLE) && Rhs(EXAMPLE, 3) == [4] && Rhs(EXAMPLE, 4) == [4] && Rhs(EXAMPLE, 5) == []
  {
    hide ValidRule;
    RuleIsValid(2);
    RuleIsValid(3);
    RuleIsValid(4);
    RuleIsValid(5);
    assert Rhs(EXAMPLE, 3)[0] == 4 && Rhs(EXAMPLE, 4)[0] == 4;
  }

  lemma RuleIsValid(r: nat)
    requires 2 <= r < 6
    ensures ValidRule(EXAMPLE, r)
  {
    assert r == 2 || r == 3 || r == 4 || r == 5;
  }

  /** State 0 holds the first items of all rules. */
  lemma StartHolds(a: Automaton)
    requires Valid(EXAMPLE) && IsAutomaton(EXAMPLE, a)
    ensures |a.states| > 0 && 1 in ItemsOf(EXAMPLE, a.states[0]) && 4 in ItemsOf(EXAMPLE, a.states[0])
    ensures 6 in ItemsOf(EXAMPLE, a.states[0]) && 8 in ItemsOf(EXAMPLE, a.states[0])
    ensures forall i :: i in ItemsOf(EXAMPLE, a.states[0]) ==> i in {1, 4, 6, 8}
  {
    hide IsAutomaton;
    var g := EXAMPLE;
    StartKernel(a);
    var c := ClosureSet(g, {1});
    ClosureIsClosed(g, {1});
    assert g.rrhs[4] in c by { assert g.ritem[1] == g.rlhs[4] && IsRule(g, 4); }
    assert g.rrhs[3] in c && g.rrhs[5] in c by {
      assert g.ritem[6] == g.rlhs[3] == g.rlhs[5] && IsRule(g, 3) && IsRule(g, 5);
    }
    AllAreClosed();
    ClosureIsLeast(g, {1}, {1, 4, 6, 8});
  }

  lemma AllAreClosed()
    requires Valid(EXAMPLE)
    ensures ClosedItems(EXAMPLE, {1, 4, 6, 8})
  {
    forall r | IsRule(EXAMPLE, r) ensures r > 2 ==> EXAMPLE.rrhs[r] in {4, 6, 8} {
      assert r == 2 || r == 3 || r == 4 || r == 5;
    }
    assert forall i :: i in {1, 4, 6, 8} ==> EXAMPLE.ritem[i] != 2;
  }

  lemma StartKernel(a: Automaton)
    requires Valid(EXAMPLE) && IsAutomaton(EXAMPLE, a)
    ensures |a.states| > 0 && SetOf(a.states[0].items) == {1}
  {
  }

  /** Over a one comes to a state that holds the two rules a: a and s: a, complete. */
  lemma NextHolds(a: Automaton) returns (q: nat)
    requires Valid(EXAMPLE) && IsAutomaton(EXAMPLE, a)
    ensures Edge(a, 0, 4, q) && 0 < q < |a.states| && ItemsOf(EXAMPLE, a.states[q]) == {5, 7}
  {
    hide IsAutomaton, Edge, ClosureSet;
    var g := EXAMPLE;
    StartHolds(a);
    q := EdgeExists(g, a, 0, 4);
    EdgeGivesKernel(g, a, 0, 4, q);
    var k := SetOf(a.states[q].items);
    forall i ensures i in k <==> i == 5 || i == 7 {
      assert 4 + 1 == 5 && 6 + 1 == 7;
    }
    assert k == {5, 7};
    assert ClosedItems(g, k) by { CompleteIsClosed(k); }
    ClosureIsLeast(g, k, k);
    ClosureIsClosed(g, k);
    StartKernel(a);
  }

  lemma CompleteIsClosed(k: set<nat>)
    requires Valid(EXAMPLE) && k == {5, 7}
    ensures ClosedItems(EXAMPLE, k)
  {
    assert EXAMPLE.ritem[5] < 0 && EXAMPLE.ritem[7] < 0;
    assert forall r :: IsRule(EXAMPLE, r) ==> EXAMPLE.rlhs[r] > 0;
  }

  /** The rules a: a and s: a may be reduced at the end of the input, and so may, in state 0, the empty rule. */
  lemma ExampleLookaheads(a: Automaton, m: GotoTable, q: nat)
    requires Valid(EXAMPLE) && IsAutomaton(EXAMPLE, a) && IsGotoTable(EXAMPLE, a, m) && Edge(a, 0, 4, q)
    ensures IsLookahead(EXAMPLE, a, m, q, 3, END) && IsLookahead(EXAMPLE, a, m, q, 4, END)
    ensures IsLookahead(EXAMPLE, a, m, 0, 5, END)
  {
    hide IsAutomaton, IsGotoTable, Edge, DirectlyReads, IncludesGraph, ReadsGraph, Valid, LooksBack;
    var g := EXAMPLE;
    ExampleIsValid();
    var p := Lookaheads.FirstGoto(g, a, m);
    var k := GotoExists(g, a, m, 0, 4, q);
    ExampleIncludes(a, m, q, p, k);
    ExampleLooksBack(a, m, q, p, k);
    ReachEdge(IncludesGraph(g, a, m), k, 0);
    ReachRefl(IncludesGraph(g, a, m), 0);
    ReachRefl(ReadsGraph(g, a, m), 0);
    assert DirectlyReads(g, a, m, 0, END) by { EndIsRead(a, m); }
    assert LookaheadBy(g, a, m, q, 3, END, k, 0, 0) && LookaheadBy(g, a, m, q, 4, END, 0, 0, 0);
    assert LookaheadBy(g, a, m, 0, 5, END, k, 0, 0);
  }

  lemma EndIsRead(a: Automaton, m: GotoTable)
    requires |m.toState| > 0
    ensures DirectlyReads(EXAMPLE, a, m, 0, END)
  {
  }

  lemma ExampleIncludes(a: Automaton, m: GotoTable, q: nat, p: nat, k: nat)
    requires Valid(EXAMPLE) && IsAutomaton(EXAMPLE, a) && GotoIs(a, m, 0, 0, 3, p) && GotoIs(a, m, k, 0, 4, q)
    ensures k < |m.toState| && 0 in IncludesGraph(EXAMPLE, a, m)[k]
  {
    hide IsAutomaton, Valid, Edge;
    var g := EXAMPLE;
    ExampleIsValid();
    var none: seq<int> := [];
    StartKernel(a);
    assert IsWalk(a, 0, none, [0]);
    assert Rhs(g, 4)[..0] == none && Rhs(g, 4)[1..] == none && Walks(a, 0, none, 0);
    assert IncludesBy(g, a, m, k, 0, 4, 0, 0, 0, q, p);
    assert Includes(g, a, m, k, 0);
  }

  lemma ExampleLooksBack(a: Automaton, m: GotoTable, q: nat, p: nat, k: nat)
    requires Valid(EXAMPLE) && IsAutomaton(EXAMPLE, a) && GotoIs(a, m, 0, 0, 3, p) && GotoIs(a, m, k, 0, 4, q)
    ensures LooksBack(EXAMPLE, a, m, q, 3, k) && LooksBack(EXAMPLE, a, m, q, 4, 0) && LooksBack(EXAMPLE, a, m, 0, 5, k)
  {
    hide IsAutomaton, Valid, Edge;
    var g := EXAMPLE;
    ExampleIsValid();
    var none: seq<int> := [];
    StartKernel(a);
    assert IsWalk(a, 0, [4], [0, q]) && Walks(a, 0, Rhs(g, 3), q) && Walks(a, 0, Rhs(g, 4), q);
    assert IsWalk(a, 0, none, [0]) && Walks(a, 0, Rhs(g, 5), 0);
    assert GotoIs(a, m, k, 0, g.rlhs[3], q) && GotoIs(a, m, 0, 0, g.rlhs[4], p) && GotoIs(a, m, k, 0, g.rlhs[5], q);
    assert IsRule(g, 3) && IsRule(g, 4) && IsRule(g, 5);
  }

  // ---------- Decisions ----------

  /** At the end of the input a state other than the final one reduces by the lowest rule that it may reduce by. */
  lemma LowestIsTaken(s: Setup, q: nat, r: nat)
    requires Generated(s) && Valid(s.g) && MayReduce(s.g, s.a, s.m, q, r, END) && q != s.p.finalState
    requires forall r' :: MayReduce(s.g, s.a, s.m, q, r', END) ==> r <= r'
    ensures r > FIRST_RULE && HasState(s.t, q) && Decide(s.t, q, 0) == ToReduce(r - 2)
  {
    hide Valid, IsAutomaton, IsGotoTable, Vectors.ValuesOk, Output.IsTables, Sorted, Plain, FateOf, IsLookahead, Decide;
    CompleteRule(s.g, s.a, q, r);
    assert RowMade(s.g, s.a, s.m, s.pr, s.raw[q], s.p.rows[q], q, s.p.finalState);
    var row, x := s.raw[q], ReduceAction(s.pr, r, END);
    assert Allowed(s.g, s.a, s.m, s.pr, q, x);
    forall y | y in row && y.symbol == END ensures y.code == REDUCE && (y == x || Precedes(x, y)) {
      NoShiftOnEnd(s, q, y);
    }
    assert FateOf(row, x, false) == Kept by { FirstIsKept(row, x); }
    KeptIsTaken(s.g, s.a, s.m, s.pr, s.values, s.raw, s.p, s.t, q, x);
    EndValue(s);
  }

  lemma NoShiftOnEnd(s: Setup, q: nat, y: Action)
    requires Generated(s) && Valid(s.g) && Allowed(s.g, s.a, s.m, s.pr, q, y) && y.symbol == END
    ensures MayReduce(s.g, s.a, s.m, q, y.number, END) && y == ReduceAction(s.pr, y.number, END)
  {
    hide Generated, Valid, IsAutomaton, Edge, IsLookahead;
    Basics(s);
    if Edge(s.a, q, END, y.number) {
      EdgeGivesKernel(s.g, s.a, q, END, y.number);
    }
  }

  lemma FirstIsKept(row: seq<Action>, x: Action)
    requires x in row && x.code == REDUCE
    requires forall y :: y in row && y.symbol == x.symbol ==> y.code == REDUCE && (y == x || Precedes(x, y))
    ensures FateOf(row, x, false) == Kept
  {
    forall y ensures !Contested(row, x, y) {
    }
    assert First(row, x);
  }

  lemma EndValue(s: Setup)
    requires Generated(s)
    ensures |s.values| > 0 && s.values[END] == 0
  {
  }

  /** At the end of the input state 0 reduces by the empty rule, and the state behind a by a: a. */
  lemma ExampleDecides(s: Setup, q: nat)
    requires s.g == EXAMPLE && Generated(s) && Edge(s.a, 0, 4, q) && q < |s.a.states|
    requires ItemsOf(EXAMPLE, s.a.states[q]) == {5, 7}
    ensures HasState(s.t, 0) && Decide(s.t, 0, 0) == ToReduce(3)
    ensures HasState(s.t, q) && Decide(s.t, q, 0) == ToReduce(1)
  {
    hide Generated, Valid, IsAutomaton, IsGotoTable, Edge, ItemsOf, Decide, IsLookahead;
    Basics(s);
    StartHolds(s.a);
    EdgeGivesKernel(s.g, s.a, 0, 4, q);
    ExampleLookaheads(s.a, s.m, q);
    ExampleComplete(s.a, q);
    ExampleFinal(s, q);
    LowestIsTaken(s, 0, 5);
    LowestIsTaken(s, q, 3);
  }

  lemma ExampleComplete(a: Automaton, q: nat)
    requires Valid(EXAMPLE) && IsAutomaton(EXAMPLE, a) && q < |a.states| && ItemsOf(EXAMPLE, a.states[q]) == {5, 7}
    ensures forall r :: Complete(EXAMPLE, ItemsOf(EXAMPLE, a.states[0]), r) <==> r == 5
    ensures forall r :: Complete(EXAMPLE, ItemsOf(EXAMPLE, a.states[q]), r) <==> r == 3 || r == 4
  {
    hide IsAutomaton, ItemsOf;
    StartHolds(a);
  }

  lemma ExampleFinal(s: Setup, q: nat)
    requires s.g == EXAMPLE && Generated(s) && Edge(s.a, 0, 4, q)
    ensures s.p.finalState != q && s.p.finalState != 0
  {
    hide Generated, Valid, IsAutomaton;
    Basics(s);
    ParserFinal(s);
    EdgeGivesKernel(s.g, s.a, 0, 3, s.p.finalState);
  }

  // ---------- The run ----------

  /** The input is at its end, and whether that has been read is what yychar tells. */
  predicate AtEnd(c: Config) {
    (c.yychar == -1 && c.next == 0) || (c.yychar == 0 && c.next == 1)
  }

  /** What the tables say about the rules of a, in a stack that keeps only state 0. */
  lemma ExampleRules(s: Setup, rule: nat, q: nat)
    requires s.g == EXAMPLE && Generated(s) && (rule == 1 || rule == 3) && Edge(s.a, 0, 4, q)
    ensures rule < |s.t.yylen| == |s.t.yylhs| && s.t.yylen[rule] == (if rule == 1 then 1 else 0)
    ensures s.t.yylhs[rule] == 1 < |s.t.yygindex| == |s.t.yydgoto| && GotoOf(s.t, 0, 1) == q
  {
    hide Valid, IsAutomaton, IsGotoTable, IsParser, Output.IsTables, Edge, GotoOf, Vectors.ValuesOk;
    ExampleIsValid();
    RuleSound(s, rule);
    GotoExact(s.g, s.a, s.m, s.pr, s.values, s.raw, s.p, s.t, 0, 4, q);
  }

  /** A reduction by a rule of a. */
  lemma ExampleRound(s: Setup, size: nat, c: Config, q: nat, rule: nat) returns (c': Config)
    requires s.g == EXAMPLE && Generated(s) && size >= 2 && AtEnd(c) && c.stack != [] && HasState(s.t, Top(c))
    requires Decide(s.t, Top(c), 0) == ToReduce(rule) && (rule == 1 || rule == 3)
    requires |c.stack| == (if rule == 1 then 2 else 1) && c.stack[0] == 0 && Edge(s.a, 0, 4, q)
    ensures Follows(s, [], size, c, c', Running) && AtEnd(c') && c'.stack == [0, q]
  {
    hide Generated, Edge, GotoOf;
    var d := Prepared(s.t, [], c);
    c' := d.(stack := [0, q]);
    assert Decide(s.t, Top(c), d.yychar) == ToReduce(rule);
    ExampleRules(s, rule, q);
    assert c.stack[..1] == [0];
  }

  lemma {:induction false} ExampleRun(s: Setup, size: nat, q: nat, budget: nat) returns (trace: seq<Config>)
    requires s.g == EXAMPLE && Generated(s) && size >= 2 && Edge(s.a, 0, 4, q) && HasState(s.t, 0) && HasState(s.t, q)
    requires Decide(s.t, 0, 0) == ToReduce(3) && Decide(s.t, q, 0) == ToReduce(1)
    ensures |trace| == budget + 1 && Chained(s, [], size, trace) && trace[0] == Config([0], -1, 0)
    ensures AtEnd(trace[budget]) && trace[budget].stack == if budget == 0 then [0] else [0, q]
    decreases budget
  {
    hide Generated, Edge, Decide, Follows;
    if budget == 0 {
      trace := [Config([0], -1, 0)];
    } else {
      var front := ExampleRun(s, size, q, budget - 1);
      var c := ExampleRound(s, size, front[budget - 1], q, if budget == 1 then 3 else 1);
      trace := front + [c];
    }
  }

  /** On the empty input, a sentence, every parser made for this grammar goes on for ever, reducing a: a. */
  lemma NeverEnds(s: Setup, size: nat, budget: nat) returns (trace: seq<Config>)
    requires s.g == EXAMPLE && Generated(s) && size >= 2
    ensures IsRun(s, [], size, trace, Running, budget) && trace[0] == Config([0], -1, 0)
    ensures IsSentence(s, [], [])
  {
    hide Generated, Edge, Decide, Follows, Derives, IsAutomaton, Valid, IsGotoTable;
    Basics(s);
    var q := NextHolds(s.a);
    ExampleDecides(s, q);
    trace := ExampleRun(s, size, q, budget);
    ExampleIsValid();
    DerivesRule(EXAMPLE, 4);
    DerivesRule(EXAMPLE, 5);
    DerivesTrans(EXAMPLE, [3], [4], []);
  }
}
