/** A grammar in which an expression that %nonassoc forbids is not an error: e: e '<' e | n. */
module Nonassoc {
  import opened Sequences
  import opened Grammars
  import opened Items
  import opened Automata
  import opened Gotos
  import opened Relations
  import opened Graphs
  import Lookaheads
  import opened Actions
  import opened Conflicts
  import opened MakeParser
  import opened Output
  import opened Decisions

  /** Tokens: $end, error, '<' (2) and n (3); nonterminals: $accept (4) and e (5). Rule 3 is e: e '<' e. */
  const EXAMPLE := Grammar(4, 6, [-1, 5, 0, -2, 5, 2, 5, -3, 3, -4], [0, 0, 4, 5, 5], [0, 0, 1, 4, 8, 10])

  lemma ExampleIsValid()
    ensures Valid(EXAMPLE) && Rhs(EXAMPLE, 3) == [5, 2, 5] && Goal(EXAMPLE) == 5
  {
    var g := EXAMPLE;
    assert ValidRule(g, 2) && ValidRule(g, 3) && ValidRule(g, 4);
    assert g.ritem[4..7] == [5, 2, 5];
  }

  /** s holds the first items of the rules of e if an item of it stands before e. */
  predicate HoldsFirsts(s: set<nat>) {
    (1 in s || 4 in s || 6 in s) ==> 4 in s && 8 in s
  }

  lemma ExampleClosed(s: set<nat>)
    requires Valid(EXAMPLE)
    ensures ClosedItems(EXAMPLE, s) <==> HoldsFirsts(s)
  {
    var g := EXAMPLE;
    if HoldsFirsts(s) {
      forall i, r | i in s && i < |g.ritem| && IsRule(g, r) && g.ritem[i] == g.rlhs[r] ensures g.rrhs[r] in s {
        assert i == 1 || i == 4 || i == 6;
        assert r == 3 || r == 4;
      }
    }
    if ClosedItems(g, s) {
      forall i: nat | i in s && (i == 1 || i == 4 || i == 6) ensures 4 in s && 8 in s {
        assert g.ritem[i] == g.rlhs[3] == g.rlhs[4] && IsRule(g, 3) && IsRule(g, 4);
        assert g.rrhs[3] in s && g.rrhs[4] in s;
      }
    }
  }

  /** c is the least closed set that holds k. */
  lemma ExampleClosure(k: set<nat>, c: set<nat>)
    requires Valid(EXAMPLE) && k <= c && HoldsFirsts(c)
    requires c == k || (c == k + {4, 8} && (1 in k || 6 in k))
    ensures ClosureSet(EXAMPLE, k) == c
  {
    hide ClosureSet;
    ClosureIsClosed(EXAMPLE, k);
    ExampleClosed(ClosureSet(EXAMPLE, k));
    ExampleClosed(c);
    ClosureIsLeast(EXAMPLE, k, c);
  }

  /** The four states on the way over e '<' e, and what they hold. */
  lemma ExampleStates(a: Automaton) returns (s1: nat, s2: nat, q: nat, p: nat)
    requires Valid(EXAMPLE) && IsAutomaton(EXAMPLE, a)
    ensures Edge(a, 0, 5, s1) && Edge(a, s1, 2, s2) && Edge(a, s2, 5, q) && Edge(a, q, 2, p)
    ensures s1 < |a.states| && s1 != q < |a.states| && ItemsOf(EXAMPLE, a.states[q]) == {5, 7}
  {
    hide Valid, IsAutomaton, Edge, ClosureSet, GotoSet;
    StartKernelIs(a);
    ExampleClosure({1}, {1, 4, 8});
    s1 := ExampleStep(a, 0, {1, 4, 8}, 1, {2, 5}, {2, 5});
    s2 := ExampleStep(a, s1, {2, 5}, 5, {6}, {4, 6, 8});
    q := ExampleStep(a, s2, {4, 6, 8}, 6, {5, 7}, {5, 7});
    p := EdgeExists(EXAMPLE, a, q, 5);
    assert 7 in SetOf(a.states[q].items) && 7 !in SetOf(a.states[s1].items);
  }

  /** From a state with items c over the symbol behind item i: kernel k, with closure c'. */
  lemma ExampleStep(a: Automaton, q: nat, c: set<nat>, i: nat, k: set<nat>, c': set<nat>) returns (p: nat)
    requires Valid(EXAMPLE) && IsAutomaton(EXAMPLE, a) && q < |a.states| && ItemsOf(EXAMPLE, a.states[q]) == c
    requires i in c && i < 10 && EXAMPLE.ritem[i] > 0
    requires forall j :: j in c && j < 10 && EXAMPLE.ritem[j] == EXAMPLE.ritem[i] ==> j + 1 in k
    requires forall j :: j in k ==> j > 0 && (j - 1) in c && j <= 10 && EXAMPLE.ritem[j - 1] == EXAMPLE.ritem[i]
    requires k <= c' && HoldsFirsts(c') && (c' == k || (c' == k + {4, 8} && (1 in k || 6 in k)))
    ensures Edge(a, q, EXAMPLE.ritem[i], p) && p < |a.states|
    ensures SetOf(a.states[p].items) == k && ItemsOf(EXAMPLE, a.states[p]) == c'
  {
    hide Valid, IsAutomaton, ClosureSet;
    p := EdgeExists(EXAMPLE, a, q, i);
    EdgeGivesKernel(EXAMPLE, a, q, EXAMPLE.ritem[i], p);
    GotoOver(c, EXAMPLE.ritem[i], k);
    ExampleClosure(k, c');
  }

  lemma StartKernelIs(a: Automaton)
    requires Valid(EXAMPLE) && IsAutomaton(EXAMPLE, a)
    ensures |a.states| > 0 && SetOf(a.states[0].items) == {1}
  {
  }

  lemma GotoOver(c: set<nat>, x: int, k: set<nat>)
    requires forall i :: i in c && i < 10 && EXAMPLE.ritem[i] == x ==> i + 1 in k
    requires forall i :: i in k ==> i > 0 && (i - 1) in c && i <= 10 && EXAMPLE.ritem[i - 1] == x
    ensures GotoSet(EXAMPLE, c, x) == k
  {
    forall i | i in k ensures i in GotoSet(EXAMPLE, c, x) {
      assert (i - 1) + 1 == i;
    }
  }

  /** Rule 3 may be reduced in q on '<' and on $end: goto 0 goes over e to a state that shifts '<'. */
  lemma ExampleLookaheads(a: Automaton, m: GotoTable, s1: nat, s2: nat, q: nat, t: nat)
    requires Valid(EXAMPLE) && IsAutomaton(EXAMPLE, a) && IsGotoTable(EXAMPLE, a, m)
    requires Edge(a, 0, 5, s1) && Edge(a, s1, 2, s2) && Edge(a, s2, 5, q) && s1 < |a.states|
    requires t == END || t == 2
    ensures IsLookahead(EXAMPLE, a, m, q, 3, t)
  {
    hide IsAutomaton, IsGotoTable, Edge;
    var g := EXAMPLE;
    ExampleIsValid();
    var p := Lookaheads.FirstGoto(g, a, m);
    GotoIsEdge(g, a, m, p);
    EdgeUnique(g, a, 0, 5, s1, p);
    var states := [0, s1, s2, q];
    StartKernelIs(a);
    assert IsWalk(a, 0, [5, 2, 5], states);
    assert LooksBack(g, a, m, q, 3, 0) by {
      assert states[|Rhs(g, 3)|] == q && Walks(a, 0, Rhs(g, 3), q);
      assert GotoIs(a, m, 0, 0, g.rlhs[3], p);
    }
    ReachRefl(IncludesGraph(g, a, m), 0);
    ReachRefl(ReadsGraph(g, a, m), 0);
    assert DirectlyReads(g, a, m, 0, t);
    assert LookaheadBy(g, a, m, q, 3, t, 0, 0, 0);
  }

  lemma GotoIsEdge(g: Grammar, a: Automaton, m: GotoTable, p: nat)
    requires Valid(g) && IsAutomaton(g, a) && GotoIs(a, m, 0, 0, Goal(g), p)
    ensures |m.toState| > 0 && m.toState[0] == p && Edge(a, 0, Goal(g), p)
  {
  }

  /** What stands in the row of q: the shift of '<', and reductions by rule 3 alone. */
  lemma ExampleRow(a: Automaton, m: GotoTable, pr: Precedences, q: nat, p: nat, x: Action)
    requires Valid(EXAMPLE) && IsAutomaton(EXAMPLE, a) && Covers(EXAMPLE, pr)
    requires q < |a.states| && ItemsOf(EXAMPLE, a.states[q]) == {5, 7} && Edge(a, q, 2, p)
    requires Allowed(EXAMPLE, a, m, pr, q, x)
    ensures if x.code == SHIFT then x == ShiftAction(pr, 2, p)
      else x.code == REDUCE && x == ReduceAction(pr, 3, x.symbol)
  {
    hide IsAutomaton, Edge, ItemsOf, IsLookahead;
    var g := EXAMPLE;
    if x.code == SHIFT {
      EdgeGivesKernel(g, a, q, x.symbol, x.number);
      assert x.symbol == 2;
      EdgeUnique(g, a, q, 2, p, x.number);
    } else {
      var r := x.number;
      assert g.rrhs[r + 1] - 1 == 5 || g.rrhs[r + 1] - 1 == 7;
      assert r == 3;
    }
  }

  /** In every parser made for this grammar with a nonassociative '<', the state behind e '<' e does
      not report a second '<' as an error, which %nonassoc has erased: it reduces by rule 3. */
  lemma NonassocMayReduce(a: Automaton, m: GotoTable, pr: Precedences, values: seq<int>, raw: seq<seq<Action>>,
                          p: Parser, t: Tables)
    returns (q: nat, x: Action)
    requires Emitted(EXAMPLE, a, m, pr, values, raw, p, t)
    requires Covers(EXAMPLE, pr) && pr.symbolPrec[2] == pr.rulePrec[3] > 0 && pr.symbolAssoc[2] != LEFT
    requires pr.symbolAssoc[2] != RIGHT
    ensures q < |raw| && x in raw[q] && x.symbol == 2 < |values| && FateOf(raw[q], x, q == p.finalState) == Erased
    ensures HasState(t, q) && Decide(t, q, values[2]) == ToReduce(1)
  {
    hide IsAutomaton, IsGotoTable, Edge, ItemsOf, IsTables, IsParser, FateOf, StateTables, RowMade;
    var g := EXAMPLE;
    ExampleIsValid();
    var s1, s2, to;
    s1, s2, q, to := ExampleStates(a);
    EmittedState(g, a, m, pr, values, raw, p, t, q);
    ExampleFinal(a, m, pr, raw, p, s1);
    var row, made := raw[q], p.rows[q];
    MadeRow(a, m, pr, row, made, q, p.finalState);
    ExampleLookaheads(a, m, s1, s2, q, 2);
    ExampleLookaheads(a, m, s1, s2, q, END);
    x := ShiftAction(pr, 2, to);
    var y, z := ReduceAction(pr, 3, 2), ReduceAction(pr, 3, END);
    EdgeGivesKernel(g, a, q, 2, to);
    assert Allowed(g, a, m, pr, q, x) && Allowed(g, a, m, pr, q, y) && Allowed(g, a, m, pr, q, z);
    ExampleFates(a, m, pr, row, q, to);
    ExampleSole(a, m, pr, row, made, q, to);
    ExampleDefault(values, made, p.defred[q], t, q);
  }

  lemma ExampleFinal(a: Automaton, m: GotoTable, pr: Precedences, raw: seq<seq<Action>>, p: Parser, s1: nat)
    requires Valid(EXAMPLE) && IsAutomaton(EXAMPLE, a) && Covers(EXAMPLE, pr) && IsParser(EXAMPLE, a, m, pr, raw, p)
    requires Edge(a, 0, 5, s1)
    ensures p.finalState == s1
  {
    hide IsAutomaton, Edge, RowMade, DefaultMade;
    EdgeUnique(EXAMPLE, a, 0, 5, s1, p.finalState);
  }

  lemma MadeRow(a: Automaton, m: GotoTable, pr: Precedences, row: seq<Action>, made: seq<Action>, q: nat,
                finalState: nat)
    requires Valid(EXAMPLE) && Covers(EXAMPLE, pr) && RowMade(EXAMPLE, a, m, pr, row, made, q, finalState)
    ensures IsSettled(row, made, q == finalState) && forall x :: x in row <==> Allowed(EXAMPLE, a, m, pr, q, x)
  {
  }

  /** Both actions on '<' are erased; the reduction on $end is kept. */
  lemma ExampleFates(a: Automaton, m: GotoTable, pr: Precedences, row: seq<Action>, q: nat, to: nat)
    requires Valid(EXAMPLE) && IsAutomaton(EXAMPLE, a) && Covers(EXAMPLE, pr)
    requires pr.symbolPrec[2] == pr.rulePrec[3] > 0 && pr.symbolAssoc[2] != LEFT && pr.symbolAssoc[2] != RIGHT
    requires q < |a.states| && ItemsOf(EXAMPLE, a.states[q]) == {5, 7} && Edge(a, q, 2, to)
    requires forall x :: x in row <==> Allowed(EXAMPLE, a, m, pr, q, x)
    requires ShiftAction(pr, 2, to) in row && ReduceAction(pr, 3, 2) in row && ReduceAction(pr, 3, END) in row
    ensures FateOf(row, ShiftAction(pr, 2, to), false) == Erased && FateOf(row, ReduceAction(pr, 3, END), false) == Kept
  {
    hide IsAutomaton, Edge, ItemsOf, Allowed;
    var x, y, z := ShiftAction(pr, 2, to), ReduceAction(pr, 3, 2), ReduceAction(pr, 3, END);
    forall w | w in row
      ensures if w.code == SHIFT then w == x else w.code == REDUCE && w == ReduceAction(pr, 3, w.symbol)
    {
      ExampleRow(a, m, pr, q, to, w);
    }
    assert Resolvable(row, x, y);
    FateOfPair(row, x, y);
    assert forall w :: !Contested(row, z, w);
    assert First(row, z);
  }

  lemma ExampleSole(a: Automaton, m: GotoTable, pr: Precedences, row: seq<Action>, made: seq<Action>, q: nat, to: nat)
    requires Valid(EXAMPLE) && IsAutomaton(EXAMPLE, a) && Covers(EXAMPLE, pr) && IsSettled(row, made, false)
    requires q < |a.states| && ItemsOf(EXAMPLE, a.states[q]) == {5, 7} && Edge(a, q, 2, to)
    requires forall x :: x in row <==> Allowed(EXAMPLE, a, m, pr, q, x)
    requires FateOf(row, ShiftAction(pr, 2, to), false) == Erased
    requires ReduceAction(pr, 3, END) in row && FateOf(row, ReduceAction(pr, 3, END), false) == Kept
    ensures IsSole(made, 3)
  {
    hide IsAutomaton, Edge, ItemsOf, Allowed, FateOf;
    forall k | 0 <= k < |made| ensures !Shifts(made, k) && (Reduces(made, k) ==> made[k].number == 3) {
      ExampleRow(a, m, pr, q, to, row[k]);
      assert SettledAt(row, made, false, k);
    }
    var l :| 0 <= l < |row| && row[l] == ReduceAction(pr, 3, END);
    assert SettledAt(row, made, false, l);
    assert Reduces(made, l) && made[l].symbol != 1;
  }

  lemma ExampleDefault(values: seq<int>, made: seq<Action>, defred: nat, t: Tables, q: nat)
    requires StateTables(EXAMPLE, values, made, defred, t, q) && IsSole(made, 3)
    ensures |values| == 6 && HasState(t, q) && Decide(t, q, values[2]) == ToReduce(1)
  {
    assert defred > 0 && IsSole(made, defred);
    var k :| 0 <= k < |made| && Reduces(made, k) && made[k].symbol != 1;
  }
}
