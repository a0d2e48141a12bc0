/** Why the bound on the stack asks that every nonterminal derives a string of tokens: a grammar without
    conflicts whose parser fills a stack of any size on v x. */
module Growing {
  import opened Graphs
  import opened Grammars
  import opened Items
  import opened Sequences
  import opened Automata
  import opened Gotos
  import opened Relations
  import opened Actions
  import opened Conflicts
  import opened MakeParser
  import opened Decisions
  import opened FollowSets
  import opened Driver
  import opened Acceptance
  import opened Loops
  import opened StackBound
  import Endless
  import Lookaheads
  import Nullable
  import Output
  import Termination
  import Vectors

  /** Tokens: $end, error, v (2) and x (3); nonterminals: $accept (4), s (5), a (6), b (7), c (8) and u (9).
      Rules from 3 on: s: v a, s: b b x, a: b c, c: u, u: a u, b: c, c: (empty). */
  const EXAMPLE := Grammar(4, 10,
    [-1, 5, 0, -2, 2, 6, -3, 7, 7, 3, -4, 7, 8, -5, 9, -6, 6, 9, -7, 8, -8, -9],
    [0, 0, 4, 5, 5, 6, 8, 9, 7, 8], [0, 0, 1, 4, 7, 11, 14, 16, 19, 21, 22])

  /** The first items of the rules of a, b, c and u: closure adds them all at once. */
  const FIRSTS := {11, 14, 16, 19, 21}

  lemma ExampleIsValid()
    ensures Valid(EXAMPLE)
  {
    hide ValidRule;
    RuleIsValid(2);
    RuleIsValid(3);
    RuleIsValid(4);
    RuleIsValid(5);
    RuleIsValid(6);
    RuleIsValid(7);
    RuleIsValid(8);
    RuleIsValid(9);
  }

  lemma RuleIsValid(r: nat)
    requires 2 <= r < 10
    ensures ValidRule(EXAMPLE, r)
  {
    var g := EXAMPLE;
    var m, n := g.rrhs[r], g.rrhs[r + 1];
    assert n - m <= 4 && g.ritem[n - 1] == -(r as int);
    forall i | m <= i < n - 1 ensures IsSymbol(g, g.ritem[i]) && (r > 2 ==> g.ritem[i] != 0 && g.ritem[i] != 4) {
      assert i == m || i == m + 1 || i == m + 2;
    }
  }

  lemma ExampleRules()
    requires Valid(EXAMPLE)
    ensures Rhs(EXAMPLE, 2) == [5, 0] && Rhs(EXAMPLE, 3) == [2, 6] && Rhs(EXAMPLE, 4) == [7, 7, 3]
    ensures Rhs(EXAMPLE, 5) == [7, 8] && Rhs(EXAMPLE, 6) == [9] && Rhs(EXAMPLE, 7) == [6, 9]
    ensures Rhs(EXAMPLE, 8) == [8] && Rhs(EXAMPLE, 9) == []
  {
    hide Valid, Rhs;
    LowRules();
    MiddleRules();
    HighRules();
  }

  lemma LowRules()
    requires Valid(EXAMPLE)
    ensures Rhs(EXAMPLE, 2) == [5, 0] && Rhs(EXAMPLE, 3) == [2, 6]
  {
    hide Valid, Rhs;
    RhsIs(2, [5, 0]);
    RhsIs(3, [2, 6]);
  }

  lemma MiddleRules()
    requires Valid(EXAMPLE)
    ensures Rhs(EXAMPLE, 4) == [7, 7, 3] && Rhs(EXAMPLE, 5) == [7, 8]
  {
    hide Valid, Rhs;
    RhsIs(4, [7, 7, 3]);
    RhsIs(5, [7, 8]);
  }

  lemma HighRules()
    requires Valid(EXAMPLE)
    ensures Rhs(EXAMPLE, 6) == [9] && Rhs(EXAMPLE, 7) == [6, 9] && Rhs(EXAMPLE, 8) == [8] && Rhs(EXAMPLE, 9) == []
  {
    hide Valid, Rhs;
    RhsIs(6, [9]);
    RhsIs(7, [6, 9]);
    RhsIs(8, [8]);
    RhsIs(9, []);
  }

  lemma RhsIs(r: nat, w: seq<int>)
    requires Valid(EXAMPLE) && 2 <= r < 10 && EXAMPLE.rrhs[r] + |w| + 1 == EXAMPLE.rrhs[r + 1] <= 22
    requires |w| > 0 ==> EXAMPLE.ritem[EXAMPLE.rrhs[r]] == w[0]
    requires |w| > 1 ==> EXAMPLE.ritem[EXAMPLE.rrhs[r] + 1] == w[1]
    requires |w| > 2 ==> EXAMPLE.ritem[EXAMPLE.rrhs[r] + 2] == w[2] && |w| == 3
    ensures Rhs(EXAMPLE, r) == w
  {
    hide Valid;
    var rhs := Rhs(EXAMPLE, r);
    forall k | 0 <= k < |w| ensures rhs[k] == w[k] {
      assert k == 0 || k == 1 || k == 2;
    }
  }

  /** The items before a token. */
  lemma TokenItem(i: nat)
    requires i < 22 && 0 < EXAMPLE.ritem[i] < 4
    ensures (i == 4 && EXAMPLE.ritem[i] == 2) || (i == 9 && EXAMPLE.ritem[i] == 3)
  {
  }

  // ---------- What states hold ----------

  lemma StartKernel(a: Automaton)
    requires Valid(EXAMPLE) && IsAutomaton(EXAMPLE, a)
    ensures |a.states| > 0 && SetOf(a.states[0].items) == {1}
  {
  }

  lemma ClosedAdded(k: set<nat>)
    requires Valid(EXAMPLE) && (1 in k ==> 4 in k && 7 in k)
    ensures ClosedItems(EXAMPLE, k + FIRSTS)
  {
    hide Valid;
    var g := EXAMPLE;
    forall i: nat, r: nat | i in k + FIRSTS && i < |g.ritem| && IsRule(g, r) && g.ritem[i] == g.rlhs[r]
      ensures g.rrhs[r] in k + FIRSTS
    {
      RuleBehind(i, r);
    }
  }

  /** Rules of s come in behind item 1 only; all others begin with one of those items. */
  lemma RuleBehind(i: nat, r: nat)
    requires i < 22 && 2 <= r < 10 && EXAMPLE.ritem[i] == EXAMPLE.rlhs[r]
    ensures EXAMPLE.rrhs[r] in FIRSTS || (i == 1 && (EXAMPLE.rrhs[r] == 4 || EXAMPLE.rrhs[r] == 7))
  {
    assert r < 5 ==> EXAMPLE.rlhs[r] == (if r == 2 then 4 else 5);
    if r < 5 {
      assert i == 1;
    }
  }

  lemma StartShape(a: Automaton, i: nat)
    requires Valid(EXAMPLE) && IsAutomaton(EXAMPLE, a) && |a.states| > 0 && i in ItemsOf(EXAMPLE, a.states[0])
    ensures i in FIRSTS || i == 1 || i == 4 || i == 7
  {
    hide IsAutomaton, Valid, ClosureSet, ClosedItems;
    StartKernel(a);
    ClosedAdded({1, 4, 7});
    ClosureIsLeast(EXAMPLE, {1}, {1, 4, 7} + FIRSTS);
  }

  lemma NextShape(a: Automaton, q: nat, i: nat)
    requires Valid(EXAMPLE) && IsAutomaton(EXAMPLE, a) && 0 < q < |a.states| && i in ItemsOf(EXAMPLE, a.states[q])
    ensures i in FIRSTS ||
      (i in SetOf(a.states[q].items) && 1 < i < 22 && EXAMPLE.ritem[i - 1] == a.states[q].symbol > 0)
  {
    hide IsAutomaton, Valid, ClosureSet, ClosedItems;
    var k := SetOf(a.states[q].items);
    StateItems(EXAMPLE, a, q);
    ClosedAdded(k);
    ClosureIsLeast(EXAMPLE, k, k + FIRSTS);
  }

  /** An item that closure adds, or one of the kernel, whose symbol before the dot is that of the state. */
  lemma Shape(a: Automaton, q: nat, i: nat)
    requires Valid(EXAMPLE) && IsAutomaton(EXAMPLE, a) && q < |a.states| && i in ItemsOf(EXAMPLE, a.states[q])
    ensures i < 22 && if q == 0 then i in FIRSTS || i == 1 || i == 4 || i == 7
      else i in FIRSTS || (i in SetOf(a.states[q].items) && i > 1 && EXAMPLE.ritem[i - 1] == a.states[q].symbol > 0)
  {
    hide IsAutomaton, Valid, ItemsOf;
    if q == 0 {
      StartShape(a, i);
    } else {
      NextShape(a, q, i);
    }
  }

  /** What a successor holds beside those comes from the state before. */
  lemma Back(a: Automaton, q: nat, x: int, p: nat, i: nat)
    requires Valid(EXAMPLE) && IsAutomaton(EXAMPLE, a) && Edge(a, q, x, p) && i in ItemsOf(EXAMPLE, a.states[p])
    ensures q < |a.states| && 0 < p && x == a.states[p].symbol > 0
    ensures i !in FIRSTS ==> 0 < i < 22 && EXAMPLE.ritem[i - 1] == x && i - 1 in ItemsOf(EXAMPLE, a.states[q])
  {
    hide IsAutomaton, Valid;
    EdgeGivesKernel(EXAMPLE, a, q, x, p);
    Shape(a, p, i);
  }

  /** Only v and x are shifted: v at the start, x behind b b. */
  lemma TokenEdge(a: Automaton, q: nat, t: int, p: nat)
    requires Valid(EXAMPLE) && IsAutomaton(EXAMPLE, a) && Edge(a, q, t, p) && t < 4
    ensures q < |a.states| && if t == 2 then q == 0 && 4 in ItemsOf(EXAMPLE, a.states[q])
      else t == 3 && q > 0 && 9 in ItemsOf(EXAMPLE, a.states[q])
  {
    hide IsAutomaton, Valid, Edge, ItemsOf;
    EdgeGivesKernel(EXAMPLE, a, q, t, p);
    var i :| i in ItemsOf(EXAMPLE, a.states[q]) && i < 22 && EXAMPLE.ritem[i] == t;
    TokenItem(i);
    Shape(a, q, i);
  }

  // ---------- What can be read ----------

  /** u is not nullable: it derives no string of tokens at all. */
  lemma NullableAre(x: int)
    requires Valid(EXAMPLE) && IsNullable(EXAMPLE, x)
    ensures x == 6 || x == 7 || x == 8
  {
    hide Valid;
    var g, s := EXAMPLE, {6, 7, 8};
    ExampleRules();
    forall r | FIRST_RULE <= r < |g.rlhs| && IsRule(g, r) && Nullable.AllIn(Rhs(g, r), s) ensures g.rlhs[r] in s {
      assert r == 2 || r == 3 || r == 4 || r == 5 || r == 6 || r == 7 || r == 8 || r == 9;
      assert Rhs(g, r) != [] ==> Rhs(g, r)[0] in s && Rhs(g, r)[|Rhs(g, r)| - 1] in s;
    }
    var d :| DerivesBy(g, d, [x], []);
    Nullable.EmptyIsLeast(g, s, d);
    assert d[0][0] == x;
  }

  /** Only x, behind b b, and $end are ever read. */
  ghost predicate IsRead(a: Automaton, m: GotoTable, k: nat, t: int)
    requires Valid(EXAMPLE)
  {
    k < |m.toState| && m.toState[k] < |a.states| && ((t == END && k == 0) || (t == 3 &&
      (8 in ItemsOf(EXAMPLE, a.states[m.toState[k]]) || 9 in ItemsOf(EXAMPLE, a.states[m.toState[k]]))))
  }

  lemma DirectlyReadIs(a: Automaton, m: GotoTable, k: nat, t: int)
    requires Valid(EXAMPLE) && IsAutomaton(EXAMPLE, a) && IsGotoTable(EXAMPLE, a, m) && k < |m.toState|
    requires DirectlyReads(EXAMPLE, a, m, k, t)
    ensures m.toState[k] < |a.states|
    ensures (t == END && k == 0) || (t == 3 && 9 in ItemsOf(EXAMPLE, a.states[m.toState[k]]))
  {
    hide IsAutomaton, Valid, IsGotoTable, Edge, ItemsOf;
    TargetIs(a, m, k);
    if 0 < t < 4 {
      var p :| Edge(a, m.toState[k], t, p);
      TokenEdge(a, m.toState[k], t, p);
    }
  }

  lemma TargetIs(a: Automaton, m: GotoTable, k: nat)
    requires Valid(EXAMPLE) && IsAutomaton(EXAMPLE, a) && IsGotoTable(EXAMPLE, a, m) && k < |m.toState|
    ensures k < |m.fromState| && 0 < m.toState[k] < |a.states| && m.fromState[k] < |a.states|
    ensures Edge(a, m.fromState[k], a.states[m.toState[k]].symbol, m.toState[k])
    ensures k == 0 ==> m.fromState[k] == 0 && a.states[m.toState[k]].symbol == 5
  {
    hide IsAutomaton, Valid, IsGotoTable;
    var first := Lookaheads.FirstGoto(EXAMPLE, a, m);
    SameLength(a, m);
    var v := GotoEntry(EXAMPLE, a, m, k);
    EdgeGivesKernel(EXAMPLE, a, m.fromState[k], 4 + v, m.toState[k]);
  }

  lemma SameLength(a: Automaton, m: GotoTable)
    requires Valid(EXAMPLE) && IsGotoTable(EXAMPLE, a, m)
    ensures |m.toState| == |m.fromState|
  {
  }

  lemma {:induction false} ReadIs(a: Automaton, m: GotoTable, k: nat, path: seq<nat>, j: nat, t: int)
    requires Valid(EXAMPLE) && IsAutomaton(EXAMPLE, a) && IsGotoTable(EXAMPLE, a, m)
    requires PathFromTo(ReadsGraph(EXAMPLE, a, m), path, k, j) && k < |m.toState| && j < |m.toState|
    requires DirectlyReads(EXAMPLE, a, m, j, t)
    ensures IsRead(a, m, k, t)
    decreases |path|
  {
    hide IsAutomaton, Valid, IsGotoTable, DirectlyReads, ReadsGraph, Edge;
    TargetIs(a, m, k);
    if |path| == 1 {
      DirectlyReadIs(a, m, k, t);
    } else {
      var h := ReadsGraph(EXAMPLE, a, m);
      FirstEdge(h, path, k, j);
      SubPath(h, path, 1, |path| - 1);
      assert path[1..|path| - 1 + 1] == path[1..];
      ReadIs(a, m, path[1], path[1..], j, t);
      var y, p := ReadsMeans(EXAMPLE, a, m, k, path[1]);
      TargetIs(a, m, path[1]);
      if t == 3 {
        var i := if 8 in ItemsOf(EXAMPLE, a.states[p]) then 8 else 9;
        Back(a, m.toState[k], y, p, i);
        Shape(a, m.toState[k], i - 1);
      }
    }
  }

  lemma CanReadIs(a: Automaton, m: GotoTable, k: nat, t: int)
    requires Valid(EXAMPLE) && IsAutomaton(EXAMPLE, a) && IsGotoTable(EXAMPLE, a, m)
    requires CanRead(EXAMPLE, a, m, k, t) && k < |m.toState|
    ensures IsRead(a, m, k, t)
  {
    hide IsAutomaton, Valid, IsGotoTable, DirectlyReads, ReadsGraph, IsRead;
    var h := ReadsGraph(EXAMPLE, a, m);
    var j: nat :| Reach(h, k, j) && j < |m.toState| && DirectlyReads(EXAMPLE, a, m, j, t);
    var path :| PathFromTo(h, path, k, j);
    ReadIs(a, m, k, path, j, t);
  }

  // ---------- What can follow ----------

  /** A token that can follow goto k is read from there, or follows a goto that k includes. */
  lemma FollowUnrolled(a: Automaton, m: GotoTable, k: nat, t: int) returns (l: nat)
    requires Valid(EXAMPLE) && IsAutomaton(EXAMPLE, a) && IsGotoTable(EXAMPLE, a, m)
    requires k < |m.toState| && CanFollow(EXAMPLE, a, m, k, t)
    ensures IsRead(a, m, k, t) ||
      (l < |m.toState| && l in IncludesGraph(EXAMPLE, a, m)[k] && CanFollow(EXAMPLE, a, m, l, t))
  {
    hide IsAutomaton, Valid, IsGotoTable, DirectlyReads, ReadsGraph, IncludesGraph, IsRead;
    var h := IncludesGraph(EXAMPLE, a, m);
    var i: nat, j: nat :| FollowsBy(EXAMPLE, a, m, k, t, i, j);
    var path :| PathFromTo(h, path, k, i);
    l := k;
    if |path| == 1 {
      assert CanRead(EXAMPLE, a, m, k, t);
      CanReadIs(a, m, k, t);
    } else {
      FirstEdge(h, path, k, i);
      l := path[1];
      SubPath(h, path, 1, |path| - 1);
      assert path[1..|path| - 1 + 1] == path[1..];
      assert Reach(h, l, i);
      assert FollowsBy(EXAMPLE, a, m, l, t, i, j);
    }
  }

  /** The places in rules behind which everything is nullable. */
  lemma EndingPlaces(r: nat, j: nat)
    requires Valid(EXAMPLE) && IsRule(EXAMPLE, r) && j < |Rhs(EXAMPLE, r)| && IsVar(EXAMPLE, Rhs(EXAMPLE, r)[j])
    requires AllNullable(EXAMPLE, Rhs(EXAMPLE, r)[j + 1..])
    ensures (r == 3 && j == 1) || r == 5 || r == 6 || (r == 7 && j == 1) || r == 8
  {
    hide Valid, IsNullable;
    ExampleRules();
    assert r == 2 || r == 3 || r == 4 || r == 5 || r == 6 || r == 7 || r == 8 || r == 9;
    var after := Rhs(EXAMPLE, r)[j + 1..];
    if after != [] {
      assert after[|after| - 1] == Rhs(EXAMPLE, r)[|Rhs(EXAMPLE, r)| - 1];
      assert IsNullable(EXAMPLE, after[|after| - 1]);
      NullableAre(after[|after| - 1]);
    }
  }

  /** How one goto includes another in this grammar. */
  lemma IncludesAre(a: Automaton, m: GotoTable, k: nat, l: nat) returns (x: int, y: int)
    requires Valid(EXAMPLE) && IsAutomaton(EXAMPLE, a) && IsGotoTable(EXAMPLE, a, m)
    requires k < |m.toState| && l < |m.toState| && l in IncludesGraph(EXAMPLE, a, m)[k]
    ensures k < |m.fromState| && l < |m.fromState|
    ensures GotoIs(a, m, k, m.fromState[k], x, m.toState[k]) && GotoIs(a, m, l, m.fromState[l], y, m.toState[l])
    ensures x != 5 && (x == 6 ==> y == 5 && Edge(a, m.fromState[l], 2, m.fromState[k]))
    ensures x == 7 ==> y == 6 && m.fromState[l] == m.fromState[k]
    ensures x == 8 && y != 7 ==> y == 6 && Edge(a, m.fromState[l], 7, m.fromState[k])
    ensures x == 8 && y == 7 ==> m.fromState[l] == m.fromState[k]
  {
    hide IsAutomaton, Valid, IsGotoTable, Edge, Walks;
    var r, j, p, p', q, q' := IncludesMeans(EXAMPLE, a, m, k, l);
    assert IncludesBy(EXAMPLE, a, m, k, l, r, j, p, p', q, q');
    var rhs := Rhs(EXAMPLE, r);
    x, y := rhs[j], EXAMPLE.rlhs[r];
    ExampleRules();
    EndingPlaces(r, j);
    ShortWalk(a, p', rhs[..j], p);
    assert j == 1 ==> rhs[..j] == [rhs[0]];
  }

  lemma ShortWalk(a: Automaton, q: nat, w: seq<int>, p: nat)
    requires Walks(a, q, w, p)
    ensures w == [] ==> p == q
    ensures |w| == 1 ==> Edge(a, q, w[0], p)
  {
    hide Edge;
    var states :| IsWalk(a, q, w, states) && states[|w|] == p;
    if |w| == 1 {
      assert Edge(a, states[0], w[0], states[0 + 1]);
    }
  }

  lemma SymbolOf(a: Automaton, m: GotoTable, k: nat, q: nat, x: int, p: nat)
    requires GotoIs(a, m, k, q, x, p)
    ensures k < |m.fromState| && k < |m.toState| && m.fromState[k] == q && m.toState[k] == p < |a.states|
    ensures a.states[p].symbol == x
  {
  }

  /** Behind s comes the end, and nothing else. */
  lemma FollowS(a: Automaton, m: GotoTable, k: nat, q: nat, p: nat, t: int)
    requires Valid(EXAMPLE) && IsAutomaton(EXAMPLE, a) && IsGotoTable(EXAMPLE, a, m)
    requires GotoIs(a, m, k, q, 5, p) && CanFollow(EXAMPLE, a, m, k, t)
    ensures t == END
  {
    hide IsAutomaton, Valid, IsGotoTable, Edge, CanFollow, IncludesGraph;
    SymbolOf(a, m, k, q, 5, p);
    var l := FollowUnrolled(a, m, k, t);
    if IsRead(a, m, k, t) {
      ReadOverB(a, m, k, t);
    } else {
      var x, y := IncludesAre(a, m, k, l);
      SymbolOf(a, m, k, q, x, p);
    }
  }

  /** Only over b does one come to where x is read, and that from a state with b b x before it. */
  lemma ReadOverB(a: Automaton, m: GotoTable, k: nat, t: int)
    requires Valid(EXAMPLE) && IsAutomaton(EXAMPLE, a) && IsGotoTable(EXAMPLE, a, m) && IsRead(a, m, k, t)
    ensures k < |m.fromState| && m.fromState[k] < |a.states|
    ensures a.states[m.toState[k]].symbol == 7 ==> t == 3
    ensures a.states[m.toState[k]].symbol != 7 ==> t == END && k == 0 && a.states[m.toState[k]].symbol == 5
    ensures t == 3 && 7 !in ItemsOf(EXAMPLE, a.states[m.fromState[k]]) ==>
      8 in ItemsOf(EXAMPLE, a.states[m.fromState[k]])
  {
    hide IsAutomaton, Valid, IsGotoTable, Edge;
    TargetIs(a, m, k);
    if t == 3 {
      var p := m.toState[k];
      var i := if 8 in ItemsOf(EXAMPLE, a.states[p]) then 8 else 9;
      Back(a, m.fromState[k], a.states[p].symbol, p, i);
    }
  }

  /** Behind a the end can come, where v stands before it. */
  lemma FollowA(a: Automaton, m: GotoTable, k: nat, q: nat, p: nat, t: int)
    requires Valid(EXAMPLE) && IsAutomaton(EXAMPLE, a) && IsGotoTable(EXAMPLE, a, m)
    requires GotoIs(a, m, k, q, 6, p) && CanFollow(EXAMPLE, a, m, k, t)
    ensures q < |a.states| && t == END && 5 in ItemsOf(EXAMPLE, a.states[q])
  {
    hide IsAutomaton, Valid, IsGotoTable, Edge, CanFollow, IncludesGraph;
    SymbolOf(a, m, k, q, 6, p);
    TargetIs(a, m, k);
    var l := FollowUnrolled(a, m, k, t);
    if IsRead(a, m, k, t) {
      ReadOverB(a, m, k, t);
    } else {
      var x, y := IncludesAre(a, m, k, l);
      SymbolOf(a, m, k, q, x, p);
      FollowS(a, m, l, m.fromState[l], m.toState[l], t);
      BehindV(a, m.fromState[l], q);
    }
  }

  lemma BehindV(a: Automaton, q: nat, p: nat)
    requires Valid(EXAMPLE) && IsAutomaton(EXAMPLE, a) && Edge(a, q, 2, p)
    ensures p < |a.states| && 5 in ItemsOf(EXAMPLE, a.states[p])
  {
    hide IsAutomaton, Valid;
    TokenEdge(a, q, 2, p);
    EdgeGivesKernel(EXAMPLE, a, q, 2, p);
    assert 4 + 1 in GotoSet(EXAMPLE, ItemsOf(EXAMPLE, a.states[q]), 2);
  }

  /** Behind b there can be x, or the end. */
  lemma FollowB(a: Automaton, m: GotoTable, k: nat, q: nat, p: nat, t: int)
    requires Valid(EXAMPLE) && IsAutomaton(EXAMPLE, a) && IsGotoTable(EXAMPLE, a, m)
    requires GotoIs(a, m, k, q, 7, p) && CanFollow(EXAMPLE, a, m, k, t)
    ensures q < |a.states| && if t == 3
      then 7 in ItemsOf(EXAMPLE, a.states[q]) || 8 in ItemsOf(EXAMPLE, a.states[q])
      else t == END && 5 in ItemsOf(EXAMPLE, a.states[q])
  {
    hide IsAutomaton, Valid, IsGotoTable, Edge, CanFollow, IncludesGraph;
    SymbolOf(a, m, k, q, 7, p);
    TargetIs(a, m, k);
    var l := FollowUnrolled(a, m, k, t);
    if IsRead(a, m, k, t) {
      ReadOverB(a, m, k, t);
    } else {
      var x, y := IncludesAre(a, m, k, l);
      SymbolOf(a, m, k, q, x, p);
      FollowA(a, m, l, q, m.toState[l], t);
    }
  }

  /** Behind c there can be what is behind b, or, behind b c, the end. */
  lemma FollowC(a: Automaton, m: GotoTable, k: nat, q: nat, p: nat, t: int)
    requires Valid(EXAMPLE) && IsAutomaton(EXAMPLE, a) && IsGotoTable(EXAMPLE, a, m)
    requires GotoIs(a, m, k, q, 8, p) && CanFollow(EXAMPLE, a, m, k, t)
    ensures q < |a.states| && (t == 3 || t == END)
    ensures t == 3 ==> 7 in ItemsOf(EXAMPLE, a.states[q]) || 8 in ItemsOf(EXAMPLE, a.states[q])
    ensures t == END ==> 5 in ItemsOf(EXAMPLE, a.states[q]) || a.states[q].symbol == 7
  {
    hide IsAutomaton, Valid, IsGotoTable, Edge, CanFollow, IncludesGraph;
    SymbolOf(a, m, k, q, 8, p);
    TargetIs(a, m, k);
    var l := FollowUnrolled(a, m, k, t);
    if IsRead(a, m, k, t) {
      ReadOverB(a, m, k, t);
    } else {
      var x, y := IncludesAre(a, m, k, l);
      SymbolOf(a, m, k, q, x, p);
      if y == 7 {
        FollowB(a, m, l, q, m.toState[l], t);
      } else {
        FollowA(a, m, l, m.fromState[l], m.toState[l], t);
        EdgeGivesKernel(EXAMPLE, a, m.fromState[l], 7, q);
        SymbolOnEdge(a, m.fromState[l], 7, q);
      }
    }
  }

  lemma SymbolOnEdge(a: Automaton, q: nat, x: int, p: nat)
    requires Edge(a, q, x, p)
    ensures p < |a.states| && a.states[p].symbol == x
  {
  }

  // ---------- No conflicts ----------

  /** Where a reduction comes from: it looks back to a goto that its token can follow. */
  lemma ReductionFrom(a: Automaton, m: GotoTable, q: nat, r: nat, t: nat) returns (k: nat, p: nat, p': nat)
    requires Valid(EXAMPLE) && IsAutomaton(EXAMPLE, a) && IsGotoTable(EXAMPLE, a, m)
    requires MayReduce(EXAMPLE, a, m, q, r, t)
    ensures q < |a.states| && 3 <= r < 10 && EXAMPLE.rrhs[r + 1] - 1 in ItemsOf(EXAMPLE, a.states[q])
    ensures GotoIs(a, m, k, p, EXAMPLE.rlhs[r], p') && CanFollow(EXAMPLE, a, m, k, t)
    ensures Walks(a, p, Rhs(EXAMPLE, r), q)
  {
    hide IsAutomaton, Valid, IsGotoTable, DirectlyReads, ReadsGraph, IncludesGraph, Walks;
    CompleteRule(EXAMPLE, a, q, r);
    var i: nat, j: nat, l: nat :| LookaheadBy(EXAMPLE, a, m, q, r, t, i, j, l);
    k := i;
    assert FollowsBy(EXAMPLE, a, m, k, t, j, l);
    p, p' :| GotoIs(a, m, k, p, EXAMPLE.rlhs[r], p') && Walks(a, p, Rhs(EXAMPLE, r), q);
  }

  /** Reductions to c: only where b b x can go on, or behind v or b. */
  lemma ReducesToC(a: Automaton, m: GotoTable, q: nat, r: nat, t: nat) returns (p: nat)
    requires Valid(EXAMPLE) && IsAutomaton(EXAMPLE, a) && IsGotoTable(EXAMPLE, a, m)
    requires MayReduce(EXAMPLE, a, m, q, r, t)
    requires r == 6 || r == 9
    ensures p < |a.states| && (t == 3 || t == END) && if r == 9 then p == q else Edge(a, p, 9, q)
    ensures t == 3 ==> 7 in ItemsOf(EXAMPLE, a.states[p]) || 8 in ItemsOf(EXAMPLE, a.states[p])
    ensures t == END ==> 5 in ItemsOf(EXAMPLE, a.states[p]) || a.states[p].symbol == 7
  {
    hide IsAutomaton, Valid, IsGotoTable, Walks, CanFollow, Edge;
    var k, p';
    k, p, p' := ReductionFrom(a, m, q, r, t);
    ExampleRules();
    ShortWalk(a, p, Rhs(EXAMPLE, r), q);
    FollowC(a, m, k, p, p', t);
  }

  /** Behind a, where nothing reads x or ends, no rule of c is ever reduced. */
  lemma NoneBehindA(a: Automaton, q: nat, i: nat)
    requires Valid(EXAMPLE) && IsAutomaton(EXAMPLE, a) && q < |a.states| && i in ItemsOf(EXAMPLE, a.states[q])
    requires i == 6 || i == 17
    ensures 7 !in ItemsOf(EXAMPLE, a.states[q]) && 8 !in ItemsOf(EXAMPLE, a.states[q])
    ensures 5 !in ItemsOf(EXAMPLE, a.states[q]) && a.states[q].symbol != 7
  {
    hide IsAutomaton, Valid, ItemsOf;
    Shape(a, q, i);
    forall j | j == 5 || j == 7 || j == 8 ensures j !in ItemsOf(EXAMPLE, a.states[q]) {
      if j in ItemsOf(EXAMPLE, a.states[q]) {
        Shape(a, q, j);
      }
    }
  }

  lemma TokenOf(a: Automaton, m: GotoTable, q: nat, r: nat, t: nat)
    requires Valid(EXAMPLE) && IsAutomaton(EXAMPLE, a) && IsGotoTable(EXAMPLE, a, m)
    requires MayReduce(EXAMPLE, a, m, q, r, t)
    ensures t == END || t == 3
  {
    hide IsAutomaton, Valid, IsGotoTable, Walks, DirectlyReads, ReadsGraph, IncludesGraph;
    var i: nat, j: nat, l: nat :| LookaheadBy(EXAMPLE, a, m, q, r, t, i, j, l);
    DirectlyReadIs(a, m, l, t);
  }

  /** Where closure adds items, the kernel has one with a nonterminal behind the dot. */
  lemma SomethingOpen(a: Automaton, q: nat) returns (i: nat)
    requires Valid(EXAMPLE) && IsAutomaton(EXAMPLE, a) && 0 < q < |a.states| && 21 in ItemsOf(EXAMPLE, a.states[q])
    ensures i < 22 && EXAMPLE.ritem[i] > 3 && 0 < i && EXAMPLE.ritem[i - 1] == a.states[q].symbol
  {
    hide IsAutomaton, Valid;
    var k := SetOf(a.states[q].items);
    StateItems(EXAMPLE, a, q);
    NextShape(a, q, 21);
    var r: nat :| r < 10 && Pulled(EXAMPLE, k, r) && EXAMPLE.rrhs[r] == 21;
    var x;
    i, x :| i in k && Before(EXAMPLE, i, x) && IsFirstRule(EXAMPLE, x, r);
    NextShape(a, q, i);
    IsHeld(a, q, i);
  }

  lemma IsHeld(a: Automaton, q: nat, i: nat)
    requires Valid(EXAMPLE) && IsAutomaton(EXAMPLE, a) && 0 < q < |a.states| && i in SetOf(a.states[q].items)
    ensures 0 < i < 22 && EXAMPLE.ritem[i - 1] == a.states[q].symbol
  {
    StateItems(EXAMPLE, a, q);
    var l :| 0 <= l < |a.states[q].items| && a.states[q].items[l] == i;
  }

  /** The item in which rule r is complete, and the symbol before its end. */
  lemma RuleEnd(r: nat)
    requires 3 <= r < 9
    ensures EXAMPLE.rrhs[r + 1] - 1 == (if r == 3 then 6 else if r == 4 then 10 else if r == 5 then 13
      else if r == 6 then 15 else if r == 7 then 18 else 20)
    ensures EXAMPLE.ritem[EXAMPLE.rrhs[r + 1] - 2] == (if r == 3 then 6 else if r == 4 then 3 else if r == 5 || r == 8
      then 8 else 9)
  {
  }

  /** The rules that can be complete in one state. */
  lemma SharedEnds(a: Automaton, q: nat, r: nat, r': nat)
    requires Valid(EXAMPLE) && IsAutomaton(EXAMPLE, a) && q < |a.states| && 3 <= r < r' < 10
    requires EXAMPLE.rrhs[r + 1] - 1 in ItemsOf(EXAMPLE, a.states[q])
    requires EXAMPLE.rrhs[r' + 1] - 1 in ItemsOf(EXAMPLE, a.states[q])
    ensures (r == 3 && r' == 9) || (r == 6 && r' == 7) || (r == 5 && r' == 8)
  {
    hide IsAutomaton, Valid, ItemsOf;
    RuleEnd(r);
    Shape(a, q, EXAMPLE.rrhs[r + 1] - 1);
    if r' < 9 {
      RuleEnd(r');
      Shape(a, q, EXAMPLE.rrhs[r' + 1] - 1);
    } else {
      var i := SomethingOpen(a, q);
      OpenSymbol(i);
    }
  }

  lemma OpenSymbol(i: nat)
    requires 0 < i < 22 && EXAMPLE.ritem[i] > 3
    ensures EXAMPLE.ritem[i - 1] !in {3, 5, 8, 9}
  {
  }

  /** Two rules are never reduced before the same token. */
  lemma OneReduction(a: Automaton, m: GotoTable, q: nat, r: nat, r': nat, t: nat)
    requires Valid(EXAMPLE) && IsAutomaton(EXAMPLE, a) && IsGotoTable(EXAMPLE, a, m)
    requires MayReduce(EXAMPLE, a, m, q, r, t) && MayReduce(EXAMPLE, a, m, q, r', t)
    ensures r >= r'
  {
    hide IsAutomaton, Valid, IsGotoTable, Walks, CanFollow, MayReduce, ItemsOf, Edge;
    var k, p, p1 := ReductionFrom(a, m, q, r, t);
    var k', p', p1' := ReductionFrom(a, m, q, r', t);
    if r < r' {
      SharedEnds(a, q, r, r');
      if r == 3 {
        NoneBehindA(a, q, 6);
        var b := ReducesToC(a, m, q, 9, t);
      } else if r == 6 {
        var b := ReducesToC(a, m, q, 6, t);
        Back(a, b, 9, q, 18);
        NoneBehindA(a, b, 17);
      } else {
        FollowA(a, m, k, p, p1, t);
        BehindB(a, m, q, k', p', p1', t);
      }
    }
  }

  /** Behind b c, b can be what c becomes only before x. */
  lemma BehindB(a: Automaton, m: GotoTable, q: nat, k: nat, p: nat, p1: nat, t: nat)
    requires Valid(EXAMPLE) && IsAutomaton(EXAMPLE, a) && IsGotoTable(EXAMPLE, a, m) && q < |a.states|
    requires 13 in ItemsOf(EXAMPLE, a.states[q]) && Walks(a, p, Rhs(EXAMPLE, 8), q)
    requires GotoIs(a, m, k, p, 7, p1) && CanFollow(EXAMPLE, a, m, k, t)
    ensures t == 3
  {
    hide IsAutomaton, Valid, IsGotoTable, Walks, CanFollow, ItemsOf, Edge;
    ExampleRules();
    ShortWalk(a, p, [8], q);
    Back(a, p, 8, q, 13);
    FollowB(a, m, k, p, p1, t);
    Shape(a, p, 12);
    if 5 in ItemsOf(EXAMPLE, a.states[p]) {
      Shape(a, p, 5);
    }
  }

  /** A token that is shifted is not one before which a rule is reduced. */
  lemma ShiftOrReduce(a: Automaton, m: GotoTable, q: nat, r: nat, t: nat, p: nat)
    requires Valid(EXAMPLE) && IsAutomaton(EXAMPLE, a) && IsGotoTable(EXAMPLE, a, m)
    requires MayReduce(EXAMPLE, a, m, q, r, t)
    ensures !Edge(a, q, t, p)
  {
    hide IsAutomaton, Valid, IsGotoTable, Walks, CanFollow, MayReduce, ItemsOf, Edge;
    TokenOf(a, m, q, r, t);
    if Edge(a, q, t, p) {
      EdgeGivesKernel(EXAMPLE, a, q, t, p);
      TokenEdge(a, q, t, p);
      var k, b, b1 := ReductionFrom(a, m, q, r, t);
      Shape(a, q, 9);
      if r < 9 {
        RuleEnd(r);
        Shape(a, q, EXAMPLE.rrhs[r + 1] - 1);
      } else {
        var b := ReducesToC(a, m, q, 9, t);
        NotBoth(a, q);
      }
    }
  }

  /** Behind b b there is not also a first b. */
  lemma NotBoth(a: Automaton, q: nat)
    requires Valid(EXAMPLE) && IsAutomaton(EXAMPLE, a) && q < |a.states| && 9 in ItemsOf(EXAMPLE, a.states[q])
    ensures 7 !in ItemsOf(EXAMPLE, a.states[q]) && 8 !in ItemsOf(EXAMPLE, a.states[q])
  {
    hide IsAutomaton, Valid, ItemsOf, Edge;
    Shape(a, q, 9);
    var p := FoundBefore(EXAMPLE, a, q);
    Back(a, p, a.states[q].symbol, q, 9);
    Shape(a, p, 8);
    if 7 in ItemsOf(EXAMPLE, a.states[q]) {
      Shape(a, q, 7);
    }
    if 8 in ItemsOf(EXAMPLE, a.states[q]) {
      Back(a, p, a.states[q].symbol, q, 8);
      Shape(a, p, 7);
    }
  }

  /** The final state holds nothing but the accepting item. */
  lemma NothingAtEnd(a: Automaton, m: GotoTable, q: nat, r: nat, t: nat)
    requires Valid(EXAMPLE) && IsAutomaton(EXAMPLE, a) && IsGotoTable(EXAMPLE, a, m) && Edge(a, 0, 5, q)
    ensures !MayReduce(EXAMPLE, a, m, q, r, t)
  {
    hide IsAutomaton, Valid, IsGotoTable, ItemsOf, Edge, MayReduce, Walks, CanFollow;
    EdgeGivesKernel(EXAMPLE, a, 0, 5, q);
    SymbolOnEdge(a, 0, 5, q);
    if MayReduce(EXAMPLE, a, m, q, r, t) {
      var k, p, p' := ReductionFrom(a, m, q, r, t);
      if r < 9 {
        RuleEnd(r);
        Shape(a, q, EXAMPLE.rrhs[r + 1] - 1);
      } else {
        var i := SomethingOpen(a, q);
        OpenSymbol(i);
      }
    }
  }

  /** The grammar has no conflicts. */
  lemma ExampleHasNoConflicts(s: Setup)
    requires s.g == EXAMPLE && Generated(s)
    ensures NoConflicts(s)
  {
    hide Generated, Valid, IsAutomaton, IsGotoTable, Edge, MayReduce;
    Basics(s);
    RowsAreAllowed(s);
    forall q, x, y | 0 <= q < |s.raw| && x in s.raw[q] && y in s.raw[q] && x.symbol == y.symbol ensures x == y {
      AllowedOnce(s, q, x, y);
    }
    if s.p.finalState < |s.raw| {
      ParserFinal(s);
      forall x | x in s.raw[s.p.finalState] ensures x.symbol != END {
        if x.symbol == END {
          Endless.NoShiftOnEnd(s, s.p.finalState, x);
          NothingAtEnd(s.a, s.m, s.p.finalState, x.number, END);
        }
      }
    }
  }

  lemma RowsAreAllowed(s: Setup)
    requires Generated(s) && Valid(s.g)
    ensures Covers(s.g, s.pr) && |s.raw| == |s.a.states|
    ensures forall q, x :: 0 <= q < |s.raw| && x in s.raw[q] ==> Allowed(s.g, s.a, s.m, s.pr, q, x)
  {
    hide Valid, IsAutomaton, IsGotoTable, Vectors.ValuesOk, Output.IsTables, Allowed, Sorted, Plain;
    forall q, x | 0 <= q < |s.raw| && x in s.raw[q] ensures Allowed(s.g, s.a, s.m, s.pr, q, x) {
      assert RowMade(s.g, s.a, s.m, s.pr, s.raw[q], s.p.rows[q], q, s.p.finalState);
    }
  }

  lemma AllowedOnce(s: Setup, q: nat, x: Action, y: Action)
    requires s.g == EXAMPLE && Generated(s) && Valid(EXAMPLE) && Covers(EXAMPLE, s.pr) && x.symbol == y.symbol
    requires Allowed(EXAMPLE, s.a, s.m, s.pr, q, x) && Allowed(EXAMPLE, s.a, s.m, s.pr, q, y)
    ensures x == y
  {
    hide Generated, Valid, IsAutomaton, IsGotoTable, Edge, MayReduce;
    Basics(s);
    var t := x.symbol;
    if Edge(s.a, q, t, x.number) && Edge(s.a, q, t, y.number) {
      EdgeUnique(EXAMPLE, s.a, q, t, x.number, y.number);
    }
    if MayReduce(EXAMPLE, s.a, s.m, q, x.number, t) {
      ShiftOrReduce(s.a, s.m, q, x.number, t, y.number);
      ShiftOrReduce(s.a, s.m, q, x.number, t, x.number);
      if MayReduce(EXAMPLE, s.a, s.m, q, y.number, t) {
        OneReduction(s.a, s.m, q, x.number, y.number, t);
        OneReduction(s.a, s.m, q, y.number, x.number, t);
      }
    }
    if MayReduce(EXAMPLE, s.a, s.m, q, y.number, t) {
      ShiftOrReduce(s.a, s.m, q, y.number, t, x.number);
      ShiftOrReduce(s.a, s.m, q, y.number, t, y.number);
    }
  }

  // ---------- The states of the run ----------

  /** A state with an item before a, b or c holds all that closure adds. */
  lemma HoldsFirsts(a: Automaton, q: nat, i: nat)
    requires Valid(EXAMPLE) && IsAutomaton(EXAMPLE, a) && q < |a.states| && i in ItemsOf(EXAMPLE, a.states[q])
    requires i == 5 || i == 8 || i == 12
    ensures FIRSTS <= ItemsOf(EXAMPLE, a.states[q])
  {
    hide IsAutomaton, Valid, ClosureSet;
    var c := ItemsOf(EXAMPLE, a.states[q]);
    ClosureIsClosed(EXAMPLE, SetOf(a.states[q].items));
    var g := EXAMPLE;
    assert i == 5 ==> g.rrhs[5] in c by { assert IsRule(g, 5) && g.ritem[5] == g.rlhs[5]; }
    assert i == 8 || i == 5 ==> g.rrhs[8] in c by { assert IsRule(g, 8) && g.ritem[8] == g.ritem[11] == g.rlhs[8]; }
    assert g.rrhs[6] in c && g.rrhs[9] in c by {
      assert IsRule(g, 6) && IsRule(g, 9) && g.ritem[12] == g.ritem[19] == g.rlhs[6] == g.rlhs[9];
    }
    assert g.rrhs[7] in c by { assert IsRule(g, 7) && g.ritem[14] == g.rlhs[7]; }
    assert g.rrhs[5] in c by { assert IsRule(g, 5) && g.ritem[16] == g.rlhs[5]; }
    assert g.rrhs[8] in c by { assert IsRule(g, 8) && g.ritem[11] == g.rlhs[8]; }
  }

  /** The states behind v, v c, v b and v b c: b leads from behind v b back to there. */
  datatype Loop = Loop(v: nat, vc: nat, vb: nat, vbc: nat)

  ghost predicate IsLoop(a: Automaton, w: Loop)
    requires Valid(EXAMPLE)
  {
    && Edge(a, 0, 2, w.v) && Edge(a, w.v, 8, w.vc) && Edge(a, w.v, 7, w.vb)
    && Edge(a, w.vb, 7, w.vb) && Edge(a, w.vb, 8, w.vbc) && w.v < |a.states| && w.vb < |a.states|
    && 5 in ItemsOf(EXAMPLE, a.states[w.v]) && 12 in ItemsOf(EXAMPLE, a.states[w.vb])
  }

  lemma FindLoop(a: Automaton) returns (w: Loop)
    requires Valid(EXAMPLE) && IsAutomaton(EXAMPLE, a)
    ensures IsLoop(a, w)
  {
    hide IsAutomaton, Valid, ItemsOf, Edge;
    StartHolds(a);
    var v := EdgeExists(EXAMPLE, a, 0, 4);
    HoldsFirsts(a, v, 5);
    var vb := EdgeExists(EXAMPLE, a, v, 11);
    var vc := EdgeExists(EXAMPLE, a, v, 19);
    EdgeGivesKernel(EXAMPLE, a, v, 7, vb);
    SymbolOnEdge(a, v, 7, vb);
    HoldsFirsts(a, vb, 12);
    var again := EdgeExists(EXAMPLE, a, vb, 11);
    var vbc := EdgeExists(EXAMPLE, a, vb, 12);
    NoFirstB(a, 0, 2, v);
    NoFirstB(a, v, 7, vb);
    SameOverB(a, v, vb, vb, again);
    w := Loop(v, vc, vb, vbc);
  }

  lemma StartHolds(a: Automaton)
    requires Valid(EXAMPLE) && IsAutomaton(EXAMPLE, a)
    ensures |a.states| > 0 && 1 in ItemsOf(EXAMPLE, a.states[0]) && 4 in ItemsOf(EXAMPLE, a.states[0])
    ensures 7 in ItemsOf(EXAMPLE, a.states[0])
  {
    hide IsAutomaton, Valid, ClosureSet;
    var g := EXAMPLE;
    StartKernel(a);
    ClosureIsClosed(g, {1});
    var c := ClosureSet(g, {1});
    assert g.rrhs[3] in c && g.rrhs[4] in c by {
      assert g.ritem[1] == g.rlhs[3] == g.rlhs[4] && IsRule(g, 3) && IsRule(g, 4);
    }
  }

  /** Behind v, and behind b there, b b x has not begun. */
  lemma NoFirstB(a: Automaton, q: nat, x: int, p: nat)
    requires Valid(EXAMPLE) && IsAutomaton(EXAMPLE, a) && Edge(a, q, x, p) && p < |a.states|
    requires x == 2 || (x == 7 && q > 0 && q < |a.states| && 5 in ItemsOf(EXAMPLE, a.states[q]))
    ensures 7 !in ItemsOf(EXAMPLE, a.states[p]) && 8 !in ItemsOf(EXAMPLE, a.states[p])
    ensures 9 !in ItemsOf(EXAMPLE, a.states[p])
  {
    hide IsAutomaton, Valid, ItemsOf, Edge;
    forall j | 7 <= j < 10 ensures j !in ItemsOf(EXAMPLE, a.states[p]) {
      if j in ItemsOf(EXAMPLE, a.states[p]) {
        Back(a, q, x, p, j);
        Shape(a, p, j);
        if x == 7 {
          Shape(a, q, j - 1);
          Shape(a, q, 5);
        }
      }
    }
  }

  /** Over b one then comes to one state. */
  lemma SameOverB(a: Automaton, q: nat, p: nat, q': nat, p': nat)
    requires Valid(EXAMPLE) && IsAutomaton(EXAMPLE, a) && Edge(a, q, 7, p) && Edge(a, q', 7, p')
    requires q < |a.states| && q' < |a.states| && p < |a.states| && p' < |a.states|
    requires 11 in ItemsOf(EXAMPLE, a.states[q]) && 11 in ItemsOf(EXAMPLE, a.states[q'])
    requires 7 !in ItemsOf(EXAMPLE, a.states[q]) && 8 !in ItemsOf(EXAMPLE, a.states[q])
    requires 7 !in ItemsOf(EXAMPLE, a.states[q']) && 8 !in ItemsOf(EXAMPLE, a.states[q'])
    ensures p == p'
  {
    hide IsAutomaton, Valid, ItemsOf, Edge;
    EdgeGivesKernel(EXAMPLE, a, q, 7, p);
    EdgeGivesKernel(EXAMPLE, a, q', 7, p');
    OverB(ItemsOf(EXAMPLE, a.states[q]));
    OverB(ItemsOf(EXAMPLE, a.states[q']));
    KernelsDiffer(a, p, p');
  }

  lemma OverB(c: set<nat>)
    requires 11 in c && 7 !in c && 8 !in c
    ensures GotoSet(EXAMPLE, c, 7) == {12}
  {
    assert 11 + 1 == 12;
    assert forall i :: 0 <= i < 22 && EXAMPLE.ritem[i] == 7 ==> i == 7 || i == 8 || i == 11;
  }

  lemma KernelsDiffer(a: Automaton, p: nat, q: nat)
    requires Valid(EXAMPLE) && IsAutomaton(EXAMPLE, a) && p < |a.states| && q < |a.states|
    requires SetOf(a.states[p].items) == SetOf(a.states[q].items)
    ensures p == q
  {
  }

  /** Behind b at the start of b b x, c leads to where it leads behind v b. */
  lemma FindX(a: Automaton, w: Loop) returns (b: nat, bb: nat, x: nat)
    requires Valid(EXAMPLE) && IsAutomaton(EXAMPLE, a) && IsLoop(a, w)
    ensures Edge(a, 0, 7, b) && Edge(a, b, 7, bb) && Edge(a, bb, 3, x) && Edge(a, b, 8, w.vbc) && b < |a.states|
  {
    hide IsAutomaton, Valid, ItemsOf, Edge;
    StartHolds(a);
    b := EdgeExists(EXAMPLE, a, 0, 7);
    EdgeGivesKernel(EXAMPLE, a, 0, 7, b);
    SymbolOnEdge(a, 0, 7, b);
    HoldsFirsts(a, b, 8);
    bb := EdgeExists(EXAMPLE, a, b, 8);
    SymbolOnEdge(a, b, 7, bb);
    x := EdgeExists(EXAMPLE, a, bb, 9);
    BehindFirstB(a, b);
    var c := EdgeExists(EXAMPLE, a, b, 12);
    HoldsFirsts(a, w.vb, 12);
    EdgeGivesKernel(EXAMPLE, a, b, 8, c);
    EdgeGivesKernel(EXAMPLE, a, w.vb, 8, w.vbc);
    SymbolOnEdge(a, b, 8, c);
    SymbolOnEdge(a, w.vb, 8, w.vbc);
    OverC(ItemsOf(EXAMPLE, a.states[b]));
    OverC(ItemsOf(EXAMPLE, a.states[w.vb]));
    KernelsDiffer(a, c, w.vbc);
  }

  lemma BehindFirstB(a: Automaton, b: nat)
    requires Valid(EXAMPLE) && IsAutomaton(EXAMPLE, a) && Edge(a, 0, 7, b) && b < |a.states|
    ensures 12 in ItemsOf(EXAMPLE, a.states[b])
  {
    hide IsAutomaton, Valid, Edge;
    StartHolds(a);
    var g := EXAMPLE;
    StartKernel(a);
    EdgeGivesKernel(g, a, 0, 7, b);
    ClosureIsClosed(g, {1});
    var c := ItemsOf(g, a.states[0]);
    assert 11 in c by { StartFirsts(a); }
    assert 11 + 1 in GotoSet(g, c, 7);
  }

  lemma StartFirsts(a: Automaton)
    requires Valid(EXAMPLE) && IsAutomaton(EXAMPLE, a)
    ensures |a.states| > 0 && 11 in ItemsOf(EXAMPLE, a.states[0])
  {
    hide IsAutomaton, Valid, ClosureSet;
    var g := EXAMPLE;
    StartHolds(a);
    StartKernel(a);
    ClosureIsClosed(g, {1});
    var c := ClosureSet(g, {1});
    assert g.rrhs[8] in c by { assert IsRule(g, 8) && g.ritem[7] == g.rlhs[8]; }
    assert g.rrhs[6] in c by { assert IsRule(g, 6) && g.ritem[19] == g.rlhs[6]; }
    assert g.rrhs[7] in c by { assert IsRule(g, 7) && g.ritem[14] == g.rlhs[7]; }
    assert g.rrhs[5] in c by { assert IsRule(g, 5) && g.ritem[16] == g.rlhs[5]; }
  }

  lemma OverC(c: set<nat>)
    requires 12 in c && 19 in c
    ensures GotoSet(EXAMPLE, c, 8) == {13, 20}
  {
    assert 12 + 1 == 13 && 19 + 1 == 20;
    assert forall i :: 0 <= i < 22 && EXAMPLE.ritem[i] == 8 ==> i == 12 || i == 19;
  }

  // ---------- What follows in the run ----------

  lemma CIsNullable()
    requires Valid(EXAMPLE)
    ensures AllNullable(EXAMPLE, [8]) && AllNullable(EXAMPLE, [])
  {
    hide Valid;
    ExampleRules();
    DerivesRule(EXAMPLE, 9);
  }

  lemma OneStepWalks(a: Automaton, q: nat, x: int, p: nat)
    requires Edge(a, q, x, p) && q < |a.states|
    ensures Walks(a, q, [], q) && Walks(a, q, [x], p)
  {
    hide Edge;
    var none: seq<int> := [];
    assert IsWalk(a, q, none, [q]) && IsWalk(a, q, [x], [q, p]);
  }

  /** The end can follow a, b and c behind v, and c behind v b. */
  lemma EndCanFollow(a: Automaton, m: GotoTable, w: Loop) returns (b: nat, c: nat, c': nat)
    requires Valid(EXAMPLE) && IsAutomaton(EXAMPLE, a) && IsGotoTable(EXAMPLE, a, m) && IsLoop(a, w)
    ensures GotoIs(a, m, b, w.v, 7, w.vb) && CanFollow(EXAMPLE, a, m, b, END)
    ensures GotoIs(a, m, c, w.v, 8, w.vc) && CanFollow(EXAMPLE, a, m, c, END)
    ensures GotoIs(a, m, c', w.vb, 8, w.vbc) && CanFollow(EXAMPLE, a, m, c', END)
  {
    hide IsAutomaton, Valid, IsGotoTable, ItemsOf, Edge, CanFollow, Walks, IsNullable;
    var g := EXAMPLE;
    ExampleRules();
    CIsNullable();
    StartKernel(a);
    var p := Lookaheads.FirstGoto(g, a, m);
    EndFollows(g, a, m);
    var va := EdgeExists(g, a, w.v, 5);
    var k := GotoExists(g, a, m, w.v, 6, va);
    b := GotoExists(g, a, m, w.v, 7, w.vb);
    c := GotoExists(g, a, m, w.v, 8, w.vc);
    c' := GotoExists(g, a, m, w.vb, 8, w.vbc);
    OneStepWalks(a, 0, 2, w.v);
    OneStepWalks(a, w.v, 7, w.vb);
    Parts();
    assert IncludesBy(g, a, m, k, 0, 3, 1, w.v, 0, va, p);
    IncludesOne(g, a, m, k, 0, 3, 1, w.v, 0, va, p, END);
    assert IncludesBy(g, a, m, b, k, 5, 0, w.v, w.v, w.vb, va);
    IncludesOne(g, a, m, b, k, 5, 0, w.v, w.v, w.vb, va, END);
    assert IncludesBy(g, a, m, c', k, 5, 1, w.vb, w.v, w.vbc, va);
    IncludesOne(g, a, m, c', k, 5, 1, w.vb, w.v, w.vbc, va, END);
    assert IncludesBy(g, a, m, c, b, 8, 0, w.v, w.v, w.vc, w.vb);
    IncludesOne(g, a, m, c, b, 8, 0, w.v, w.v, w.vc, w.vb, END);
  }

  lemma Parts()
    requires Valid(EXAMPLE)
    ensures Rhs(EXAMPLE, 3)[..1] == [2] && Rhs(EXAMPLE, 3)[2..] == [] && Rhs(EXAMPLE, 5)[..0] == []
    ensures Rhs(EXAMPLE, 5)[1..] == [8] && Rhs(EXAMPLE, 5)[..1] == [7] && Rhs(EXAMPLE, 5)[2..] == []
    ensures Rhs(EXAMPLE, 8)[..0] == [] && Rhs(EXAMPLE, 8)[1..] == []
  {
    hide Valid;
    ExampleRules();
  }

  lemma LooksBackTo(a: Automaton, m: GotoTable, q: nat, r: nat, k: nat, p: nat, p': nat)
    requires Valid(EXAMPLE) && IsRule(EXAMPLE, r) && GotoIs(a, m, k, p, EXAMPLE.rlhs[r], p')
    requires Walks(a, p, Rhs(EXAMPLE, r), q)
    ensures LooksBack(EXAMPLE, a, m, q, r, k)
  {
  }

  /** c may be made behind v and behind v b, and become b behind v; before x it may become b behind v b too. */
  lemma LoopReduces(a: Automaton, m: GotoTable, w: Loop)
    requires Valid(EXAMPLE) && IsAutomaton(EXAMPLE, a) && IsGotoTable(EXAMPLE, a, m) && IsLoop(a, w)
    ensures MayReduce(EXAMPLE, a, m, w.v, 9, END) && MayReduce(EXAMPLE, a, m, w.vb, 9, END)
    ensures MayReduce(EXAMPLE, a, m, w.vc, 8, END) && MayReduce(EXAMPLE, a, m, w.vbc, 8, 3)
  {
    hide IsAutomaton, Valid, IsGotoTable, ItemsOf, Edge, CanFollow, Walks, IsLookahead;
    var g := EXAMPLE;
    ExampleRules();
    var b, c, c' := EndCanFollow(a, m, w);
    HoldsFirsts(a, w.v, 5);
    HoldsFirsts(a, w.vb, 12);
    OneStepWalks(a, w.v, 8, w.vc);
    OneStepWalks(a, w.vb, 8, w.vbc);
    assert IsRule(g, 8) && IsRule(g, 9) && g.rlhs[9] == 8 && g.rlhs[8] == 7;
    LooksBackTo(a, m, w.v, 9, c, w.v, w.vc);
    LooksBackTo(a, m, w.vb, 9, c', w.vb, w.vbc);
    LooksBackTo(a, m, w.vc, 8, b, w.v, w.vb);
    FollowIsLookahead(g, a, m, w.v, 9, c, END);
    FollowIsLookahead(g, a, m, w.vb, 9, c', END);
    FollowIsLookahead(g, a, m, w.vc, 8, b, END);
    BehindC(a, w.v, w.vc);
    BehindC(a, w.vb, w.vbc);
    XCanFollow(a, m, w);
  }

  lemma BehindC(a: Automaton, q: nat, p: nat)
    requires Valid(EXAMPLE) && IsAutomaton(EXAMPLE, a) && Edge(a, q, 8, p) && q < |a.states|
    requires 19 in ItemsOf(EXAMPLE, a.states[q])
    ensures p < |a.states| && 20 in ItemsOf(EXAMPLE, a.states[p])
  {
    hide IsAutomaton, Valid, ItemsOf, Edge;
    var p' := EdgeExists(EXAMPLE, a, q, 19);
    EdgeUnique(EXAMPLE, a, q, 8, p, p');
    SymbolOnEdge(a, q, 8, p);
  }

  lemma XCanFollow(a: Automaton, m: GotoTable, w: Loop)
    requires Valid(EXAMPLE) && IsAutomaton(EXAMPLE, a) && IsGotoTable(EXAMPLE, a, m) && IsLoop(a, w)
    ensures IsLookahead(EXAMPLE, a, m, w.vbc, 8, 3)
  {
    hide IsAutomaton, Valid, IsGotoTable, ItemsOf, Edge, CanFollow, Walks, IsLookahead;
    var g := EXAMPLE;
    ExampleRules();
    var b, bb, x := FindX(a, w);
    var k := GotoExists(g, a, m, b, 7, bb);
    ReachRefl(ReadsGraph(g, a, m), k);
    assert DirectlyReads(g, a, m, k, 3);
    assert CanRead(g, a, m, k, 3);
    ReadFollows(g, a, m, k, 3);
    OneStepWalks(a, b, 8, w.vbc);
    assert IsRule(g, 8) && g.rlhs[8] == 7;
    LooksBackTo(a, m, w.vbc, 8, k, b, bb);
    FollowIsLookahead(g, a, m, w.vbc, 8, k, 3);
  }

  // ---------- Decisions ----------

  /** All that is allowed in state q is to reduce by rule r, on t among others. */
  ghost predicate OnlyReduces(s: Setup, q: nat, r: nat, t: nat)
    requires Valid(s.g)
  {
    && MayReduce(s.g, s.a, s.m, q, r, t) && t != 1
    && (forall u: nat, p: nat :: u < s.g.ntokens ==> !Edge(s.a, q, u, p))
    && forall r', u :: MayReduce(s.g, s.a, s.m, q, r', u) ==> r' == r
  }

  lemma SoleRow(s: Setup, q: nat, r: nat, t: nat)
    requires Generated(s) && NoConflicts(s) && Valid(s.g) && OnlyReduces(s, q, r, t)
    ensures q < |s.p.rows| && IsSole(s.p.rows[q], r)
  {
    hide Valid, IsAutomaton, IsGotoTable, Vectors.ValuesOk, Sorted, Plain, FateOf, Edge, MayReduce, Output.IsTables;
    InStates(s, q, r, t);
    assert RowMade(s.g, s.a, s.m, s.pr, s.raw[q], s.p.rows[q], q, s.p.finalState);
    var raw, row, x := s.raw[q], s.p.rows[q], ReduceAction(s.pr, r, t);
    assert Allowed(s.g, s.a, s.m, s.pr, q, x);
    forall k | 0 <= k < |row| ensures !Shifts(row, k) && (Reduces(row, k) ==> row[k].number == r) {
      assert Allowed(s.g, s.a, s.m, s.pr, q, raw[k]);
      assert SettledAt(raw, row, q == s.p.finalState, k);
    }
    var k :| 0 <= k < |raw| && raw[k] == x;
    AloneIsKept(raw, x, q == s.p.finalState);
    assert SettledAt(raw, row, q == s.p.finalState, k);
    assert Reduces(row, k);
  }

  lemma InStates(s: Setup, q: nat, r: nat, t: nat)
    requires Generated(s) && Valid(s.g) && MayReduce(s.g, s.a, s.m, q, r, t)
    ensures q < |s.a.states| && IsRule(s.g, r) && r > FIRST_RULE && r < |s.pr.rulePrec| && r < |s.pr.ruleAssoc|
    ensures Covers(s.g, s.pr)
  {
    hide Valid, IsAutomaton, IsGotoTable, Vectors.ValuesOk, Output.IsTables, IsParser, IsLookahead;
    CompleteRule(s.g, s.a, q, r);
  }

  /** Such a state reduces by that rule, whatever comes. */
  lemma AlwaysReduces(s: Setup, q: nat, r: nat, t: nat, yychar: int)
    requires Generated(s) && NoConflicts(s) && Valid(s.g) && OnlyReduces(s, q, r, t)
    ensures r > FIRST_RULE && HasState(s.t, q) && Decide(s.t, q, yychar) == ToReduce(r - 2)
  {
    hide Generated, NoConflicts, Valid, IsSole, OnlyReduces, RowMade, MayReduce;
    assert MayReduce(s.g, s.a, s.m, q, r, t) by { ReducesOnly(s, q, r, t); }
    InStates(s, q, r, t);
    SoleRow(s, q, r, t);
    SoleDecides(s, q, r, yychar);
  }

  lemma ReducesOnly(s: Setup, q: nat, r: nat, t: nat)
    requires Valid(s.g) && OnlyReduces(s, q, r, t)
    ensures MayReduce(s.g, s.a, s.m, q, r, t)
  {
  }

  lemma SoleDecides(s: Setup, q: nat, r: nat, yychar: int)
    requires Generated(s) && r > FIRST_RULE && q < |s.a.states| && q < |s.p.rows| && IsSole(s.p.rows[q], r)
    ensures HasState(s.t, q) && Decide(s.t, q, yychar) == ToReduce(r - 2)
  {
    hide Valid, IsAutomaton, IsGotoTable, Vectors.ValuesOk, Output.IsTables, IsParser, RowMade;
    EmittedState(s.g, s.a, s.m, s.pr, s.values, s.raw, s.p, s.t, q);
    var row, defred := s.p.rows[q], s.p.defred[q];
    assert defred > 0 && IsSole(row, defred);
    var k :| 0 <= k < |row| && Reduces(row, k) && row[k].symbol != 1;
  }

  /** Behind v and behind v b there is only one thing to do: the empty rule. */
  lemma OnlyMakesC(s: Setup, q: nat)
    requires s.g == EXAMPLE && Generated(s) && Valid(EXAMPLE) && MayReduce(EXAMPLE, s.a, s.m, q, 9, END)
    requires 0 < q < |s.a.states| && (s.a.states[q].symbol == 2 || s.a.states[q].symbol == 7)
    requires 9 !in ItemsOf(EXAMPLE, s.a.states[q])
    ensures OnlyReduces(s, q, 9, END)
  {
    hide Generated, IsAutomaton, IsGotoTable, Edge, MayReduce, Valid, ItemsOf;
    Basics(s);
    forall u: nat, p | u < s.g.ntokens ensures !Edge(s.a, q, u, p) {
      NoShift(s.a, q, u, p);
    }
    forall r: nat, u: nat | MayReduce(EXAMPLE, s.a, s.m, q, r, u) ensures r == 9 {
      OnlyEmptyRule(s.a, s.m, q, r, u);
    }
  }

  /** Behind v c: c becomes b. */
  lemma OnlyMakesB(s: Setup, w: Loop)
    requires s.g == EXAMPLE && Generated(s) && Valid(EXAMPLE) && MayReduce(EXAMPLE, s.a, s.m, w.vc, 8, END)
    requires IsLoop(s.a, w)
    ensures OnlyReduces(s, w.vc, 8, END)
  {
    hide Generated, IsAutomaton, IsGotoTable, Edge, MayReduce, Valid, ItemsOf;
    Basics(s);
    EdgeGivesKernel(EXAMPLE, s.a, w.v, 8, w.vc);
    SymbolOnEdge(s.a, w.v, 8, w.vc);
    NoXBehindC(s.a, w.vc);
    forall u: nat, p | u < s.g.ntokens ensures !Edge(s.a, w.vc, u, p) {
      NoShift(s.a, w.vc, u, p);
    }
    forall r: nat, u: nat | MayReduce(EXAMPLE, s.a, s.m, w.vc, r, u) ensures r == 8 {
      OnlyCToB(s.a, s.m, w, r, u);
    }
  }

  lemma NoXBehindC(a: Automaton, q: nat)
    requires Valid(EXAMPLE) && IsAutomaton(EXAMPLE, a) && 0 < q < |a.states| && a.states[q].symbol == 8
    ensures 9 !in ItemsOf(EXAMPLE, a.states[q])
  {
    hide IsAutomaton, Valid, ItemsOf;
    if 9 in ItemsOf(EXAMPLE, a.states[q]) {
      Shape(a, q, 9);
    }
  }

  lemma LoopStates(s: Setup, w: Loop)
    requires s.g == EXAMPLE && Generated(s) && Valid(EXAMPLE) && IsLoop(s.a, w)
    ensures OnlyReduces(s, w.v, 9, END) && OnlyReduces(s, w.vb, 9, END) && OnlyReduces(s, w.vc, 8, END)
  {
    hide Generated, IsAutomaton, IsGotoTable, Edge, MayReduce, Valid, ItemsOf, OnlyReduces;
    Basics(s);
    LoopReduces(s.a, s.m, w);
    EdgeGivesKernel(EXAMPLE, s.a, 0, 2, w.v);
    SymbolOnEdge(s.a, 0, 2, w.v);
    NoFirstB(s.a, 0, 2, w.v);
    OnlyMakesC(s, w.v);
    EdgeGivesKernel(EXAMPLE, s.a, w.v, 7, w.vb);
    SymbolOnEdge(s.a, w.v, 7, w.vb);
    NoFirstB(s.a, w.v, 7, w.vb);
    OnlyMakesC(s, w.vb);
    OnlyMakesB(s, w);
  }

  lemma NoShift(a: Automaton, q: nat, t: nat, p: nat)
    requires Valid(EXAMPLE) && IsAutomaton(EXAMPLE, a) && 0 < q < |a.states| && t < 4
    requires 9 !in ItemsOf(EXAMPLE, a.states[q])
    ensures !Edge(a, q, t, p)
  {
    hide IsAutomaton, Valid, Edge, ItemsOf;
    if Edge(a, q, t, p) {
      TokenEdge(a, q, t, p);
    }
  }

  lemma OnlyEmptyRule(a: Automaton, m: GotoTable, q: nat, r: nat, t: nat)
    requires Valid(EXAMPLE) && IsAutomaton(EXAMPLE, a) && IsGotoTable(EXAMPLE, a, m)
    requires MayReduce(EXAMPLE, a, m, q, r, t)
    requires 0 < q < |a.states| && (a.states[q].symbol == 2 || a.states[q].symbol == 7)
    ensures r == 9
  {
    hide IsAutomaton, Valid, IsGotoTable, Walks, CanFollow, MayReduce, ItemsOf, Edge;
    var k, p, p' := ReductionFrom(a, m, q, r, t);
    if r < 9 {
      RuleEnd(r);
      Shape(a, q, EXAMPLE.rrhs[r + 1] - 1);
    }
  }

  lemma OnlyCToB(a: Automaton, m: GotoTable, w: Loop, r: nat, t: nat)
    requires Valid(EXAMPLE) && IsAutomaton(EXAMPLE, a) && IsGotoTable(EXAMPLE, a, m) && IsLoop(a, w)
    requires MayReduce(EXAMPLE, a, m, w.vc, r, t)
    ensures r == 8
  {
    hide IsAutomaton, Valid, IsGotoTable, Walks, CanFollow, MayReduce, ItemsOf, Edge;
    var k, p, p' := ReductionFrom(a, m, w.vc, r, t);
    EdgeGivesKernel(EXAMPLE, a, w.v, 8, w.vc);
    SymbolOnEdge(a, w.v, 8, w.vc);
    if r < 9 {
      RuleEnd(r);
      Shape(a, w.vc, EXAMPLE.rrhs[r + 1] - 1);
      if r == 5 {
        Back(a, w.v, 8, w.vc, 13);
        Shape(a, w.v, 12);
        Shape(a, w.v, 5);
      }
    } else {
      var i := SomethingOpen(a, w.vc);
      OpenSymbol(i);
    }
  }

  // ---------- The run ----------

  /** v x, as values. */
  ghost function Input(s: Setup): seq<int>
    requires |s.values| > 3
  {
    [s.values[2], s.values[3]]
  }

  /** v has been shifted, and whether x has been read is what yychar tells. */
  ghost predicate BeforeX(s: Setup, c: Config) {
    |s.values| > 3 && ((c.yychar == -1 && c.next == 1) || (c.yychar == s.values[3] && c.next == 2))
  }

  /** The stack when b has been made n times behind v. */
  function Pile(w: Loop, n: nat): (p: seq<nat>)
    ensures |p| == n + 2 && p[0] == 0 && p[n + 1] == (if n == 0 then w.v else w.vb)
  {
    [0, w.v] + seq(n, _ => w.vb)
  }

  lemma PileGrows(w: Loop, n: nat)
    ensures Pile(w, n) + [w.vb] == Pile(w, n + 1)
  {
  }

  /** What the tables say about the states of the run. */
  ghost predicate LoopDecides(s: Setup, w: Loop) {
    && |s.values| > 3 && s.values[2] > 0 && s.values[3] > 0
    && HasState(s.t, 0) && HasState(s.t, w.v) && HasState(s.t, w.vb) && HasState(s.t, w.vc) && HasState(s.t, w.vbc)
    && Decide(s.t, 0, s.values[2]) == ToShift(w.v) && s.t.yydefred[0] == 0
    && (forall y :: Decide(s.t, w.v, y) == ToReduce(7)) && (forall y :: Decide(s.t, w.vb, y) == ToReduce(7))
    && (forall y :: Decide(s.t, w.vc, y) == ToReduce(6)) && Decide(s.t, w.vbc, s.values[3]) == ToReduce(6)
    && |s.t.yylen| == |s.t.yylhs| > 7 && s.t.yylen[7] == 0 && s.t.yylen[6] == 1
    && s.t.yylhs[7] == 3 && s.t.yylhs[6] == 2 && |s.t.yygindex| == |s.t.yydgoto| > 3
    && GotoOf(s.t, w.v, 3) == w.vc && GotoOf(s.t, w.vb, 3) == w.vbc
    && GotoOf(s.t, w.v, 2) == w.vb && GotoOf(s.t, w.vb, 2) == w.vb && w.v > 0 && w.vb > 0
  }

  lemma Decides(s: Setup, w: Loop)
    requires s.g == EXAMPLE && Generated(s) && Valid(EXAMPLE) && IsLoop(s.a, w)
    ensures LoopDecides(s, w)
  {
    hide Generated, IsAutomaton, IsGotoTable, Edge, MayReduce, Valid, ItemsOf, OnlyReduces, NoConflicts, Decide, GotoOf;
    Basics(s);
    ExampleHasNoConflicts(s);
    LoopStates(s, w);
    LoopReduces(s.a, s.m, w);
    EdgeGivesKernel(EXAMPLE, s.a, 0, 2, w.v);
    EdgeGivesKernel(EXAMPLE, s.a, w.v, 7, w.vb);
    ShiftIsTaken(s, 0, 2, w.v);
    LoopAlways(s, w);
    Taken(s, w.vbc, 8, 3);
    Termination.ValueIsPositive(s, 2);
    Termination.ValueIsPositive(s, 3);
    ShiftIsNoDefault(s, 0, s.values[2], w.v);
    ExampleRules();
    RuleSound(s, 7);
    RuleSound(s, 6);
    Gotos4(s, w);
  }

  lemma LoopAlways(s: Setup, w: Loop)
    requires Generated(s) && NoConflicts(s) && Valid(s.g)
    requires OnlyReduces(s, w.v, 9, END) && OnlyReduces(s, w.vb, 9, END) && OnlyReduces(s, w.vc, 8, END)
    ensures HasState(s.t, w.v) && HasState(s.t, w.vb) && HasState(s.t, w.vc)
    ensures forall y :: Decide(s.t, w.v, y) == ToReduce(7)
    ensures forall y :: Decide(s.t, w.vb, y) == ToReduce(7)
    ensures forall y :: Decide(s.t, w.vc, y) == ToReduce(6)
  {
    hide Generated, NoConflicts, Valid, OnlyReduces, Decide;
    AlwaysReduces(s, w.v, 9, END, 0);
    AlwaysReduces(s, w.vb, 9, END, 0);
    AlwaysReduces(s, w.vc, 8, END, 0);
    forall y
      ensures Decide(s.t, w.v, y) == ToReduce(7) && Decide(s.t, w.vb, y) == ToReduce(7)
      ensures Decide(s.t, w.vc, y) == ToReduce(6)
    {
      AlwaysReduces(s, w.v, 9, END, y);
      AlwaysReduces(s, w.vb, 9, END, y);
      AlwaysReduces(s, w.vc, 8, END, y);
    }
  }

  lemma Taken(s: Setup, q: nat, r: nat, t: nat)
    requires Generated(s) && NoConflicts(s) && Valid(s.g) && MayReduce(s.g, s.a, s.m, q, r, t)
    ensures HasState(s.t, q) && t < |s.values| && r > 2 && Decide(s.t, q, s.values[t]) == ToReduce(r - 2)
  {
    hide Generated, NoConflicts, Valid, IsAutomaton, Decide;
    Basics(s);
    CompleteRule(s.g, s.a, q, r);
    ReductionIsTaken(s, q, r, t);
  }

  lemma ShiftIsNoDefault(s: Setup, q: nat, y: int, p: nat)
    requires HasState(s.t, q) && Decide(s.t, q, y) == ToShift(p)
    ensures s.t.yydefred[q] == 0
  {
  }

  lemma Gotos4(s: Setup, w: Loop)
    requires s.g == EXAMPLE && Generated(s) && Valid(EXAMPLE) && IsLoop(s.a, w)
    ensures |s.t.yygindex| == |s.t.yydgoto| > 3
    ensures GotoOf(s.t, w.v, 3) == w.vc && GotoOf(s.t, w.vb, 3) == w.vbc
    ensures GotoOf(s.t, w.v, 2) == w.vb && GotoOf(s.t, w.vb, 2) == w.vb
  {
    hide Valid, IsAutomaton, IsGotoTable, IsParser, Output.IsTables, Edge, GotoOf, Vectors.ValuesOk, ItemsOf;
    GotoExact(s.g, s.a, s.m, s.pr, s.values, s.raw, s.p, s.t, w.v, 8, w.vc);
    GotoExact(s.g, s.a, s.m, s.pr, s.values, s.raw, s.p, s.t, w.vb, 8, w.vbc);
    GotoExact(s.g, s.a, s.m, s.pr, s.values, s.raw, s.p, s.t, w.v, 7, w.vb);
    GotoExact(s.g, s.a, s.m, s.pr, s.values, s.raw, s.p, s.t, w.vb, 7, w.vb);
    VarValues(s);
  }

  lemma VarValues(s: Setup)
    requires s.g == EXAMPLE && Generated(s)
    ensures |s.values| == 10 && s.values[7] == 2 && s.values[8] == 3
  {
  }

  /** Two rounds: c is made, and becomes b; or there is no room for it. */
  lemma TwoRounds(s: Setup, w: Loop, size: nat, c: Config, n: nat) returns (d: Config, e: Config)
    requires LoopDecides(s, w) && BeforeX(s, c) && c.stack == Pile(w, n)
    ensures n + 2 >= size ==> Follows(s, Input(s), size, c, d, StackOverflow)
    ensures n + 2 < size ==> Follows(s, Input(s), size, c, d, Running) && Follows(s, Input(s), size, d, e, Running)
    ensures n + 2 < size ==> BeforeX(s, e) && e.stack == Pile(w, n + 1)
  {
    hide Decide, GotoOf, Pile;
    var q, made := Top(c), if n == 0 then w.vc else w.vbc;
    var c' := Prepared(s.t, Input(s), c);
    assert Decide(s.t, q, c'.yychar) == ToReduce(7);
    assert c.stack[..|c.stack|] == c.stack;
    d := c'.(stack := c.stack + [made]);
    e := d;
    if n + 2 < size {
      var d' := Prepared(s.t, Input(s), d);
      assert Decide(s.t, made, d'.yychar) == ToReduce(6) by { CToB(s, w, d, made); }
      e := d'.(stack := c.stack + [w.vb]);
      assert d.stack[..|d.stack| - 1] == c.stack;
      PileGrows(w, n);
    }
  }

  lemma CToB(s: Setup, w: Loop, d: Config, q: nat)
    requires LoopDecides(s, w) && BeforeX(s, d) && d.stack != [] && Top(d) == q && (q == w.vc || q == w.vbc)
    ensures Decide(s.t, q, Prepared(s.t, Input(s), d).yychar) == ToReduce(6)
  {
  }

  lemma {:induction false} PileRun(s: Setup, w: Loop, size: nat, n: nat) returns (trace: seq<Config>)
    requires LoopDecides(s, w) && |s.values| > 3 && size >= 2 && n + 2 <= size
    ensures |trace| == 2 * n + 2 && Chained(s, Input(s), size, trace) && trace[0] == Config([0], -1, 0)
    ensures BeforeX(s, trace[2 * n + 1]) && trace[2 * n + 1].stack == Pile(w, n)
    decreases n
  {
    hide Follows, LoopDecides, BeforeX, Pile;
    if n == 0 {
      trace := [Config([0], -1, 0), Config([0, w.v], -1, 1)];
      FirstShift(s, w, size);
    } else {
      var front := PileRun(s, w, size, n - 1);
      var d, e := TwoRounds(s, w, size, front[2 * n - 1], n - 1);
      ChainedNext(s, Input(s), size, front, d);
      ChainedNext(s, Input(s), size, front + [d], e);
      trace := front + [d] + [e];
    }
  }

  lemma FirstShift(s: Setup, w: Loop, size: nat)
    requires LoopDecides(s, w) && size >= 2
    ensures Follows(s, Input(s), size, Config([0], -1, 0), Config([0, w.v], -1, 1), Running)
    ensures BeforeX(s, Config([0, w.v], -1, 1)) && Pile(w, 0) == [0, w.v]
  {
    hide Decide;
  }

  lemma FullStack(s: Setup, w: Loop, size: nat) returns (trace: seq<Config>)
    requires LoopDecides(s, w) && |s.values| > 3 && size >= 2
    ensures IsRun(s, Input(s), size, trace, StackOverflow, |trace|) && trace[0] == Config([0], -1, 0)
  {
    hide LoopDecides, Follows, BeforeX, Pile;
    trace := PileRun(s, w, size, size - 2);
    var d, e := TwoRounds(s, w, size, trace[|trace| - 1], size - 2);
  }

  /** The grammar has no conflicts, but a parser for it runs out of stack on v x, however large its stack: one
      of its nonterminals derives no string of tokens. */
  lemma AnyStackOverflows(s: Setup, size: nat) returns (trace: seq<Config>)
    requires s.g == EXAMPLE && Generated(s) && size >= 2
    ensures NoConflicts(s) && |s.values| > 3 && Valid(s.g) && !AllProductive(s.g)
    ensures IsRun(s, Input(s), size, trace, StackOverflow, |trace|) && trace[0] == Config([0], -1, 0)
  {
    hide Generated, NoConflicts, Valid, IsAutomaton, IsGotoTable, IsLoop, LoopDecides, IsRun, Input, AllProductive;
    ExampleHasNoConflicts(s);
    Basics(s);
    EnoughValues(s);
    var w := FindLoop(s.a);
    Decides(s, w);
    trace := FullStack(s, w, size);
    if AllProductive(s.g) {
      var larger := Depth(s, Input(s)) + 2;
      var run := FullStack(s, w, larger);
      NoOverflow(s, Input(s), larger, run, StackOverflow, |run|);
    }
  }

  lemma EnoughValues(s: Setup)
    requires s.g == EXAMPLE && Generated(s)
    ensures |s.values| > 3
  {
    hide Generated, Valid, IsAutomaton, IsGotoTable, Vectors.ValuesOk;
    Basics(s);
  }
}
