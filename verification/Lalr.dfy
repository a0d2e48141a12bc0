/** The second half of byacc/lalr.c: the relations `includes` and lookback, the second pass,
    and the lookahead sets. */
module Lalr {
  import opened Bits
  import opened Graphs
  import opened Sequences
  import opened Grammars
  import opened Derives
  import opened Items
  import opened Automata
  import opened Gotos
  import opened Relations
  import opened Digraph
  import opened Lookaheads

  // ---------- One rule of build_relations ----------

  /** Follows the right-hand side of rule r from state1, noting every state met. */
  method FollowRule(g: Grammar, a: Automaton, state1: nat, r: nat) returns (states: seq<nat>)
    requires Valid(g) && IsAutomaton(g, a) && RowsListed(a) && state1 < |a.states| && IsRule(g, r) && r > FIRST_RULE
    requires g.rrhs[r] in ItemsOf(g, a.states[state1])
    ensures IsWalk(a, state1, Rhs(g, r), states)
    ensures states[|Rhs(g, r)|] < |a.states| && Complete(g, ItemsOf(g, a.states[states[|Rhs(g, r)|]]), r)
  {
    hide Valid, IsAutomaton, ItemsOf;
    ghost var rhs := Rhs(g, r);
    ghost var walk := RuleWalk(g, a, state1, r, |rhs|);
    assert rhs[..|rhs|] == rhs;
    RuleShape(g, r);
    states := [state1];
    var stateno := state1;
    var rp := g.rrhs[r];
    RuleItem(g, r, 0);
    while g.ritem[rp] >= 0
      invariant g.rrhs[r] <= rp <= g.rrhs[r] + |rhs| < |g.ritem|
      invariant g.ritem[rp] >= 0 <==> rp < g.rrhs[r] + |rhs|
      invariant |states| == rp - g.rrhs[r] + 1 && stateno == states[rp - g.rrhs[r]]
      invariant states == walk[..rp - g.rrhs[r] + 1]
      decreases g.rrhs[r] + |rhs| - rp
    {
      ghost var j := rp - g.rrhs[r];
      RuleItem(g, r, j);
      assert Edge(a, walk[j], rhs[j], walk[j + 1]);
      stateno := NextState(g, a, stateno, g.ritem[rp], walk[j + 1]);
      states := states + [stateno];
      rp := rp + 1;
      RuleItem(g, r, j + 1);
    }
  }

  /** Item j of rule r: a symbol of the right-hand side, or, at its end, the mark. */
  lemma RuleItem(g: Grammar, r: nat, j: nat)
    requires Valid(g) && IsRule(g, r) && j <= |Rhs(g, r)|
    ensures g.rrhs[r] + j < |g.ritem|
    ensures if j < |Rhs(g, r)| then g.ritem[g.rrhs[r] + j] == Rhs(g, r)[j] >= 0 else g.ritem[g.rrhs[r] + j] < 0
  {
    assert ValidRule(g, r);
    AtItem(g, r, g.rrhs[r] + j);
  }

  lemma RuleShape(g: Grammar, r: nat)
    requires Valid(g) && IsRule(g, r)
    ensures |g.rrhs| == |g.rlhs| + 1 && 1 <= g.rrhs[r] && g.rrhs[r] + |Rhs(g, r)| < |g.ritem|
  {
    LowestRule(g, r);
    RuleItem(g, r, |Rhs(g, r)|);
  }

  /** The scan of a shift list for the successor on a symbol. */
  method NextState(g: Grammar, a: Automaton, stateno: nat, symbol: int, ghost target: nat) returns (next: nat)
    requires Valid(g) && IsAutomaton(g, a) && RowsListed(a) && Edge(a, stateno, symbol, target)
    ensures next == target
  {
    hide Valid, IsAutomaton;
    var list := a.shifts[stateno];
    next := stateno;
    ghost var at :| 0 <= at < |list| && list[at] == target;
    var j := 0;
    var found := false;
    while !found && j < |list|
      invariant 0 <= j <= |list|
      invariant if found then next == target else j <= at
      decreases |list| - j, !found
    {
      next := list[j];
      if a.states[next].symbol == symbol {
        assert Edge(a, stateno, symbol, next);
        EdgeUnique(g, a, stateno, symbol, next, target);
        found := true;
      } else {
        j := j + 1;
      }
    }
  }

  /** Goto l is one that goto k = (p', A) is included in through rule r. */
  ghost predicate IncludesVia(g: Grammar, a: Automaton, m: GotoTable, l: nat, k: nat, r: nat)
    requires Valid(g)
  {
    exists j, p, p', q, q' :: IncludesBy(g, a, m, l, k, r, j, p, p', q, q')
  }

  /** The same, with the place of the nonterminal in the right-hand side at n or after. */
  ghost predicate IncludesFrom(g: Grammar, a: Automaton, m: GotoTable, l: nat, states: seq<nat>, r: nat, n: nat)
    requires Valid(g) && IsRule(g, r) && |states| == |Rhs(g, r)| + 1
  {
    exists j, q :: n <= j < |Rhs(g, r)| && IncludesAt(g, a, m, l, states, r, j, q)
  }

  ghost predicate IncludesAt(g: Grammar, a: Automaton, m: GotoTable, l: nat, states: seq<nat>, r: nat, j: nat, q: nat)
    requires Valid(g) && IsRule(g, r) && |states| == |Rhs(g, r)| + 1 && j < |Rhs(g, r)|
  {
    && IsVar(g, Rhs(g, r)[j]) && AllNullable(g, Rhs(g, r)[j + 1..])
    && GotoIs(a, m, l, states[j], Rhs(g, r)[j], q)
  }

  lemma IncludesOnWalk(g: Grammar, a: Automaton, m: GotoTable, k: nat, p': nat, q': nat, states: seq<nat>, r: nat)
    requires Valid(g) && IsAutomaton(g, a) && IsRule(g, r) && GotoIs(a, m, k, p', g.rlhs[r], q')
    requires IsWalk(a, p', Rhs(g, r), states)
    ensures forall l: nat :: IncludesFrom(g, a, m, l, states, r, 0) <==> IncludesVia(g, a, m, l, k, r)
  {
    hide Valid, IsAutomaton, AllNullable;
    var rhs := Rhs(g, r);
    forall l: nat ensures IncludesFrom(g, a, m, l, states, r, 0) <==> IncludesVia(g, a, m, l, k, r) {
      if IncludesFrom(g, a, m, l, states, r, 0) {
        var j, q :| 0 <= j < |rhs| && IncludesAt(g, a, m, l, states, r, j, q);
        WalkPrefix(a, p', rhs, states, j);
        assert states[..j + 1][|rhs[..j]|] == states[j];
        assert IncludesBy(g, a, m, l, k, r, j, states[j], p', q, q');
      }
      if IncludesVia(g, a, m, l, k, r) {
        var j: nat, p: nat, p1: nat, q: nat, q1: nat :| IncludesBy(g, a, m, l, k, r, j, p, p1, q, q1);
        assert Walks(a, p1, rhs[..j], p);
        var walk :| IsWalk(a, p1, rhs[..j], walk) && walk[|rhs[..j]|] == p;
        WalkPrefix(a, p', rhs, states, j);
        WalkUnique(g, a, p', rhs[..j], walk, states[..j + 1], j);
        assert IncludesAt(g, a, m, l, states, r, j, q);
      }
    }
  }

  /** The backward scan of build_relations over a right-hand side. */
  method IncludeEdges(g: Grammar, a: Automaton, m: GotoTable, nullable: array<bool>, states: seq<nat>,
                      ghost state1: nat, r: nat)
    returns (edges: seq<nat>)
    requires Valid(g) && IsAutomaton(g, a) && IsGotoTable(g, a, m) && NullableOk(g, nullable)
    requires IsRule(g, r) && r > FIRST_RULE && IsWalk(a, state1, Rhs(g, r), states)
    ensures forall l: nat :: l in edges <==> IncludesFrom(g, a, m, l, states, r, 0)
  {
    hide Valid, IsAutomaton, IsGotoTable;
    ghost var rhs := Rhs(g, r);
    RuleShape(g, r);
    edges := [];
    var length := |states| - 1;
    var rp := g.rrhs[r] + length;
    var done := false;
    while !done
      invariant 0 <= length <= |rhs|
      invariant !done ==> rp == g.rrhs[r] + length && AllNullable(g, rhs[length..]) && (length < |rhs| ==> length > 0)
      invariant forall l: nat :: l in edges <==> IncludesFrom(g, a, m, l, states, r, length)
      invariant done ==> NoneBefore(g, a, m, states, r, length)
      decreases length, !done
    {
      done := true;
      rp := rp - 1;
      BeforeItem(g, r, length);
      if IsVar(g, g.ritem[rp]) {
        length := length - 1;
        RhsSymbol(g, r, length);
        var l := IncludedGoto(g, a, m, states, state1, r, length);
        NextInclude(g, a, m, states, r, length, l);
        edges := edges + [l];
        if nullable[g.ritem[rp]] && length > 0 {
          done := false;
          NullableBefore(g, rhs, length);
        } else {
          StopAtVar(g, a, m, states, r, length);
        }
      } else {
        StopAtToken(g, a, m, states, r, length);
      }
    }
    AllIncludes(g, a, m, states, r, length);
  }

  /** What lies before place n of the right-hand side: a symbol, or the mark of the rule before. */
  lemma BeforeItem(g: Grammar, r: nat, n: nat)
    requires Valid(g) && IsRule(g, r) && r > FIRST_RULE && n <= |Rhs(g, r)|
    ensures |g.rrhs| == |g.rlhs| + 1 && 1 <= g.rrhs[r] && g.rrhs[r] + n - 1 < |g.ritem|
    ensures if n == 0 then g.ritem[g.rrhs[r] + n - 1] < 0 else g.ritem[g.rrhs[r] + n - 1] == Rhs(g, r)[n - 1]
  {
    LowestRule(g, r);
    assert ValidRule(g, r) && ValidRule(g, r - 1);
    AtItem(g, r, g.rrhs[r]);
  }

  /** The goto over the nonterminal at place n, from the state the walk has there. */
  method IncludedGoto(g: Grammar, a: Automaton, m: GotoTable, states: seq<nat>, ghost state1: nat, r: nat, n: nat)
    returns (l: nat)
    requires Valid(g) && IsAutomaton(g, a) && IsGotoTable(g, a, m) && IsRule(g, r)
    requires IsWalk(a, state1, Rhs(g, r), states)
    requires n < |Rhs(g, r)| && IsVar(g, Rhs(g, r)[n])
    ensures GotoIs(a, m, l, states[n], Rhs(g, r)[n], states[n + 1])
  {
    hide Valid, IsAutomaton, IsGotoTable;
    assert Edge(a, states[n], Rhs(g, r)[n], states[n + 1]);
    l := MapGoto(g, a, m, states[n], Rhs(g, r)[n], states[n + 1]);
  }

  ghost predicate NoneBefore(g: Grammar, a: Automaton, m: GotoTable, states: seq<nat>, r: nat, n: nat)
    requires Valid(g) && IsRule(g, r) && |states| == |Rhs(g, r)| + 1
  {
    forall l, j, q :: 0 <= j < n && j < |Rhs(g, r)| ==> !IncludesAt(g, a, m, l, states, r, j, q)
  }

  lemma NextInclude(g: Grammar, a: Automaton, m: GotoTable, states: seq<nat>, r: nat, n: nat, l: nat)
    requires Valid(g) && IsAutomaton(g, a) && IsGotoTable(g, a, m) && IsRule(g, r) && |states| == |Rhs(g, r)| + 1
    requires n < |Rhs(g, r)| && IsVar(g, Rhs(g, r)[n]) && AllNullable(g, Rhs(g, r)[n + 1..])
    requires GotoIs(a, m, l, states[n], Rhs(g, r)[n], states[n + 1])
    ensures forall l': nat :: IncludesFrom(g, a, m, l', states, r, n) <==>
      IncludesFrom(g, a, m, l', states, r, n + 1) || l' == l
  {
    hide Valid, IsAutomaton, IsGotoTable, AllNullable;
    assert IncludesAt(g, a, m, l, states, r, n, states[n + 1]);
    forall l': nat | IncludesFrom(g, a, m, l', states, r, n) && !IncludesFrom(g, a, m, l', states, r, n + 1)
      ensures l' == l
    {
      var j, q :| n <= j < |Rhs(g, r)| && IncludesAt(g, a, m, l', states, r, j, q);
      assert j == n;
      GotoUnique(g, a, m, l', l, states[n], Rhs(g, r)[n], q, states[n + 1]);
    }
  }

  lemma NullableBefore(g: Grammar, w: seq<int>, n: nat)
    requires Valid(g) && n < |w| && IsNullable(g, w[n]) && AllNullable(g, w[n + 1..])
    ensures AllNullable(g, w[n..])
  {
    hide IsNullable, Valid;
    forall i | 0 <= i < |w[n..]| ensures IsNullable(g, w[n..][i]) {
      if i > 0 {
        assert w[n..][i] == w[n + 1..][i - 1];
      }
    }
  }

  /** Past a symbol that is not nullable, nothing further to the left includes the goto. */
  lemma StopAtVar(g: Grammar, a: Automaton, m: GotoTable, states: seq<nat>, r: nat, n: nat)
    requires Valid(g) && IsRule(g, r) && |states| == |Rhs(g, r)| + 1 && n < |Rhs(g, r)|
    requires n == 0 || !IsNullable(g, Rhs(g, r)[n])
    ensures NoneBefore(g, a, m, states, r, n)
  {
    hide IsNullable, Valid;
    forall l, j, q | 0 <= j < n ensures !IncludesAt(g, a, m, l, states, r, j, q) {
      assert Rhs(g, r)[j + 1..][n - (j + 1)] == Rhs(g, r)[n];
    }
  }

  lemma StopAtToken(g: Grammar, a: Automaton, m: GotoTable, states: seq<nat>, r: nat, n: nat)
    requires Valid(g) && IsRule(g, r) && |states| == |Rhs(g, r)| + 1 && n <= |Rhs(g, r)|
    requires n == 0 || !IsVar(g, Rhs(g, r)[n - 1])
    ensures NoneBefore(g, a, m, states, r, n)
  {
    if n > 0 {
      TokenNotNullable(g, Rhs(g, r)[n - 1]);
      StopAtVar(g, a, m, states, r, n - 1);
    }
  }

  lemma TokenNotNullable(g: Grammar, t: int)
    requires Valid(g) && !IsVar(g, t)
    ensures !IsNullable(g, t)
  {
    if IsNullable(g, t) {
      var d :| DerivesBy(g, d, [t], []);
      assert Step(g, d[0], d[0 + 1]);
      var p: nat, r: nat :| StepAt(g, d[0], d[1], p, r);
      LhsIsVar(g, r);
    }
  }

  lemma AllIncludes(g: Grammar, a: Automaton, m: GotoTable, states: seq<nat>, r: nat, n: nat)
    requires Valid(g) && IsRule(g, r) && |states| == |Rhs(g, r)| + 1 && n <= |Rhs(g, r)|
    requires NoneBefore(g, a, m, states, r, n)
    ensures forall l: nat :: IncludesFrom(g, a, m, l, states, r, 0) <==> IncludesFrom(g, a, m, l, states, r, n)
  {
    hide Valid;
    forall l: nat | IncludesFrom(g, a, m, l, states, r, 0) ensures IncludesFrom(g, a, m, l, states, r, n) {
      var j, q :| 0 <= j < |Rhs(g, r)| && IncludesAt(g, a, m, l, states, r, j, q);
    }
  }

  // ---------- Lookback ----------

  /** The gotos noted so far for the reduction by r in state q: those below i, and i itself if r
      is among the rules of i that are done. */
  ghost predicate LookbackAt(g: Grammar, a: Automaton, m: GotoTable, list: seq<nat>, q: nat, r: nat, i: nat,
                             done: seq<int>)
    requires Valid(g)
  {
    forall k: nat :: k in list <==> LooksBack(g, a, m, q, r, k) && (k < i || (k == i && r in done))
  }

  ghost predicate Lookbacks(g: Grammar, a: Automaton, m: GotoTable, la: LaTable, lookback: seq<seq<nat>>, i: nat,
                            done: seq<int>)
    requires Valid(g)
  {
    && |lookback| == |la.laRuleno|
    && forall x: nat, q: nat, r: nat :: LaIs(la, x, q, r) ==> LookbackAt(g, a, m, lookback[x], q, r, i, done)
  }

  /** The reduction by r reached from goto k is the one in the state where the walk ends. */
  lemma LookbackOnWalk(g: Grammar, a: Automaton, m: GotoTable, k: nat, p: nat, p': nat, r: nat, states: seq<nat>,
                       q: nat)
    requires Valid(g) && IsAutomaton(g, a) && IsRule(g, r) && GotoIs(a, m, k, p, g.rlhs[r], p')
    requires IsWalk(a, p, Rhs(g, r), states)
    ensures LooksBack(g, a, m, q, r, k) <==> q == states[|Rhs(g, r)|]
  {
    hide Valid, IsAutomaton;
    var rhs := Rhs(g, r);
    if q == states[|rhs|] {
      assert Walks(a, p, rhs, q);
    }
    if LooksBack(g, a, m, q, r, k) {
      var p1: nat, p2: nat :| GotoIs(a, m, k, p1, g.rlhs[r], p2) && Walks(a, p1, rhs, q);
      var walk :| IsWalk(a, p1, rhs, walk) && walk[|rhs|] == q;
      WalkUnique(g, a, p, rhs, walk, states, |rhs|);
    }
  }

  lemma LookbackStep(g: Grammar, a: Automaton, m: GotoTable, la: LaTable, before: seq<seq<nat>>, after: seq<seq<nat>>,
                     i: nat, done: seq<int>, p: nat, p': nat, r: nat, states: seq<nat>, x: nat)
    requires Valid(g) && IsAutomaton(g, a) && IsLaTable(a, la) && IsRule(g, r) && GotoIs(a, m, i, p, g.rlhs[r], p')
    requires IsWalk(a, p, Rhs(g, r), states) && LaIs(la, x, states[|Rhs(g, r)|], r)
    requires Lookbacks(g, a, m, la, before, i, done)
    requires after == before[x := [i] + before[x]]
    ensures Lookbacks(g, a, m, la, after, i, done + [r])
  {
    hide Valid, IsAutomaton, IsLaTable, LooksBack;
    forall y: nat, q: nat, s: nat | LaIs(la, y, q, s) ensures LookbackAt(g, a, m, after[y], q, s, i, done + [r]) {
      assert LookbackAt(g, a, m, before[y], q, s, i, done);
      LaUnique(g, a, la, x, states[|Rhs(g, r)|], r, y, q, s);
      if s == r {
        LookbackOnWalk(g, a, m, i, p, p', r, states, q);
      }
    }
  }

  lemma LookbackNextGoto(g: Grammar, a: Automaton, m: GotoTable, la: LaTable, lookback: seq<seq<nat>>, i: nat, p: nat,
                         x: int, p': nat)
    requires Valid(g) && GotoIs(a, m, i, p, x, p') && Lookbacks(g, a, m, la, lookback, i, RulesOf(g, x, |g.rlhs|))
    ensures Lookbacks(g, a, m, la, lookback, i + 1, [])
  {
    hide Valid;
    var list := RulesOf(g, x, |g.rlhs|);
    forall y: nat, q: nat, r: nat | LaIs(la, y, q, r) ensures LookbackAt(g, a, m, lookback[y], q, r, i + 1, []) {
      assert LookbackAt(g, a, m, lookback[y], q, r, i, list);
      RulesOfMember(g, x, |g.rlhs|, r);
    }
  }

  lemma NoLookbacks(g: Grammar, a: Automaton, m: GotoTable, la: LaTable, lookback: seq<seq<nat>>)
    requires Valid(g) && |lookback| == |la.laRuleno| && forall x :: 0 <= x < |lookback| ==> lookback[x] == []
    ensures Lookbacks(g, a, m, la, lookback, 0, [])
  {
  }

  method AddLookbackEdge(g: Grammar, a: Automaton, la: LaTable, lookback: array<seq<nat>>, stateno: nat, ruleno: nat,
                         gotono: nat)
    returns (ghost x: nat)
    requires Valid(g) && IsAutomaton(g, a) && IsLaTable(a, la) && lookback.Length == |la.laRuleno|
    requires stateno < |a.states| && Complete(g, ItemsOf(g, a.states[stateno]), ruleno)
    modifies lookback
    ensures LaIs(la, x, stateno, ruleno)
    ensures lookback[..] == old(lookback[..])[x := [gotono] + old(lookback[..])[x]]
  {
    hide Valid, IsAutomaton;
    x := LaExists(g, a, la, stateno, ruleno);
    var i := la.lookaheads[stateno];
    var k := la.lookaheads[stateno + 1];
    var found := false;
    while !found && i < k
      invariant la.lookaheads[stateno] <= i <= x && lookback[..] == old(lookback[..])
      invariant found ==> i == x
      decreases k - i, !found
    {
      if la.laRuleno[i] == ruleno {
        LaUnique(g, a, la, x, stateno, ruleno, i, stateno, ruleno);
        found := true;
      } else {
        i := i + 1;
      }
    }
    assert found && i == x;
    lookback[i] := [gotono] + lookback[i];
    assert lookback[..] == old(lookback[..])[x := [gotono] + old(lookback[..])[x]];
  }

  // ---------- build_relations ----------

  /** Goto l is one that goto i is included in, through one of the rules done. */
  ghost predicate EdgeFound(g: Grammar, a: Automaton, m: GotoTable, l: nat, i: nat, done: seq<int>)
    requires Valid(g)
  {
    exists c :: 0 <= c < |done| && done[c] >= 0 && IncludesVia(g, a, m, l, i, done[c])
  }

  lemma EdgeFoundNext(g: Grammar, a: Automaton, m: GotoTable, i: nat, done: seq<int>, r: nat)
    requires Valid(g)
    ensures forall l: nat :: EdgeFound(g, a, m, l, i, done + [r]) <==>
      EdgeFound(g, a, m, l, i, done) || IncludesVia(g, a, m, l, i, r)
  {
    hide IncludesVia, Valid;
    forall l: nat
      ensures EdgeFound(g, a, m, l, i, done + [r]) <==> EdgeFound(g, a, m, l, i, done) || IncludesVia(g, a, m, l, i, r)
    {
      if EdgeFound(g, a, m, l, i, done) {
        var c :| 0 <= c < |done| && done[c] >= 0 && IncludesVia(g, a, m, l, i, done[c]);
        assert (done + [r])[c] == done[c];
      }
      assert (done + [r])[|done|] == r;
    }
  }

  lemma EdgesFoundAll(g: Grammar, a: Automaton, m: GotoTable, i: nat, p: nat, x: int, p': nat)
    requires Valid(g) && GotoIs(a, m, i, p, x, p') && IsVar(g, x)
    ensures forall l: nat :: EdgeFound(g, a, m, l, i, RulesOf(g, x, |g.rlhs|)) <==> Includes(g, a, m, l, i)
  {
    hide Valid;
    var list := RulesOf(g, x, |g.rlhs|);
    forall l: nat ensures EdgeFound(g, a, m, l, i, list) <==> Includes(g, a, m, l, i) {
      if Includes(g, a, m, l, i) {
        var r: nat, j: nat, q: nat, q1: nat, s: nat, s1: nat :| IncludesBy(g, a, m, l, i, r, j, q, q1, s, s1);
        RulesOfMember(g, x, |g.rlhs|, r);
        var c :| 0 <= c < |list| && list[c] == r;
        assert IncludesVia(g, a, m, l, i, list[c]);
      }
      if EdgeFound(g, a, m, l, i, list) {
        var c :| 0 <= c < |list| && list[c] >= 0 && IncludesVia(g, a, m, l, i, list[c]);
        var j: nat, q: nat, q1: nat, s: nat, s1: nat :| IncludesBy(g, a, m, l, i, list[c], j, q, q1, s, s1);
      }
    }
  }

  /** One turn of the main loop of build_relations: all the rules of goto i. */
  method RelateGoto(g: Grammar, a: Automaton, m: GotoTable, nullable: array<bool>, derives: array<nat>,
                    rules: array<int>,
                    la: LaTable, lookback: array<seq<nat>>, i: nat) returns (edges: seq<nat>)
    requires Valid(g) && IsAutomaton(g, a) && IsGotoTable(g, a, m) && NullableOk(g, nullable) && i < |m.toState|
    requires IsDerives(g, derives[..], rules[..]) && IsLaTable(a, la) && lookback.Length == |la.laRuleno|
    requires lookback as object != nullable && lookback as object != derives && lookback as object != rules
    requires Lookbacks(g, a, m, la, lookback[..], i, [])
    modifies lookback
    ensures Lookbacks(g, a, m, la, lookback[..], i + 1, [])
    ensures forall l: nat :: l in edges <==> Includes(g, a, m, l, i)
  {
    hide Valid, IsAutomaton, IsGotoTable, IsLaTable, Lookbacks, EdgeFound, Includes, IncludesVia;
    TableRows(g, a, m);
    ghost var v := GotoEntry(g, a, m, i);
    var state1 := m.fromState[i];
    var symbol1 := a.states[m.toState[i]].symbol;
    ghost var x := g.ntokens + v;
    ghost var list := RulesOf(g, x, |g.rlhs|);
    assert ListAt(g, rules[..], derives[..][v], x);
    var first := derives[symbol1 - g.ntokens];
    edges := [];
    assert forall l: nat :: !EdgeFound(g, a, m, l, i, []) by {
      NoEdgeFound(g, a, m, i);
    }
    var rulep := first;
    ListEntry(g, rules[..], first, x, 0);
    assert list[..0] == [];
    while rules[rulep] >= 0
      invariant first <= rulep <= first + |list| < rules.Length
      invariant rules[rulep] == (list + [-1])[rulep - first] && (rules[rulep] < 0 <==> rulep - first == |list|)
      invariant Lookbacks(g, a, m, la, lookback[..], i, list[..rulep - first])
      invariant forall l: nat :: l in edges <==> EdgeFound(g, a, m, l, i, list[..rulep - first])
      decreases first + |list| - rulep
    {
      ghost var n := rulep - first;
      var r := rules[rulep];
      assert list[..n + 1] == list[..n] + [r];
      RulesOfMember(g, x, |g.rlhs|, r);
      LhsIsVar(g, r);
      var more := RelateRule(g, a, m, nullable, la, lookback, i, r, list[..n]);
      EdgeFoundNext(g, a, m, i, list[..n], r);
      edges := edges + more;
      rulep := rulep + 1;
      ListEntry(g, rules[..], first, x, n + 1);
    }
    assert list[..|list|] == list;
    EdgesFoundAll(g, a, m, i, state1, x, m.toState[i]);
    LookbackNextGoto(g, a, m, la, lookback[..], i, state1, x, m.toState[i]);
  }

  lemma NoEdgeFound(g: Grammar, a: Automaton, m: GotoTable, i: nat)
    requires Valid(g)
    ensures forall l: nat :: !EdgeFound(g, a, m, l, i, [])
  {
  }

  method RelateRule(g: Grammar, a: Automaton, m: GotoTable, nullable: array<bool>, la: LaTable,
                    lookback: array<seq<nat>>,
                    i: nat, r: nat, ghost done: seq<int>) returns (edges: seq<nat>)
    requires Valid(g) && IsAutomaton(g, a) && IsGotoTable(g, a, m) && NullableOk(g, nullable) && i < |m.toState|
    requires IsLaTable(a, la) && lookback.Length == |la.laRuleno| && lookback as object != nullable
    requires IsRule(g, r) && m.toState[i] < |a.states| && a.states[m.toState[i]].symbol == g.rlhs[r]
    requires Lookbacks(g, a, m, la, lookback[..], i, done)
    modifies lookback
    ensures Lookbacks(g, a, m, la, lookback[..], i, done + [r])
    ensures forall l: nat :: l in edges <==> IncludesVia(g, a, m, l, i, r)
  {
    hide Valid, IsAutomaton, IsGotoTable, IsLaTable, Lookbacks, IncludesVia, IncludesFrom;
    TableRows(g, a, m);
    ghost var v := GotoEntry(g, a, m, i);
    var state1 := m.fromState[i];
    RuleItemPresent(g, a, state1, g.rlhs[r], m.toState[i], r);
    var states := FollowRule(g, a, state1, r);
    var stateno := states[|states| - 1];
    ghost var before := lookback[..];
    ghost var x := AddLookbackEdge(g, a, la, lookback, stateno, r, i);
    LookbackStep(g, a, m, la, before, lookback[..], i, done, state1, m.toState[i], r, states, x);
    edges := IncludeEdges(g, a, m, nullable, states, state1, r);
    IncludesOnWalk(g, a, m, i, state1, m.toState[i], states, r);
  }

  method BuildRelations(g: Grammar, a: Automaton, m: GotoTable, nullable: array<bool>, derives: array<nat>,
                        rules: array<int>,
                        la: LaTable) returns (includes: seq<seq<nat>>, lookback: array<seq<nat>>)
    requires Valid(g) && IsAutomaton(g, a) && IsGotoTable(g, a, m) && NullableOk(g, nullable)
    requires IsDerives(g, derives[..], rules[..]) && IsLaTable(a, la)
    ensures GraphOf(includes) == IncludesGraph(g, a, m)
    ensures fresh(lookback) && LookbackOk(g, a, m, la, lookback[..])
  {
    hide Valid, IsAutomaton, IsGotoTable, IsLaTable, Lookbacks;
    var ngotos := |m.toState|;
    lookback := new seq<nat>[|la.laRuleno|](_ => []);
    NoLookbacks(g, a, m, la, lookback[..]);
    var included := [];
    for i := 0 to ngotos
      invariant fresh(lookback) && lookback.Length == |la.laRuleno| && NullableOk(g, nullable)
      invariant Lookbacks(g, a, m, la, lookback[..], i, [])
      invariant |included| == i && forall k :: 0 <= k < i ==> IncludedAre(g, a, m, k, included[k])
    {
      var edges := RelateGoto(g, a, m, nullable, derives, rules, la, lookback, i);
      included := included + [edges];
    }
    EdgesInRange(g, a, m, included);
    includes := Transpose(included, ngotos);
    IncludesAsGraph(g, a, m, included, includes);
    AllLookbacks(g, a, m, la, lookback[..]);
  }

  ghost predicate IncludedAre(g: Grammar, a: Automaton, m: GotoTable, k: nat, edges: seq<nat>)
    requires Valid(g)
  {
    forall l: nat :: l in edges <==> Includes(g, a, m, l, k)
  }

  /** lookback lists, for each reduction, the gotos it looks back to. */
  ghost predicate LookbackOk(g: Grammar, a: Automaton, m: GotoTable, la: LaTable, lookback: seq<seq<nat>>)
    requires Valid(g)
  {
    && |lookback| == |la.laRuleno|
    && forall x: nat, q: nat, r: nat :: LaIs(la, x, q, r) ==> LookbackIs(g, a, m, lookback[x], q, r)
  }

  ghost predicate LookbackIs(g: Grammar, a: Automaton, m: GotoTable, list: seq<nat>, q: nat, r: nat)
    requires Valid(g)
  {
    forall k: nat :: k in list <==> LooksBack(g, a, m, q, r, k)
  }

  lemma AllLookbacks(g: Grammar, a: Automaton, m: GotoTable, la: LaTable, lookback: seq<seq<nat>>)
    requires Valid(g) && IsAutomaton(g, a) && IsGotoTable(g, a, m) && Lookbacks(g, a, m, la, lookback, |m.toState|, [])
    ensures LookbackOk(g, a, m, la, lookback)
  {
    hide Valid, IsAutomaton, IsGotoTable;
    forall x: nat, q: nat, r: nat | LaIs(la, x, q, r) ensures LookbackIs(g, a, m, lookback[x], q, r) {
      assert LookbackAt(g, a, m, lookback[x], q, r, |m.toState|, []);
    }
  }

  lemma EdgesInRange(g: Grammar, a: Automaton, m: GotoTable, included: seq<seq<nat>>)
    requires Valid(g) && IsAutomaton(g, a) && IsGotoTable(g, a, m) && |included| == |m.toState|
    requires forall k :: 0 <= k < |included| ==> IncludedAre(g, a, m, k, included[k])
    ensures forall k, l :: 0 <= k < |included| && l in included[k] ==> l < |m.toState|
  {
    forall k, l | 0 <= k < |included| && l in included[k] ensures l < |m.toState| {
      assert IncludedAre(g, a, m, k, included[k]);
    }
  }

  lemma IncludesAsGraph(g: Grammar, a: Automaton, m: GotoTable, included: seq<seq<nat>>, includes: seq<seq<nat>>)
    requires Valid(g) && |included| == |includes| == |m.toState|
    requires forall k :: 0 <= k < |included| ==> IncludedAre(g, a, m, k, included[k])
    requires forall x, y :: 0 <= x < |includes| && 0 <= y ==> (y in includes[x] <==> y < |included| && x in included[y])
    ensures GraphOf(includes) == IncludesGraph(g, a, m)
  {
    hide Valid, Includes, IncludedAre;
    forall l: nat | l < |includes| ensures GraphOf(includes)[l] == IncludesGraph(g, a, m)[l] {
      forall k: nat ensures k in GraphOf(includes)[l] <==> k in IncludesGraph(g, a, m)[l] {
        TurnedAround(included, includes, l, k);
        if k < |included| {
          IncludedIn(g, a, m, k, included[k], l);
        }
      }
    }
  }

  lemma TurnedAround(included: seq<seq<nat>>, includes: seq<seq<nat>>, l: nat, k: nat)
    requires forall x, y :: 0 <= x < |includes| && 0 <= y ==> (y in includes[x] <==> y < |included| && x in included[y])
    requires l < |includes|
    ensures k in SetOf(includes[l]) <==> k < |included| && l in included[k]
  {
    assert k in includes[l] <==> k in SetOf(includes[l]);
  }

  lemma IncludedIn(g: Grammar, a: Automaton, m: GotoTable, k: nat, list: seq<nat>, l: nat)
    requires Valid(g) && k < |m.toState| && l < |m.toState| && IncludedAre(g, a, m, k, list)
    ensures l in list <==> Includes(g, a, m, l, k)
    ensures l in list <==> k in IncludesGraph(g, a, m)[l]
  {
    hide Valid, Includes;
  }

  // ---------- transpose ----------

  /** How often x occurs in the first i rows, and the first j entries of row i. */
  ghost function Occurrences(R: seq<seq<nat>>, x: nat, i: nat, j: nat): nat
    requires (i < |R| && j <= |R[i]|) || (i == |R| && j == 0)
  {
    (if i == 0 then 0 else Occurrences(R, x, i - 1, |R[i - 1]|)) + (if j == 0 then 0 else multiset(R[i][..j])[x])
  }

  ghost predicate TransposedUpTo(R: seq<seq<nat>>, rows: seq<seq<nat>>, i: nat, j: nat)
    requires (i < |R| && j <= |R[i]|) || (i == |R| && j == 0)
  {
    forall x, y: nat :: 0 <= x < |rows| ==>
      (y in rows[x] <==> (y < i && x in R[y]) || (y == i && i < |R| && x in R[i][..j]))
  }

  lemma TransposeStep(R: seq<seq<nat>>, rows: seq<seq<nat>>, i: nat, j: nat)
    requires i < |R| && j < |R[i]| && R[i][j] < |rows| && TransposedUpTo(R, rows, i, j)
    ensures TransposedUpTo(R, rows[R[i][j] := rows[R[i][j]] + [i]], i, j + 1)
  {
    assert R[i][..j + 1] == R[i][..j] + [R[i][j]];
  }

  lemma TransposeRowEnds(R: seq<seq<nat>>, rows: seq<seq<nat>>, i: nat)
    requires i < |R| && TransposedUpTo(R, rows, i, |R[i]|)
    ensures TransposedUpTo(R, rows, i + 1, 0)
  {
    assert R[i][..|R[i]|] == R[i];
  }

  lemma OccurrencesStep(R: seq<seq<nat>>, x: nat, i: nat, j: nat)
    requires i < |R| && j < |R[i]|
    ensures Occurrences(R, x, i, j + 1) == Occurrences(R, x, i, j) + if R[i][j] == x then 1 else 0
  {
    assert R[i][..j + 1] == R[i][..j] + [R[i][j]];
  }

  lemma OccurrencesRow(R: seq<seq<nat>>, x: nat, i: nat)
    requires i < |R|
    ensures Occurrences(R, x, i + 1, 0) == Occurrences(R, x, i, |R[i]|)
  {
  }

  /** The first pass of transpose counts the entries of each new row. */
  method CountEdges(R: seq<seq<nat>>, n: nat) returns (nedges: array<nat>)
    requires |R| == n && forall k, l :: 0 <= k < n && l in R[k] ==> l < n
    ensures fresh(nedges) && nedges.Length == n && forall x :: 0 <= x < n ==> nedges[x] == Occurrences(R, x, n, 0)
  {
    nedges := new nat[n](_ => 0);
    for i := 0 to n
      invariant nedges.Length == n && fresh(nedges) && forall x :: 0 <= x < n ==> nedges[x] == Occurrences(R, x, i, 0)
    {
      for j := 0 to |R[i]|
        invariant nedges.Length == n && fresh(nedges) && forall x :: 0 <= x < n ==> nedges[x] == Occurrences(R, x, i, j)
      {
        assert R[i][j] in R[i];
        forall x | 0 <= x < n
          ensures Occurrences(R, x, i, j + 1) == Occurrences(R, x, i, j) + if R[i][j] == x then 1 else 0
        {
          OccurrencesStep(R, x, i, j);
        }
        nedges[R[i][j]] := nedges[R[i][j]] + 1;
      }
      forall x | 0 <= x < n ensures Occurrences(R, x, i + 1, 0) == Occurrences(R, x, i, |R[i]|) {
        OccurrencesRow(R, x, i);
      }
    }
  }

  /** Turns the relation around. Row x of the result is filled to exactly the length counted for it. */
  method Transpose(R: seq<seq<nat>>, n: nat) returns (newR: seq<seq<nat>>)
    requires |R| == n && forall k, l :: 0 <= k < n && l in R[k] ==> l < n
    ensures |newR| == n
    ensures forall x, y :: 0 <= x < n && 0 <= y ==> (y in newR[x] <==> y < n && x in R[y])
    ensures forall x :: 0 <= x < n ==> |newR[x]| == Occurrences(R, x, n, 0)
  {
    hide Occurrences;
    var nedges := CountEdges(R, n);
    var rows := new seq<nat>[n](_ => []);
    NoOccurrences(R);
    for i := 0 to n
      invariant fresh(rows) && rows.Length == n && TransposedUpTo(R, rows[..], i, 0)
      invariant forall x :: 0 <= x < n ==> |rows[x]| == Occurrences(R, x, i, 0)
    {
      TransposeRow(R, rows, i);
    }
    newR := rows[..];
  }

  lemma NoOccurrences(R: seq<seq<nat>>)
    ensures forall x: nat :: Occurrences(R, x, 0, 0) == 0
  {
  }

  method TransposeRow(R: seq<seq<nat>>, rows: array<seq<nat>>, i: nat)
    requires i < |R| == rows.Length && forall k, l :: 0 <= k < |R| && l in R[k] ==> l < |R|
    requires TransposedUpTo(R, rows[..], i, 0)
    requires forall x :: 0 <= x < |R| ==> |rows[x]| == Occurrences(R, x, i, 0)
    modifies rows
    ensures TransposedUpTo(R, rows[..], i + 1, 0)
    ensures forall x :: 0 <= x < |R| ==> |rows[x]| == Occurrences(R, x, i + 1, 0)
  {
    hide Occurrences, TransposedUpTo;
    for j := 0 to |R[i]|
      invariant TransposedUpTo(R, rows[..], i, j)
      invariant forall x :: 0 <= x < |R| ==> |rows[x]| == Occurrences(R, x, i, j)
    {
      assert R[i][j] in R[i];
      ghost var before := rows[..];
      forall x | 0 <= x < |R|
        ensures Occurrences(R, x, i, j + 1) == Occurrences(R, x, i, j) + if R[i][j] == x then 1 else 0
      {
        OccurrencesStep(R, x, i, j);
      }
      TransposeStep(R, before, i, j);
      rows[R[i][j]] := rows[R[i][j]] + [i];
      assert rows[..] == before[R[i][j] := before[R[i][j]] + [i]];
    }
    TransposeRowEnds(R, rows[..], i);
    forall x | 0 <= x < |R| ensures Occurrences(R, x, i + 1, 0) == Occurrences(R, x, i, |R[i]|) {
      OccurrencesRow(R, x, i);
    }
  }

  // ---------- compute_lookaheads ----------

  ghost predicate AllBelow(gotos: seq<nat>, n: nat) {
    forall c :: 0 <= c < |gotos| ==> gotos[c] < n
  }

  /** The union of the rows of F that a list of gotos names. */
  ghost function UnionOf(rows: seq<set<nat>>, gotos: seq<nat>): set<nat>
    requires AllBelow(gotos, |rows|)
  {
    if gotos == [] then {}
    else UnionOf(rows, gotos[..|gotos| - 1]) + rows[gotos[|gotos| - 1]]
  }

  lemma {:induction false} UnionOfMember(rows: seq<set<nat>>, gotos: seq<nat>, t: nat)
    requires AllBelow(gotos, |rows|)
    ensures t in UnionOf(rows, gotos) <==> exists k :: k in gotos && k < |rows| && t in rows[k]
  {
    if gotos != [] {
      var n := |gotos| - 1;
      assert gotos == gotos[..n] + [gotos[n]];
      UnionOfMember(rows, gotos[..n], t);
    }
  }

  lemma UnionOfNext(rows: seq<set<nat>>, gotos: seq<nat>, n: nat)
    requires n < |gotos| && AllBelow(gotos, |rows|)
    ensures UnionOf(rows, gotos[..n + 1]) == UnionOf(rows, gotos[..n]) + rows[gotos[n]]
  {
    assert gotos[..n + 1][..n] == gotos[..n];
  }

  /** ORs into row i of LA the rows of F of all the gotos that reduction i looks back to. */
  method GatherRow(LA: array<Word>, rowp: nat, F: array<Word>, gotos: seq<nat>, size: nat, ghost n: nat, ghost i: nat,
                   ghost ngotos: nat)
    requires LA != F && i < n && Start(n, size) <= LA.Length && rowp == Start(i, size)
    requires Start(ngotos, size) <= F.Length
    requires AllBelow(gotos, ngotos)
    requires Rows(LA[..], size, n)[i] == {}
    modifies LA
    ensures Rows(LA[..], size, n) == old(Rows(LA[..], size, n))[i := UnionOf(Rows(F[..], size, ngotos), gotos)]
  {
    hide RowSet, Row, Mask;
    ghost var rows, before := Rows(F[..], size, ngotos), Rows(LA[..], size, n);
    var none: seq<nat> := [];
    assert gotos[..0] == none && UnionOf(rows, none) == {};
    for c := 0 to |gotos|
      invariant Rows(LA[..], size, n) == before[i := UnionOf(rows, gotos[..c])]
    {
      UnionOfNext(rows, gotos, c);
      var fp2 := RowPointer(gotos[c], size);
      OrRowFrom(LA, rowp, F, fp2, size, n, i, ngotos, gotos[c]);
    }
    assert gotos[..|gotos|] == gotos;
  }

  ghost predicate GotosInRange(lookback: seq<seq<nat>>, ngotos: nat) {
    forall x :: 0 <= x < |lookback| ==> AllBelow(lookback[x], ngotos)
  }

  ghost function GatheredRows(rows: seq<set<nat>>, lookback: seq<seq<nat>>): (r: seq<set<nat>>)
    requires GotosInRange(lookback, |rows|)
    ensures |r| == |lookback|
  {
    seq(|lookback|, x requires 0 <= x < |lookback| => UnionOf(rows, lookback[x]))
  }

  method ComputeLookaheads(F: array<Word>, lookback: seq<seq<nat>>, tokensetsize: nat, ghost ngotos: nat)
    returns (LA: array<Word>)
    requires Start(ngotos, tokensetsize) <= F.Length && GotosInRange(lookback, ngotos)
    ensures fresh(LA) && LA.Length == Start(|lookback|, tokensetsize)
    ensures Rows(LA[..], tokensetsize, |lookback|) == GatheredRows(Rows(F[..], tokensetsize, ngotos), lookback)
  {
    hide RowSet, Row, Mask;
    var n := |lookback|;
    var words := RowPointer(n, tokensetsize);
    LA := new Word[words](_ => ZERO);
    ZeroTable(LA[..], tokensetsize, n);
    ghost var result := GatheredRows(Rows(F[..], tokensetsize, ngotos), lookback);
    var rowp := 0;
    for i := 0 to n
      invariant fresh(LA) && LA.Length == words && rowp == Start(i, tokensetsize)
      invariant Rows(LA[..], tokensetsize, n) == result[..i] + seq(n - i, _ => {})
    {
      ghost var before := Rows(LA[..], tokensetsize, n);
      GatherRow(LA, rowp, F, lookback[i], tokensetsize, n, i, ngotos);
      assert before[i := result[i]] == result[..i + 1] + seq(n - (i + 1), _ => {});
      rowp := rowp + tokensetsize;
    }
    assert result[..n] + seq(0, _ => {}) == result;
  }

  // ---------- lalr ----------

  /** Row x of LA holds exactly the tokens that can follow reduction x. */
  ghost predicate LookaheadsOk(g: Grammar, a: Automaton, m: GotoTable, la: LaTable, rows: seq<set<nat>>)
    requires Valid(g)
  {
    && |rows| == |la.laRuleno|
    && forall x: nat, q: nat, r: nat :: LaIs(la, x, q, r) ==> LookaheadRow(g, a, m, rows[x], q, r)
  }

  ghost predicate LookaheadRow(g: Grammar, a: Automaton, m: GotoTable, row: set<nat>, q: nat, r: nat)
    requires Valid(g)
  {
    forall t: nat :: t in row <==> IsLookahead(g, a, m, q, r, t)
  }

  ghost predicate FirstPassOk(g: Grammar, a: Automaton, m: GotoTable, rows: seq<set<nat>>)
    requires Valid(g)
  {
    && |rows| == |m.toState|
    && forall k, t :: 0 <= k < |m.toState| && 0 <= t ==>
      (t in rows[k] <==> InSolution(ReadsGraph(g, a, m), DirectRows(g, a, m), k, t))
  }

  ghost predicate SecondPassOk(g: Grammar, a: Automaton, m: GotoTable, first: seq<set<nat>>, rows: seq<set<nat>>)
    requires Valid(g)
  {
    && |rows| == |m.toState|
    && forall k, t :: 0 <= k < |m.toState| && 0 <= t ==>
      (t in rows[k] <==> InSolution(IncludesGraph(g, a, m), first, k, t))
  }

  /** Both passes together: includes*, then reads*, then a direct read. */
  lemma TwoPasses(g: Grammar, a: Automaton, m: GotoTable, first: seq<set<nat>>, rows: seq<set<nat>>, i: nat, t: nat)
    requires Valid(g) && IsAutomaton(g, a) && IsGotoTable(g, a, m)
    requires FirstPassOk(g, a, m, first) && SecondPassOk(g, a, m, first, rows) && i < |m.toState|
    ensures t in rows[i] <==> exists j: nat, k: nat :: FollowedBy(g, a, m, i, j, k, t)
  {
    hide Valid, IsAutomaton, IsGotoTable, ReadsGraph, IncludesGraph;
    if t in rows[i] {
      var j: nat :| Reach(IncludesGraph(g, a, m), i, j) && j < |first| && t in first[j];
      var k: nat :| Reach(ReadsGraph(g, a, m), j, k) && k < |DirectRows(g, a, m)| && t in DirectRows(g, a, m)[k];
      assert FollowedBy(g, a, m, i, j, k, t);
    }
    if j: nat, k: nat :| FollowedBy(g, a, m, i, j, k, t) {
      DirectlyReadsToken(g, a, m, k, t);
      ReachInRange(g, a, m, i, j);
      assert InSolution(ReadsGraph(g, a, m), DirectRows(g, a, m), j, t);
    }
  }

  ghost predicate FollowedBy(g: Grammar, a: Automaton, m: GotoTable, i: nat, j: nat, k: nat, t: nat)
    requires Valid(g)
  {
    && Reach(IncludesGraph(g, a, m), i, j)
    && Reach(ReadsGraph(g, a, m), j, k)
    && k < |m.toState| && DirectlyReads(g, a, m, k, t)
  }

  lemma DirectlyReadsToken(g: Grammar, a: Automaton, m: GotoTable, k: nat, t: nat)
    requires Valid(g) && k < |m.toState| && DirectlyReads(g, a, m, k, t)
    ensures t < g.ntokens && t in DirectRows(g, a, m)[k]
  {
  }

  lemma ReachInRange(g: Grammar, a: Automaton, m: GotoTable, i: nat, j: nat)
    requires Valid(g) && Reach(IncludesGraph(g, a, m), i, j)
    ensures j < |m.toState|
  {
    var h := IncludesGraph(g, a, m);
    var p :| PathFromTo(h, p, i, j);
    PathInRange(h, p, |p| - 1);
  }

  lemma LookaheadsFollow(g: Grammar, a: Automaton, m: GotoTable, la: LaTable, lookback: seq<seq<nat>>,
                         first: seq<set<nat>>, rows: seq<set<nat>>)
    requires Valid(g) && IsAutomaton(g, a) && IsGotoTable(g, a, m) && LookbackOk(g, a, m, la, lookback)
    requires FirstPassOk(g, a, m, first) && SecondPassOk(g, a, m, first, rows)
    requires |rows| == |m.toState| && GotosInRange(lookback, |rows|)
    ensures LookaheadsOk(g, a, m, la, GatheredRows(rows, lookback))
  {
    hide Valid, IsAutomaton, IsGotoTable, LooksBack, FirstPassOk, SecondPassOk, FollowedBy;
    forall x: nat, q: nat, r: nat | LaIs(la, x, q, r)
      ensures LookaheadRow(g, a, m, GatheredRows(rows, lookback)[x], q, r)
    {
      assert LookbackIs(g, a, m, lookback[x], q, r);
      forall t: nat ensures t in UnionOf(rows, lookback[x]) <==> IsLookahead(g, a, m, q, r, t) {
        RowFollows(g, a, m, lookback[x], q, r, first, rows, t);
      }
    }
  }

  lemma RowFollows(g: Grammar, a: Automaton, m: GotoTable, list: seq<nat>, q: nat, r: nat,
                   first: seq<set<nat>>, rows: seq<set<nat>>, t: nat)
    requires Valid(g) && IsAutomaton(g, a) && IsGotoTable(g, a, m) && LookbackIs(g, a, m, list, q, r)
    requires FirstPassOk(g, a, m, first) && SecondPassOk(g, a, m, first, rows) && |rows| == |m.toState|
    requires AllBelow(list, |rows|)
    ensures t in UnionOf(rows, list) <==> IsLookahead(g, a, m, q, r, t)
  {
    hide Valid, IsAutomaton, IsGotoTable, LooksBack, FirstPassOk, SecondPassOk;
    UnionOfMember(rows, list, t);
    if t in UnionOf(rows, list) {
      var i :| i in list && i < |rows| && t in rows[i];
      TwoPasses(g, a, m, first, rows, i, t);
      var j: nat, k: nat :| FollowedBy(g, a, m, i, j, k, t);
      assert LookaheadBy(g, a, m, q, r, t, i, j, k);
    }
    if IsLookahead(g, a, m, q, r, t) {
      var i: nat, j: nat, k: nat :| LookaheadBy(g, a, m, q, r, t, i, j, k);
      assert FollowedBy(g, a, m, i, j, k, t) && i in list && i < |rows|;
      TwoPasses(g, a, m, first, rows, i, t);
    }
  }

  lemma LookbackInRange(g: Grammar, a: Automaton, m: GotoTable, la: LaTable, lookback: seq<seq<nat>>)
    requires Valid(g) && IsAutomaton(g, a) && IsGotoTable(g, a, m) && IsLaTable(a, la)
    requires LookbackOk(g, a, m, la, lookback)
    ensures GotosInRange(lookback, |m.toState|)
  {
    hide Valid, IsAutomaton, IsGotoTable;
    forall x | 0 <= x < |lookback| ensures AllBelow(lookback[x], |m.toState|) {
      var q := LaOfEntry(a, la, x, |a.reductions|);
      assert LookbackIs(g, a, m, lookback[x], q, la.laRuleno[x]);
      forall c | 0 <= c < |lookback[x]| ensures lookback[x][c] < |m.toState| {
        assert lookback[x][c] in lookback[x];
        assert LooksBack(g, a, m, q, la.laRuleno[x], lookback[x][c]);
      }
    }
  }

  /** Every entry belongs to some state. */
  lemma {:induction false} LaOfEntry(a: Automaton, la: LaTable, x: nat, n: nat) returns (q: nat)
    requires IsLaTable(a, la) && n <= |a.reductions| && x < LaStart(a, n) && x < |la.laRuleno|
    ensures LaIs(la, x, q, la.laRuleno[x])
    decreases n
  {
    if LaStart(a, n - 1) <= x {
      q := n - 1;
    } else {
      q := LaOfEntry(a, la, x, n - 1);
    }
  }

  /** lalr: from the automaton to the lookahead sets. */
  method ComputeLalr(g: Grammar, a: Automaton, derives: array<nat>, rules: array<int>, nullable: array<bool>)
    returns (m: GotoTable, la: LaTable, LA: array<Word>)
    requires Valid(g) && IsAutomaton(g, a) && IsDerives(g, derives[..], rules[..]) && NullableOk(g, nullable)
    ensures IsGotoTable(g, a, m) && IsLaTable(a, la)
    ensures fresh(LA) && LA.Length == Start(|la.laRuleno|, WordSize(g.ntokens))
    ensures LookaheadsOk(g, a, m, la, Rows(LA[..], WordSize(g.ntokens), |la.laRuleno|))
  {
    hide RowSet, Row, Mask, Valid, IsAutomaton, IsLaTable, IsDerives, LookbackOk, LookaheadsOk;
    var tokensetsize := WordSize(g.ntokens);
    var lookaheads, laRuleno := InitializeLA(a);
    la := LaTable(lookaheads[..], laRuleno[..]);
    var gotoMap, fromState, toState := SetGotoMap(g, a);
    m := GotoTable(gotoMap[..], fromState[..], toState[..]);
    var F := InitializeF(g, a, m, nullable, tokensetsize);
    ghost var first := Rows(F[..], tokensetsize, |m.toState|);
    var includes, lookback := BuildRelations(g, a, m, nullable, derives, rules, la);
    var pass := new DigraphPass(includes, F, tokensetsize);
    pass.Run();
    ghost var rows := Rows(F[..], tokensetsize, |m.toState|);
    assert FirstPassOk(g, a, m, first);
    assert SecondPassOk(g, a, m, first, rows);
    LookbackInRange(g, a, m, la, lookback[..]);
    LookbackLength(g, a, m, la, lookback[..]);
    LA := ComputeLookaheads(F, lookback[..], tokensetsize, |m.toState|);
    LookaheadsFollow(g, a, m, la, lookback[..], first, rows);
  }

  lemma LookbackLength(g: Grammar, a: Automaton, m: GotoTable, la: LaTable, lookback: seq<seq<nat>>)
    requires Valid(g) && LookbackOk(g, a, m, la, lookback)
    ensures |lookback| == |la.laRuleno|
  {
  }
}
