/** How deep the stack of a parser without conflicts gets, if every nonterminal derives a string of
    tokens: then a stack never holds a state twice with only nullable symbols in between. */
module StackBound {
  import opened Graphs
  import opened Grammars
  import opened Items
  import opened Sequences
  import opened Automata
  import opened Gotos
  import opened Relations
  import opened Stacks
  import opened Prefixes
  import opened Trees
  import opened FollowSets
  import opened Driver
  import opened Acceptance
  import opened Loops
  import opened Decisions
  import opened Termination
  import Lookaheads

  /** x derives a string of tokens. */
  ghost predicate IsProductive(g: Grammar, x: int)
    requires Valid(g)
  {
    exists w :: AllTokens(g, w) && Derives(g, [x], w)
  }

  ghost predicate AllProductive(g: Grammar)
    requires Valid(g)
  {
    forall x :: StartSymbol(g) < x < g.nsyms ==> IsProductive(g, x)
  }

  // ---------- What can follow the gotos on a stack ----------

  /** k is the goto between places i - 1 and i of the stack. */
  ghost predicate GotoAt(s: Setup, stack: seq<nat>, i: nat, k: nat) {
    0 < i < |stack| && stack[i] < |s.a.states| && IsVar(s.g, s.a.states[stack[i]].symbol) &&
    GotoIs(s.a, s.m, k, stack[i - 1], s.a.states[stack[i]].symbol, stack[i])
  }

  /** The symbols above place i are nullable. */
  ghost predicate EmptyAbove(s: Setup, stack: seq<nat>, i: nat)
    requires Valid(s.g)
  {
    forall j :: i < j < |stack| ==> stack[j] < |s.a.states| && IsNullable(s.g, s.a.states[stack[j]].symbol)
  }

  /** t can follow each goto on the stack that has nothing but nullable symbols above it. */
  ghost predicate Behind(s: Setup, stack: seq<nat>, t: int) {
    Valid(s.g) && forall i, k :: GotoAt(s, stack, i, k) && EmptyAbove(s, stack, i) ==> CanFollow(s.g, s.a, s.m, k, t)
  }

  /** What derives nothing is no token. */
  lemma NullableIsVar(g: Grammar, x: int)
    requires Valid(g) && IsNullable(g, x)
    ensures IsVar(g, x)
  {
    var d :| DerivesBy(g, d, [x], []);
    assert Step(g, d[0], d[0 + 1]);
    var p: nat, r: nat :| StepAt(g, d[0], d[1], p, r);
    LhsIsVar(g, r);
  }

  lemma StackAt(s: Setup, stack: seq<nat>, i: nat)
    requires IsStack(s.a, stack) && 0 < i < |stack|
    ensures stack[i] < |s.a.states| && stack[i - 1] < |s.a.states|
    ensures Edge(s.a, stack[i - 1], s.a.states[stack[i]].symbol, stack[i])
  {
  }

  /** What can be read behind the goto on top can be read behind those below, over nullable symbols. */
  lemma {:induction false} ReadBelow(s: Setup, stack: seq<nat>, i: nat, k: nat, top: nat, t: int)
    requires Generated(s) && Valid(s.g) && IsStack(s.a, stack) && GotoAt(s, stack, i, k) && EmptyAbove(s, stack, i)
    requires GotoAt(s, stack, |stack| - 1, top) && CanRead(s.g, s.a, s.m, top, t)
    ensures CanRead(s.g, s.a, s.m, k, t)
    decreases |stack| - i
  {
    hide Generated, Valid, IsAutomaton, IsGotoTable, IsStack, Edge, CanRead, IsNullable;
    Basics(s);
    var x := s.a.states[stack[i]].symbol;
    if i == |stack| - 1 {
      GotoUnique(s.g, s.a, s.m, k, top, stack[i - 1], x, stack[i], stack[i]);
    } else {
      StackAt(s, stack, i + 1);
      var y := s.a.states[stack[i + 1]].symbol;
      NullableIsVar(s.g, y);
      var k' := GotoExists(s.g, s.a, s.m, stack[i], y, stack[i + 1]);
      assert GotoAt(s, stack, i + 1, k');
      ReadBelow(s, stack, i + 1, k', top, t);
      assert Relations.Reads(s.g, s.a, s.m, k, k');
      assert k' in ReadsGraph(s.g, s.a, s.m)[k];
      ReadMore(s.g, s.a, s.m, k, k', t);
    }
  }

  lemma ReadBehind(s: Setup, stack: seq<nat>, top: nat, t: int)
    requires Generated(s) && Valid(s.g) && IsStack(s.a, stack) && GotoAt(s, stack, |stack| - 1, top)
    requires CanRead(s.g, s.a, s.m, top, t)
    ensures Behind(s, stack, t)
  {
    hide Generated, Valid, IsStack, EmptyAbove, CanRead, CanFollow, Edge;
    forall i: nat, k: nat | GotoAt(s, stack, i, k) && EmptyAbove(s, stack, i) ensures CanFollow(s.g, s.a, s.m, k, t) {
      ReadBelow(s, stack, i, k, top, t);
      ReadFollows(s.g, s.a, s.m, k, t);
    }
  }

  // ---------- A rule on top of the stack ----------

  /** The first d symbols of rule r are on top of the stack, above a state with its first item. */
  ghost predicate RuleOnTop(s: Setup, stack: seq<nat>, r: nat, d: nat, walk: seq<nat>) {
    && Valid(s.g) && IsStack(s.a, stack) && IsRule(s.g, r) && r > FIRST_RULE && 0 < d <= |Rhs(s.g, r)| && d < |stack|
    && IsWalk(s.a, stack[|stack| - 1 - d], Rhs(s.g, r), walk)
    && stack[..|stack| - d] + walk[1..d + 1] == stack
    && forall m :: 0 <= m < d ==> s.a.states[stack[|stack| - d + m]].symbol == Rhs(s.g, r)[m]
  }

  lemma TopRule(s: Setup, stack: seq<nat>, r: nat, d: nat) returns (walk: seq<nat>)
    requires Generated(s) && Valid(s.g) && IsStack(s.a, stack) && IsRule(s.g, r) && r > FIRST_RULE
    requires 0 < d <= |Rhs(s.g, r)| && s.g.rrhs[r] + d in ItemsOf(s.g, s.a.states[stack[|stack| - 1]])
    ensures RuleOnTop(s, stack, r, d, walk)
    ensures s.g.rrhs[r] in ItemsOf(s.g, s.a.states[stack[|stack| - 1 - d]])
  {
    hide Generated, Valid, IsAutomaton, IsGotoTable, ItemsOf, Edge;
    Basics(s);
    ItemOnStack(s.g, s.a, stack, r, d);
    var n, rhs := |stack| - 1 - d, Rhs(s.g, r);
    var all := RuleWalk(s.g, s.a, stack[n], r, |rhs|);
    assert rhs[..|rhs|] == rhs;
    walk := all;
    var w, own := rhs[..d], stack[n..];
    forall m | 0 <= m < d
      ensures s.a.states[stack[n + 1 + m]].symbol == rhs[m] && Edge(s.a, own[m], w[m], own[m + 1])
    {
      assert Symbols(s.a, stack)[n..][m] == w[m] == Symbols(s.a, stack)[n + m];
      assert Edge(s.a, stack[n + m], s.a.states[stack[n + m + 1]].symbol, stack[n + m + 1]);
    }
    assert IsWalk(s.a, stack[n], w, own);
    WalkPrefix(s.a, stack[n], rhs, walk, d);
    forall m: nat | m <= d ensures walk[m] == own[m] {
      WalkUnique(s.g, s.a, stack[n], w, own, walk[..d + 1], m);
    }
    assert stack[..|stack| - d] + walk[1..d + 1] == stack;
  }

  /** If the rest of the rule is nullable, what can follow once it is reduced can follow now. */
  lemma IncludeBehind(s: Setup, stack: seq<nat>, r: nat, d: nat, walk: seq<nat>, p: nat, t: int)
    requires Generated(s) && RuleOnTop(s, stack, r, d, walk) && AllNullable(s.g, Rhs(s.g, r)[d..])
    requires Edge(s.a, stack[|stack| - 1 - d], s.g.rlhs[r], p) && Behind(s, stack[..|stack| - d] + [p], t)
    ensures Behind(s, stack, t)
  {
    hide Generated, Valid, GotoAt, EmptyAbove, CanFollow, RuleOnTop, Edge, AllNullable;
    forall i: nat, k: nat | GotoAt(s, stack, i, k) && EmptyAbove(s, stack, i) ensures CanFollow(s.g, s.a, s.m, k, t) {
      var n := |stack| - d;
      if i >= n {
        InRuleFollows(s, stack, r, d, walk, p, t, i, k);
      } else {
        BelowRuleFollows(s, stack, r, d, walk, p, t, i, k);
      }
    }
  }

  lemma InRuleFollows(s: Setup, stack: seq<nat>, r: nat, d: nat, walk: seq<nat>, p: nat, t: int, i: nat, k: nat)
    requires Generated(s) && RuleOnTop(s, stack, r, d, walk) && AllNullable(s.g, Rhs(s.g, r)[d..])
    requires Edge(s.a, stack[|stack| - 1 - d], s.g.rlhs[r], p) && Behind(s, stack[..|stack| - d] + [p], t)
    requires i >= |stack| - d && GotoAt(s, stack, i, k) && EmptyAbove(s, stack, i)
    ensures CanFollow(s.g, s.a, s.m, k, t)
  {
    hide Generated, Valid, IsAutomaton, IsGotoTable, IsStack, IsWalk, Edge, CanFollow, IsNullable, Walks;
    Basics(s);
    var n, rhs := |stack| - d, Rhs(s.g, r);
    var below, j := stack[..n], i - n;
    LhsIsVar(s.g, r);
    var from := below[n - 1];
    var k' := GotoExists(s.g, s.a, s.m, from, s.g.rlhs[r], p);
    EdgeSymbol(s.a, from, s.g.rlhs[r], p);
    assert GotoAt(s, below + [p], n, k') && EmptyAbove(s, below + [p], n);
    WalkStarts(s.a, from, rhs, walk);
    WalkEdge(s.a, from, rhs, walk, j);
    assert walk[j + 1] == stack[i] && walk[j] == stack[i - 1] by {
      PlaceOnWalk(stack, below, walk, d, j);
    }
    assert s.a.states[stack[n + j]].symbol == rhs[j];
    var after := rhs[j + 1..];
    forall m | 0 <= m < |after| ensures IsNullable(s.g, after[m]) {
      if j + 1 + m < d {
        assert s.a.states[stack[n + (j + 1 + m)]].symbol == rhs[j + 1 + m];
      } else {
        assert rhs[d..][j + 1 + m - d] == rhs[j + 1 + m];
      }
    }
    assert IncludesBy(s.g, s.a, s.m, k, k', r, j, walk[j], from, walk[j + 1], p);
    IncludesOne(s.g, s.a, s.m, k, k', r, j, walk[j], from, walk[j + 1], p, t);
  }

  lemma EdgeSymbol(a: Automaton, q: nat, x: int, p: nat)
    requires Edge(a, q, x, p)
    ensures p < |a.states| && a.states[p].symbol == x
  {
  }

  lemma PlaceOnWalk(stack: seq<nat>, below: seq<nat>, walk: seq<nat>, d: nat, j: nat)
    requires j < d < |walk| && |below| > 0 && below + walk[1..d + 1] == stack && walk[0] == below[|below| - 1]
    ensures walk[j + 1] == stack[|below| + j] && walk[j] == stack[|below| + j - 1]
  {
    if j > 0 {
      assert walk[1..d + 1][j - 1] == walk[j];
    }
    assert walk[1..d + 1][j] == walk[j + 1];
  }

  lemma BelowRuleFollows(s: Setup, stack: seq<nat>, r: nat, d: nat, walk: seq<nat>, p: nat, t: int, i: nat, k: nat)
    requires Generated(s) && RuleOnTop(s, stack, r, d, walk) && AllNullable(s.g, Rhs(s.g, r)[d..])
    requires Edge(s.a, stack[|stack| - 1 - d], s.g.rlhs[r], p) && Behind(s, stack[..|stack| - d] + [p], t)
    requires i < |stack| - d && GotoAt(s, stack, i, k) && EmptyAbove(s, stack, i)
    ensures CanFollow(s.g, s.a, s.m, k, t)
  {
    hide Generated, Valid, IsStack, IsWalk, Edge, CanFollow, IsNullable;
    var n, rhs := |stack| - d, Rhs(s.g, r);
    var shorter := stack[..n] + [p];
    EdgeSymbol(s.a, stack[n - 1], s.g.rlhs[r], p);
    forall m | 0 <= m < |rhs| ensures IsNullable(s.g, rhs[m]) {
      if m < d {
        assert s.a.states[stack[n + m]].symbol == rhs[m];
      } else {
        assert rhs[d..][m - d] == rhs[m];
      }
    }
    LhsNullable(s.g, r);
    assert GotoAt(s, shorter, i, k) && EmptyAbove(s, shorter, i);
  }

  lemma LhsNullable(g: Grammar, r: nat)
    requires Valid(g) && IsRule(g, r) && AllNullable(g, Rhs(g, r))
    ensures IsNullable(g, g.rlhs[r])
  {
    hide Valid, Derives;
    NullableDerives(g, Rhs(g, r));
    DerivesRule(g, r);
    DerivesTrans(g, [g.rlhs[r]], Rhs(g, r), []);
  }

  // ---------- Reductions on a viable stack can come to an end ----------

  /** Trees for nullable symbols and one more that is not. */
  lemma FirstTrees(g: Grammar, w: seq<int>, x: int) returns (f: Forest)
    requires Valid(g) && AllProductive(g) && AllNullable(g, w) && !IsNullable(g, x) && NoStart(g, w + [x])
    requires 0 < x < g.nsyms
    ensures IsForest(g, f) && Roots(g, f) == w + [x] && Yield(f) != []
  {
    hide Valid, Derives;
    NullableDerives(g, w);
    assert (w + [x])[|w|] == x && x in w + [x];
    var z: seq<int>;
    if x < g.ntokens {
      z := [x];
      DerivesRefl(g, [x]);
    } else {
      assert IsProductive(g, x);
      z :| AllTokens(g, z) && Derives(g, [x], z);
    }
    DerivesConcat(g, w, [], [x], z);
    assert [] + z == z;
    f := TreesOf(g, w + [x], z);
  }

  lemma TreesOf(g: Grammar, w: seq<int>, z: seq<int>) returns (f: Forest)
    requires Valid(g) && Derives(g, w, z) && NoStart(g, w) && AllTokens(g, z)
    ensures IsForest(g, f) && Roots(g, f) == w && Yield(f) == z
  {
    hide Valid, Step;
    var d :| DerivesBy(g, d, w, z);
    f := ForestOfDerivation(g, d);
  }

  /** The walk goes on from the top of the stack. */
  lemma WalkFromTop(s: Setup, stack: seq<nat>, r: nat, d: nat, walk: seq<nat>, i: nat)
    requires RuleOnTop(s, stack, r, d, walk) && d <= i < |Rhs(s.g, r)|
    ensures |walk| > i + 1 && IsWalk(s.a, stack[|stack| - 1], Rhs(s.g, r)[d..i + 1], walk[d..i + 2])
  {
    hide Valid, IsStack, Edge;
    var from, rhs := stack[|stack| - 1 - d], Rhs(s.g, r);
    PlaceOnWalk(stack, stack[..|stack| - d], walk, d, d - 1);
    WalkEdge(s.a, from, rhs, walk, d - 1);
    assert rhs[d - 1 + 1..] == rhs[d..] && walk[d - 1 + 1..] == walk[d..];
    WalkPrefix(s.a, walk[d], rhs[d..], walk[d..], i + 1 - d);
    assert rhs[d..][..i + 1 - d] == rhs[d..i + 1] && walk[d..][..i + 1 - d + 1] == walk[d..i + 2];
  }

  /** Place i of the rule holds the first symbol from place d on that is not nullable: some token can
      be read from the goto before. */
  lemma SomeRead(s: Setup, stack: seq<nat>, r: nat, d: nat, walk: seq<nat>, top: nat, i: nat) returns (t: int)
    requires Generated(s) && RuleOnTop(s, stack, r, d, walk) && AllProductive(s.g) && GotoAt(s, stack, |stack| - 1, top)
    requires d <= i < |Rhs(s.g, r)| && AllNullable(s.g, Rhs(s.g, r)[d..i]) && !IsNullable(s.g, Rhs(s.g, r)[i])
    ensures CanRead(s.g, s.a, s.m, top, t)
  {
    hide Generated, Valid, IsAutomaton, IsGotoTable, IsStack, Edge, CanRead, AllNullable, IsNullable, AllProductive,
      NoStart, IsWalk, IsForest, Roots, Yield;
    Basics(s);
    var rhs := Rhs(s.g, r);
    var w := rhs[d..i];
    NoStartBehind(s.g, r, d);
    RhsSymbol(s.g, r, i);
    assert rhs[d..i + 1] == w + [rhs[i]] && rhs[d..i + 1] <= rhs[d..];
    NoStartWithin(s.g, rhs[d..], w + [rhs[i]]);
    var f := FirstTrees(s.g, w, rhs[i]);
    WalkFromTop(s, stack, r, d, walk, i);
    FirstIsRead(s.g, s.a, s.m, top, f, walk[d..i + 2]);
    t := Yield(f)[0];
  }

  lemma NoStartWithin(g: Grammar, w: seq<int>, v: seq<int>)
    requires NoStart(g, w) && v <= w
    ensures NoStart(g, v)
  {
    forall j | 0 <= j < |v| ensures v[j] != StartSymbol(g) {
      assert v[j] == w[j];
    }
  }

  /** The token read from the goto on top is shifted after some reductions. */
  lemma ReadEnds(s: Setup, stack: seq<nat>, top: nat, t: int) returns (after: seq<nat>, n: nat)
    requires Generated(s) && NoConflicts(s) && Valid(s.g) && IsStack(s.a, stack) && GotoAt(s, stack, |stack| - 1, top)
    requires CanRead(s.g, s.a, s.m, top, t)
    ensures Leads(s, t, stack, after, n) && Stops(s, t, after)
  {
    hide Generated, NoConflicts, Valid, IsAutomaton, IsGotoTable, IsStack, Edge, ReadsGraph, DirectlyReads, Leads,
      Stops;
    Basics(s);
    var j: nat :| Reach(ReadsGraph(s.g, s.a, s.m), top, j) && j < |s.m.toState| && DirectlyReads(s.g, s.a, s.m, j, t);
    var path :| PathFromTo(ReadsGraph(s.g, s.a, s.m), path, top, j);
    after, n := ReadStops(s, t, top, path, j, stack);
  }

  /** How the nonterminal x comes to stand behind a dot in state q: kernel item j stands before a
      nonterminal from which `path` leads to x, each the first symbol of a rule of the one before. */
  ghost predicate ComesFrom(s: Setup, q: nat, x: int, j: nat, path: seq<nat>) {
    && Valid(s.g) && q < |s.a.states| && j in SetOf(s.a.states[q].items) && |path| > 0
    && IsPath(LeftGraph(s.g), path) && Before(s.g, j, s.g.ntokens + path[0]) && x == s.g.ntokens + path[|path| - 1]
  }

  lemma ItemComesFrom(s: Setup, q: nat, i: nat, x: int) returns (j: nat, path: seq<nat>)
    requires Generated(s) && Valid(s.g) && q < |s.a.states| && i in ItemsOf(s.g, s.a.states[q]) && Before(s.g, i, x)
    ensures ComesFrom(s, q, x, j, path)
  {
    hide Generated, Valid, IsAutomaton, Pulled;
    Basics(s);
    var k := SetOf(s.a.states[q].items);
    if i in k {
      j, path := i, [x - s.g.ntokens];
    } else {
      var r: nat :| r < |s.g.rlhs| && Pulled(s.g, k, r) && s.g.rrhs[r] == i;
      var front;
      j, front := PathOfPulled(s.g, k, r);
      path := front + [x - s.g.ntokens];
      PathGoesOn(s.g, front, r, x);
    }
  }

  lemma PathOfPulled(g: Grammar, k: set<nat>, r: nat) returns (j: nat, path: seq<nat>)
    requires Valid(g) && Pulled(g, k, r)
    ensures IsRule(g, r) && |path| > 0 && IsPath(LeftGraph(g), path) && j in k && Before(g, j, g.ntokens + path[0])
    ensures g.rlhs[r] == g.ntokens + path[|path| - 1]
  {
    hide Valid, LeftGraph;
    var y;
    j, y :| j in k && Before(g, j, y) && IsFirstRule(g, y, r);
    path :| PathFromTo(LeftGraph(g), path, y - g.ntokens, g.rlhs[r] - g.ntokens);
  }

  lemma PathGoesOn(g: Grammar, path: seq<nat>, r: nat, x: int)
    requires Valid(g) && IsRule(g, r) && |path| > 0 && IsPath(LeftGraph(g), path)
    requires g.rlhs[r] == g.ntokens + path[|path| - 1] && Before(g, g.rrhs[r], x)
    ensures IsPath(LeftGraph(g), path + [x - g.ntokens])
  {
    hide Valid;
    var h, v, u := LeftGraph(g), x - g.ntokens, path[|path| - 1];
    assert Leftmost(g, r) == x;
    assert LeftNodes(g, u, v);
    LhsIsVar(g, r);
    assert v in h[u];
  }

  /** The item before x: of a rule whose left-hand side comes before x on the path, or else of the kernel. */
  lemma ItemOnPath(s: Setup, q: nat, x: int, j: nat, path: seq<nat>) returns (r: nat, d: nat)
    requires Generated(s) && ComesFrom(s, q, x, j, path) && (q > 0 || |path| > 1)
    ensures IsRule(s.g, r) && r > FIRST_RULE && d < |Rhs(s.g, r)| && Rhs(s.g, r)[d] == x
    ensures s.g.rrhs[r] + d in ItemsOf(s.g, s.a.states[q])
    ensures |path| > 1 ==> d == 0 && ComesFrom(s, q, s.g.rlhs[r], j, path[..|path| - 1])
    ensures |path| == 1 ==> d > 0
  {
    hide Generated, Valid, IsAutomaton, IsGotoTable;
    Basics(s);
    var h := LeftGraph(s.g);
    if |path| == 1 {
      NotBeforeEnd(s.g, j, x);
      r, d := KernelRule(s.g, s.a, q, j);
      KernelIsHeld(s.g, s.a, q, j);
    } else {
      var n := |path| - 2;
      assert path[n + 1] in h[path[n]];
      assert LeftNodes(s.g, path[n], path[n + 1]);
      r :| IsRule(s.g, r) && s.g.rlhs[r] == s.g.ntokens + path[n] && Leftmost(s.g, r) == x;
      d := 0;
      RuleBegins(s.g, r);
      SubPath(h, path, 0, n);
      assert path[0..n + 1] == path[..n + 1];
      NoStartOnPath(s, q, j, path, r);
      PulledByPath(s, q, j, path[..n + 1], r);
    }
  }

  lemma NotBeforeEnd(g: Grammar, j: nat, x: int)
    requires Valid(g) && Before(g, j, x)
    ensures j != 2
  {
  }

  lemma PulledByPath(s: Setup, q: nat, j: nat, path: seq<nat>, r: nat)
    requires Valid(s.g) && q < |s.a.states| && j in SetOf(s.a.states[q].items) && IsRule(s.g, r)
    requires |path| > 0 && IsPath(LeftGraph(s.g), path) && Before(s.g, j, s.g.ntokens + path[0])
    requires s.g.rlhs[r] == s.g.ntokens + path[|path| - 1]
    ensures s.g.rrhs[r] in ItemsOf(s.g, s.a.states[q])
  {
    LhsIsVar(s.g, r);
    assert PathFromTo(LeftGraph(s.g), path, path[0], s.g.rlhs[r] - s.g.ntokens);
    assert IsFirstRule(s.g, s.g.ntokens + path[0], r);
    assert Pulled(s.g, SetOf(s.a.states[q].items), r);
  }

  lemma LeftmostItem(g: Grammar, r: nat)
    requires Valid(g) && IsRule(g, r)
    ensures g.rrhs[r] < |g.ritem| && g.ritem[g.rrhs[r]] == Leftmost(g, r)
  {
    assert ValidRule(g, r);
  }

  /** The start symbol is on no such path. */
  lemma NoStartOnPath(s: Setup, q: nat, j: nat, path: seq<nat>, r: nat)
    requires Generated(s) && Valid(s.g) && q < |s.a.states| && j in SetOf(s.a.states[q].items) && IsRule(s.g, r)
    requires |path| > 1 && IsPath(LeftGraph(s.g), path) && Before(s.g, j, s.g.ntokens + path[0])
    requires s.g.rlhs[r] == s.g.ntokens + path[|path| - 2]
    ensures r > FIRST_RULE
  {
    hide Generated, Valid, IsAutomaton;
    Basics(s);
    var h, n := LeftGraph(s.g), |path| - 2;
    if n == 0 {
      KernelIsHeld(s.g, s.a, q, j);
      NoStartInRules(s.g, s.a, q, j, r);
    } else {
      assert path[n - 1 + 1] in h[path[n - 1]];
      assert LeftNodes(s.g, path[n - 1], path[n]);
      var r' :| IsRule(s.g, r') && s.g.rlhs[r'] == s.g.ntokens + path[n - 1] && Leftmost(s.g, r') == s.g.rlhs[r];
      SubPath(h, path, 0, n - 1);
      assert path[0..n] == path[..n];
      PulledByPath(s, q, j, path[..n], r');
      LeftmostItem(s.g, r');
      NoStartInRules(s.g, s.a, q, s.g.rrhs[r'], r);
    }
  }

  /** On top of a stack that ends in a goto over x there is a token that can follow what is there, and before
      which the reductions come to an end. */
  ghost predicate ComesToEnd(s: Setup, stack: seq<nat>, t: int, after: seq<nat>, n: nat) {
    Behind(s, stack, t) && Leads(s, t, stack, after, n) && Stops(s, t, after) && 0 <= t < s.g.ntokens
  }

  /** Where a token can be read, that is one. */
  lemma EndsReading(s: Setup, stack: seq<nat>, top: nat, t: int) returns (after: seq<nat>, n: nat)
    requires Generated(s) && NoConflicts(s) && Valid(s.g) && IsStack(s.a, stack) && GotoAt(s, stack, |stack| - 1, top)
    requires CanRead(s.g, s.a, s.m, top, t)
    ensures ComesToEnd(s, stack, t, after, n)
  {
    hide Generated, NoConflicts, Valid, IsStack, GotoAt, CanRead, Leads, Stops, Behind;
    ReadBehind(s, stack, top, t);
    TokenRead(s.g, s.a, s.m, top, t);
    after, n := ReadEnds(s, stack, top, t);
  }

  /** Where the rest of the rule on top is nullable, what ends the reductions after it is one. */
  lemma EndsReducing(s: Setup, stack: seq<nat>, r: nat, d: nat, walk: seq<nat>, p: nat, t: int, after: seq<nat>,
                     n: nat)
    returns (m: nat)
    requires Generated(s) && RuleOnTop(s, stack, r, d, walk) && AllNullable(s.g, Rhs(s.g, r)[d..])
    requires Edge(s.a, stack[|stack| - 1 - d], s.g.rlhs[r], p) && ComesToEnd(s, stack[..|stack| - d] + [p], t, after, n)
    ensures ComesToEnd(s, stack, t, after, m)
  {
    hide Generated, Valid, IsAutomaton, IsGotoTable, IsStack, Edge, CanFollow, Leads, Stops, IsNullable, IsWalk;
    Basics(s);
    IncludeBehind(s, stack, r, d, walk, p, t);
    var below := stack[..|stack| - d];
    var k := ReducedGoto(s, stack, r, d, walk, p, t);
    RestNullable(s.g, r, d);
    StackPrefix(s.a, stack, |below|);
    var more := FinishRule(s, t, k, below[|below| - 1], p, r, d - 1, below, walk);
    LeadsTrans(s, t, stack, below + [p], after, more, n);
    m := more + n;
  }

  lemma RestNullable(g: Grammar, r: nat, d: nat)
    requires Valid(g) && IsRule(g, r) && 0 < d <= |Rhs(g, r)| && AllNullable(g, Rhs(g, r)[d..])
    ensures AllNullable(g, Rhs(g, r)[d - 1 + 1..])
  {
  }

  lemma ReducedGoto(s: Setup, stack: seq<nat>, r: nat, d: nat, walk: seq<nat>, p: nat, t: int) returns (k: nat)
    requires Generated(s) && RuleOnTop(s, stack, r, d, walk) && Behind(s, stack[..|stack| - d] + [p], t)
    requires Edge(s.a, stack[|stack| - 1 - d], s.g.rlhs[r], p)
    ensures GotoIs(s.a, s.m, k, stack[|stack| - 1 - d], s.g.rlhs[r], p) && CanFollow(s.g, s.a, s.m, k, t)
  {
    hide Generated, Valid, IsAutomaton, IsGotoTable, IsStack, IsWalk, Edge, CanFollow, IsNullable;
    Basics(s);
    var from, n := stack[|stack| - 1 - d], |stack| - d;
    LhsIsVar(s.g, r);
    k := GotoExists(s.g, s.a, s.m, from, s.g.rlhs[r], p);
    EdgeSymbol(s.a, from, s.g.rlhs[r], p);
    assert GotoAt(s, stack[..n] + [p], n, k) && EmptyAbove(s, stack[..n] + [p], n);
  }

  /** The goal behind the bottom of the stack: $end. */
  lemma EndsAtGoal(s: Setup, stack: seq<nat>, x: int, p: nat, j: nat, path: seq<nat>)
    returns (t: int, after: seq<nat>, n: nat)
    requires Generated(s) && NoConflicts(s) && Valid(s.g) && IsStack(s.a, stack) && stack[|stack| - 1] == 0
    requires Edge(s.a, 0, x, p) && ComesFrom(s, 0, x, j, path) && |path| == 1
    ensures ComesToEnd(s, stack + [p], t, after, n)
  {
    hide Generated, NoConflicts, Valid, IsAutomaton, IsGotoTable, IsStack, Edge, DirectlyReads, ComesToEnd;
    Basics(s);
    StartItems(s.g, s.a);
    var k := GotoExists(s.g, s.a, s.m, 0, x, p);
    var q := Lookaheads.FirstGoto(s.g, s.a, s.m);
    EdgeUnique(s.g, s.a, 0, x, p, q);
    GotoUnique(s.g, s.a, s.m, 0, k, 0, x, p, q);
    t := END;
    assert DirectlyReads(s.g, s.a, s.m, 0, END) by { EndIsRead(s.g, s.a, s.m); }
    ReachRefl(ReadsGraph(s.g, s.a, s.m), 0);
    assert CanRead(s.g, s.a, s.m, 0, END);
    StackPush(s.a, stack, x, p);
    EdgeSymbol(s.a, 0, x, p);
    assert GotoAt(s, stack + [p], |stack|, 0);
    after, n := EndsReading(s, stack + [p], 0, END);
  }

  lemma EndIsRead(g: Grammar, a: Automaton, m: GotoTable)
    requires |m.toState| > 0
    ensures DirectlyReads(g, a, m, 0, END)
  {
  }

  /** Without conflicts every stack that ends in a goto can be followed by some token before which
      the reductions come to an end. */
  lemma {:induction false} SomeEnd(s: Setup, stack: seq<nat>, x: int, p: nat, j: nat, path: seq<nat>)
    returns (t: int, after: seq<nat>, n: nat)
    requires Generated(s) && NoConflicts(s) && Valid(s.g) && AllProductive(s.g) && IsStack(s.a, stack)
    requires Edge(s.a, stack[|stack| - 1], x, p) && ComesFrom(s, stack[|stack| - 1], x, j, path)
    ensures ComesToEnd(s, stack + [p], t, after, n)
    decreases |stack|, |path|
  {
    hide Generated, NoConflicts, Valid, IsAutomaton, IsGotoTable, IsStack, Edge, ComesToEnd, ComesFrom, AllProductive,
      RuleOnTop, AllNullable, IsNullable, GotoAt, CanRead, ItemsOf;
    Basics(s);
    TopInRange(s.a, stack);
    var q := stack[|stack| - 1];
    PathNonempty(s, q, x, j, path);
    if q == 0 && |path| == 1 {
      t, after, n := EndsAtGoal(s, stack, x, p, j, path);
    } else {
      var r, d := ItemOnPath(s, q, x, j, path);
      var longer := stack + [p];
      var walk := PushedRule(s, stack, x, p, r, d);
      var i := FirstSolid(s.g, Rhs(s.g, r), d + 1);
      if i < |Rhs(s.g, r)| {
        var top := PushedGoto(s, stack, x, p, j, path);
        t := SomeRead(s, longer, r, d + 1, walk, top, i);
        after, n := EndsReading(s, longer, top, t);
      } else {
        var below := longer[..|longer| - (d + 1)];
        assert below == stack[..|stack| - d];
        StackPrefix(s.a, stack, |stack| - d);
        TopInRange(s.a, below);
        var from := below[|below| - 1];
        var p' := LhsGoto(s.g, s.a, from, r);
        var j', path' := j, path[..|path| - 1];
        if d > 0 {
          j', path' := PulledFrom(s, from, r);
        }
        assert Rhs(s.g, r)[d + 1..i] == Rhs(s.g, r)[d + 1..];
        var m;
        t, after, m := SomeEnd(s, below, s.g.rlhs[r], p', j', path');
        n := EndsReducing(s, longer, r, d + 1, walk, p', t, after, m);
      }
    }
  }

  lemma PathNonempty(s: Setup, q: nat, x: int, j: nat, path: seq<nat>)
    requires ComesFrom(s, q, x, j, path)
    ensures |path| > 0 && Before(s.g, j, s.g.ntokens + path[0])
  {
  }

  lemma PulledFrom(s: Setup, q: nat, r: nat) returns (j: nat, path: seq<nat>)
    requires Generated(s) && Valid(s.g) && q < |s.a.states| && IsRule(s.g, r) && r > FIRST_RULE
    requires s.g.rrhs[r] in ItemsOf(s.g, s.a.states[q])
    ensures ComesFrom(s, q, s.g.rlhs[r], j, path)
  {
    hide Generated, Valid, IsAutomaton, Pulled;
    Basics(s);
    FirstIsPulled(s.g, s.a, q, r);
    j, path := PathOfPulled(s.g, SetOf(s.a.states[q].items), r);
  }

  /** The dot moves over x. */
  lemma PushedRule(s: Setup, stack: seq<nat>, x: int, p: nat, r: nat, d: nat) returns (walk: seq<nat>)
    requires Generated(s) && Valid(s.g) && IsStack(s.a, stack) && Edge(s.a, stack[|stack| - 1], x, p)
    requires IsRule(s.g, r) && r > FIRST_RULE && d < |Rhs(s.g, r)| && Rhs(s.g, r)[d] == x
    requires stack[|stack| - 1] < |s.a.states| && s.g.rrhs[r] + d in ItemsOf(s.g, s.a.states[stack[|stack| - 1]])
    ensures RuleOnTop(s, stack + [p], r, d + 1, walk) && d < |stack|
    ensures s.g.rrhs[r] in ItemsOf(s.g, s.a.states[(stack + [p])[|stack| - 1 - d]])
  {
    hide Generated, Valid, IsAutomaton, IsStack, Edge, ItemsOf;
    Basics(s);
    StackNonempty(s.a, stack);
    RhsSymbol(s.g, r, d);
    var p' := EdgeExists(s.g, s.a, stack[|stack| - 1], s.g.rrhs[r] + d);
    EdgeUnique(s.g, s.a, stack[|stack| - 1], x, p, p');
    StackPush(s.a, stack, x, p);
    ItemOnStack(s.g, s.a, stack, r, d);
    walk := TopRule(s, stack + [p], r, d + 1);
  }

  lemma PushedGoto(s: Setup, stack: seq<nat>, x: int, p: nat, j: nat, path: seq<nat>) returns (k: nat)
    requires Generated(s) && Valid(s.g) && IsStack(s.a, stack) && Edge(s.a, stack[|stack| - 1], x, p)
    requires ComesFrom(s, stack[|stack| - 1], x, j, path)
    ensures IsStack(s.a, stack + [p]) && GotoAt(s, stack + [p], |stack|, k)
  {
    hide Generated, Valid, IsAutomaton, IsGotoTable, IsStack, Edge;
    Basics(s);
    StackPush(s.a, stack, x, p);
    EdgeSymbol(s.a, stack[|stack| - 1], x, p);
    k := GotoExists(s.g, s.a, s.m, stack[|stack| - 1], x, p);
  }

  /** The first place from d on whose symbol is not nullable, or the end. */
  lemma {:induction false} FirstSolid(g: Grammar, w: seq<int>, d: nat) returns (i: nat)
    requires Valid(g) && d <= |w|
    ensures d <= i <= |w| && AllNullable(g, w[d..i]) && (i < |w| ==> !IsNullable(g, w[i]))
    decreases |w| - d
  {
    hide Valid, IsNullable;
    if d == |w| || !IsNullable(g, w[d]) {
      i := d;
    } else {
      i := FirstSolid(g, w, d + 1);
      forall m | 0 <= m < |w[d..i]| ensures IsNullable(g, w[d..i][m]) {
        assert m > 0 ==> w[d..i][m] == w[d + 1..i][m - 1];
      }
    }
  }

  // ---------- No state comes back over nullable symbols ----------

  /** k is the goto over symbol i of w, on the way over these states. */
  ghost predicate IsGotoOf(s: Setup, states: seq<nat>, w: seq<int>, i: nat, k: nat) {
    i < |w| && i + 1 < |states| && GotoIs(s.a, s.m, k, states[i], w[i], states[i + 1])
  }

  /** Trees without tokens over gotos that t can follow. */
  lemma {:induction false} EmptyFollowed(s: Setup, f: Forest, states: seq<nat>, t: int)
    requires Generated(s) && Valid(s.g) && IsForest(s.g, f) && Yield(f) == [] && |states| > 0
    requires IsWalk(s.a, states[0], Roots(s.g, f), states)
    requires forall i: nat, k: nat :: IsGotoOf(s, states, Roots(s.g, f), i, k) ==> CanFollow(s.g, s.a, s.m, k, t)
    ensures AllFollow(s.g, s.a, s.m, f, states, [t], 0)
    decreases f
  {
    hide Generated, Valid, IsAutomaton, IsGotoTable, Edge, CanFollow, GotoIs, TokenAt;
    Basics(s);
    if f != Nil {
      EmptyFirst(f);
      var w := Roots(s.g, f);
      WalkOn(s.g, s.a, f, states);
      assert w == [w[0]] + Roots(s.g, f.rest);
      forall i: nat, k: nat | IsGotoOf(s, states[1..], Roots(s.g, f.rest), i, k)
        ensures CanFollow(s.g, s.a, s.m, k, t)
      {
        assert IsGotoOf(s, states, w, i + 1, k);
      }
      EmptyFollowed(s, f.rest, states[1..], t);
      LhsIsVar(s.g, f.rule);
      var k := GotoExists(s.g, s.a, s.m, states[0], w[0], states[0 + 1]);
      assert IsGotoOf(s, states, w, 0, k);
      assert TokenAt([t], 0 + |FirstYield(f)|) == t by { TokenFirst(t); }
      RestFollows(s.g, s.a, s.m, f, states, [t], 0);
    }
  }

  lemma TokenFirst(t: int)
    ensures TokenAt([t], 0) == t
  {
  }

  /** The stack from place i on, as often as one likes: before t the same symbols are pushed again. */
  lemma Repeats(s: Setup, stack: seq<nat>, i: nat, t: int) returns (f: Forest)
    requires Generated(s) && Behind(s, stack, t) && 0 <= t < s.g.ntokens
    requires IsStack(s.a, stack) && i < |stack| - 1 && EmptyAbove(s, stack, i)
    ensures Size(f) > 0 && forall other ::
      IsStack(s.a, other) && other[|other| - 1] == stack[i] ==> Leads(s, t, other, other + stack[i + 1..], Size(f))
  {
    hide Generated, Valid, IsAutomaton, IsGotoTable, Edge, CanFollow, IsNullable, GotoIs, Leads;
    Basics(s);
    var w, states := Symbols(s.a, stack)[i..], stack[i..];
    forall m | 0 <= m < |w| ensures w[m] == s.a.states[stack[i + m + 1]].symbol && IsNullable(s.g, w[m]) &&
      Edge(s.a, states[m], w[m], states[m + 1])
    {
    }
    NoStartOnStack(s, stack, i);
    f := EmptyTrees(s.g, w);
    forall m: nat, k: nat | IsGotoOf(s, states, w, m, k)
      ensures CanFollow(s.g, s.a, s.m, k, t)
    {
      NullableIsVar(s.g, w[m]);
      assert GotoAt(s, stack, i + m + 1, k);
    }
    EmptyFollowed(s, f, states, t);
    forall other | IsStack(s.a, other) && other[|other| - 1] == stack[i]
      ensures Leads(s, t, other, other + stack[i + 1..], Size(f))
    {
      assert Stands(s, f, other, states, [t], 0);
      EmptyRun(s, t, f, other, states);
      assert states[1..] == stack[i + 1..];
    }
  }

  lemma NoStartOnStack(s: Setup, stack: seq<nat>, i: nat)
    requires Generated(s) && Valid(s.g) && IsStack(s.a, stack) && i < |stack| - 1
    ensures NoStart(s.g, Symbols(s.a, stack)[i..])
  {
    hide Generated, Valid, IsAutomaton, Edge;
    Basics(s);
    var w := Symbols(s.a, stack)[i..];
    forall m | 0 <= m < |w| ensures w[m] != StartSymbol(s.g) {
      var j := i + m + 1;
      assert Edge(s.a, stack[j - 1], s.a.states[stack[j]].symbol, stack[j]);
      if w[m] == StartSymbol(s.g) {
        Lookaheads.NoStartEdge(s.g, s.a, stack[j - 1], stack[j]);
      }
    }
  }

  /** Reductions that come to an end go through whatever the same stack leads to. */
  lemma {:induction false} GoesThrough(s: Setup, t: int, stack: seq<nat>, mid: seq<nat>, after: seq<nat>, m: nat,
                                       n: nat)
    requires Generated(s) && NoConflicts(s) && Leads(s, t, stack, after, n) && Stops(s, t, after)
    requires Leads(s, t, stack, mid, m)
    ensures m <= n && Leads(s, t, mid, after, n - m)
    decreases m
  {
    hide Generated, NoConflicts, IsReduction, Stops;
    if m > 0 {
      var y :| IsReduction(s, t, stack, y) && Leads(s, t, y, mid, m - 1);
      if n == 0 {
        StopsMeans(s, t, stack, y);
      } else {
        var x :| IsReduction(s, t, stack, x) && Leads(s, t, x, after, n - 1);
        OneWay(s, t, stack, x, y);
        GoesThrough(s, t, x, mid, after, m - 1, n - 1);
      }
    }
  }

  /** Where pushing the same states again leads to the same state on top, reductions do not end. */
  lemma {:induction false} NeverEnds(s: Setup, t: int, stack: seq<nat>, loop: seq<nat>, m: nat, after: seq<nat>, n: nat)
    requires Generated(s) && NoConflicts(s) && IsStack(s.a, stack) && |loop| > 0 && m > 0
    requires loop[|loop| - 1] == stack[|stack| - 1] && PathOn(s, stack[|stack| - 1], loop)
    requires forall other :: IsStack(s.a, other) && other[|other| - 1] == loop[|loop| - 1] ==>
      Leads(s, t, other, other + loop, m)
    requires Leads(s, t, stack, after, n) && Stops(s, t, after)
    ensures false
    decreases n
  {
    hide Generated, NoConflicts, Leads, Stops, IsStack, PathOn;
    GoesThrough(s, t, stack, stack + loop, after, m, n);
    LoopOnStack(s, stack, loop);
    NeverEnds(s, t, stack + loop, loop, m, after, n - m);
  }

  /** From state q the automaton has a path over these states. */
  ghost predicate PathOn(s: Setup, q: nat, loop: seq<nat>) {
    && (forall m :: 0 <= m < |loop| ==> loop[m] < |s.a.states|)
    && (loop != [] ==> Edge(s.a, q, s.a.states[loop[0]].symbol, loop[0]))
    && forall m :: 0 < m < |loop| ==> Edge(s.a, loop[m - 1], s.a.states[loop[m]].symbol, loop[m])
  }

  lemma LoopOnStack(s: Setup, stack: seq<nat>, loop: seq<nat>)
    requires IsStack(s.a, stack) && PathOn(s, stack[|stack| - 1], loop)
    ensures IsStack(s.a, stack + loop)
  {
    hide Edge;
    var longer := stack + loop;
    forall i | 0 < i < |longer|
      ensures longer[i] < |s.a.states| && Edge(s.a, longer[i - 1], s.a.states[longer[i]].symbol, longer[i])
    {
      if i < |stack| {
        assert Edge(s.a, stack[i - 1], s.a.states[stack[i]].symbol, stack[i]);
      } else {
        var m := i - |stack|;
        assert longer[i] == loop[m] && (m > 0 ==> longer[i - 1] == loop[m - 1]);
      }
    }
  }

  /** Without conflicts, and if every nonterminal derives a string of tokens, no stack holds a state twice
      with nothing but nullable symbols in between. */
  lemma NoStateTwice(s: Setup, stack: seq<nat>, i: nat)
    requires Generated(s) && NoConflicts(s) && Valid(s.g) && AllProductive(s.g)
    requires IsStack(s.a, stack) && i < |stack| - 1 && EmptyAbove(s, stack, i)
    ensures stack[i] != stack[|stack| - 1]
  {
    hide Generated, NoConflicts, Valid, IsStack, Edge, IsNullable, AllProductive;
    var n, top := |stack| - 1, stack[|stack| - 1];
    StackAt(s, stack, n);
    StackPrefix(s.a, stack, n);
    assert stack[..n] + [top] == stack;
    NullableIsVar(s.g, s.a.states[top].symbol);
    var t, after, m := SomeEndAbove(s, stack[..n], s.a.states[top].symbol, top);
    if stack[i] == top {
      LoopNeverEnds(s, stack, i, t, after, m);
    }
  }

  lemma SomeEndAbove(s: Setup, stack: seq<nat>, x: int, p: nat) returns (t: int, after: seq<nat>, n: nat)
    requires Generated(s) && NoConflicts(s) && Valid(s.g) && AllProductive(s.g) && IsStack(s.a, stack)
    requires Edge(s.a, stack[|stack| - 1], x, p) && IsVar(s.g, x)
    ensures ComesToEnd(s, stack + [p], t, after, n)
  {
    hide Generated, NoConflicts, Valid, IsStack, Edge, AllProductive, ComesFrom, ItemsOf, ComesToEnd;
    StackNonempty(s.a, stack);
    var q := stack[|stack| - 1];
    var i := ItemBeforeEdge(s, q, x, p);
    var j, path := ItemComesFrom(s, q, i, x);
    t, after, n := SomeEnd(s, stack, x, p, j, path);
  }

  lemma LoopNeverEnds(s: Setup, stack: seq<nat>, i: nat, t: int, after: seq<nat>, n: nat)
    requires Generated(s) && NoConflicts(s) && ComesToEnd(s, stack, t, after, n)
    requires IsStack(s.a, stack) && i < |stack| - 1 && EmptyAbove(s, stack, i)
    ensures stack[i] != stack[|stack| - 1]
  {
    hide Generated, NoConflicts, Valid, Edge, IsNullable, Leads, Stops, Behind, EmptyAbove;
    if stack[i] == stack[|stack| - 1] {
      var f := Repeats(s, stack, i, t);
      var loop := stack[i + 1..];
      assert PathOn(s, stack[i], loop);
      NeverEnds(s, t, stack, loop, Size(f), after, n);
    }
  }

  lemma ItemBeforeEdge(s: Setup, q: nat, x: int, p: nat) returns (i: nat)
    requires Generated(s) && Valid(s.g) && Edge(s.a, q, x, p) && IsVar(s.g, x)
    ensures q < |s.a.states| && i in ItemsOf(s.g, s.a.states[q]) && Before(s.g, i, x)
  {
    hide Generated, IsAutomaton, Edge;
    Basics(s);
    EdgeGivesKernel(s.g, s.a, q, x, p);
    i :| i in ItemsOf(s.g, s.a.states[q]) && i < |s.g.ritem| && s.g.ritem[i] == x;
    ItemIsSymbol(s.g, i);
  }

  lemma ItemIsSymbol(g: Grammar, i: nat)
    requires Valid(g) && i < |g.ritem| && g.ritem[i] >= 0
    ensures IsSymbol(g, g.ritem[i])
  {
    if i > 0 {
      var r := RuleOfItem(g, i, |g.rlhs|);
      AtItem(g, r, i);
    }
  }

  // ---------- The depth of the stack ----------

  /** marks[i] tells how many tokens had been consumed when place i of the stack was filled: symbols for
      which none were consumed are nullable. */
  ghost predicate Marked(s: Setup, stack: seq<nat>, marks: seq<nat>, n: nat) {
    && Valid(s.g) && IsStack(s.a, stack) && |marks| == |stack| && marks[|marks| - 1] <= n
    && (forall i, j :: 0 <= i <= j < |marks| ==> marks[i] <= marks[j])
    && forall i :: 0 < i < |marks| && marks[i - 1] == marks[i] ==> IsNullable(s.g, s.a.states[stack[i]].symbol)
  }

  lemma MarkShift(s: Setup, stack: seq<nat>, marks: seq<nat>, n: nat, x: int, p: nat)
    requires Marked(s, stack, marks, n) && Edge(s.a, stack[|stack| - 1], x, p)
    ensures Marked(s, stack + [p], marks + [n + 1], n + 1)
  {
    hide Valid, IsNullable, Edge;
    StackPush(s.a, stack, x, p);
  }

  lemma MarkReduction(s: Setup, stack: seq<nat>, marks: seq<nat>, n: nat, after: seq<nat>, r: nat)
    returns (marks': seq<nat>)
    requires Generated(s) && Marked(s, stack, marks, n) && IsReduced(s, stack, after, r) && IsStack(s.a, after)
    ensures Marked(s, after, marks', n)
  {
    hide Generated, Valid, IsNullable, HasReduction;
    SymbolsReduced(s, stack, after, r);
    var rhs := Rhs(s.g, r);
    var m := |stack| - |rhs|;
    marks' := marks[..m] + [n];
    assert after[m] == after[|after| - 1] && s.a.states[after[m]].symbol == s.g.rlhs[r];
    if marks[m - 1] == n {
      forall i | 0 <= i < |rhs| ensures IsNullable(s.g, rhs[i]) {
        assert rhs[i] == Symbols(s.a, stack)[m - 1..][i] == Symbols(s.a, stack)[m - 1 + i];
        assert marks[m + i - 1] == marks[m + i];
      }
      LhsNullable(s.g, r);
    }
  }

  lemma {:induction false} RunMarks(s: Setup, input: seq<int>, size: nat, trace: seq<Config>, n: nat)
    returns (w: seq<int>, marks: seq<nat>)
    requires Generated(s) && |trace| > n && Chained(s, input, size, trace) && trace[0] == Config([0], -1, 0)
    ensures Consistent(s, input, trace[n], w) && Marked(s, trace[n].stack, marks, |w|)
    decreases n
  {
    hide Generated, Consistent, Follows, Marked, IsReduced, Edge;
    if n == 0 {
      EmptyStack(s, input);
      w, marks := [], [0];
      FirstMark(s, input, trace[0]);
    } else {
      var v, before := RunMarks(s, input, size, trace, n - 1);
      ChainedAt(s, input, size, trace, n);
      w := StepSound(s, input, size, trace[n - 1], trace[n], Running, v);
      var stack, after := trace[n - 1].stack, trace[n].stack;
      ConsistentStack(s, input, trace[n], w);
      if w == v {
        var r: nat :| IsReduced(s, stack, after, r);
        marks := MarkReduction(s, stack, before, |v|, after, r);
      } else {
        var x, p :| w == v + [x] && after == stack + [p] && Edge(s.a, Top(trace[n - 1]), x, p);
        MarkShift(s, stack, before, |v|, x, p);
        marks := before + [|v| + 1];
      }
    }
  }

  lemma ConsistentStack(s: Setup, input: seq<int>, c: Config, w: seq<int>)
    requires Consistent(s, input, c, w)
    ensures IsStack(s.a, c.stack) && Spells(s, input, w)
  {
  }

  lemma FirstMark(s: Setup, input: seq<int>, c: Config)
    requires Consistent(s, input, c, []) && c.stack == [0]
    ensures Marked(s, [0], [0], 0)
  {
  }

  /** The number of a state and a mark together. */
  function Code(mark: nat, q: nat, n: nat): nat {
    mark * n + q
  }

  lemma CodeBound(i: nat, q: nat, n: nat, m: nat)
    requires q < n && i <= m
    ensures Code(i, q, n) < (m + 1) * n
  {
    assert (i + 1) * n <= (m + 1) * n;
  }

  lemma CodesDiffer(i: nat, q: nat, j: nat, p: nat, n: nat)
    requires q < n && p < n && Code(i, q, n) == Code(j, p, n)
    ensures i == j && q == p
  {
    if i < j {
      CodeBound(i, q, n, j - 1);
    } else if j < i {
      CodeBound(j, p, n, i - 1);
    }
  }

  /** With n tokens consumed, the stack holds each state at most n + 1 times. */
  lemma StackFits(s: Setup, stack: seq<nat>, marks: seq<nat>, n: nat)
    requires Generated(s) && NoConflicts(s) && Valid(s.g) && AllProductive(s.g) && Marked(s, stack, marks, n)
    ensures |stack| <= (n + 1) * |s.a.states|
  {
    hide Generated, NoConflicts, Valid, AllProductive, IsNullable, Edge, Code;
    var k := |s.a.states|;
    var codes := seq(|stack|, i requires 0 <= i < |stack| => Code(marks[i], stack[i], k));
    forall i | 0 <= i < |stack| ensures codes[i] < (n + 1) * k {
      CodeBound(marks[i], stack[i], k, n);
    }
    forall i, j | 0 <= i < j < |stack| ensures codes[i] != codes[j] {
      if codes[i] == codes[j] {
        CodesDiffer(marks[i], stack[i], marks[j], stack[j], k);
        SameMark(s, stack, marks, n, i, j);
      }
    }
    DistinctBound(codes, (n + 1) * k);
  }

  lemma SameMark(s: Setup, stack: seq<nat>, marks: seq<nat>, n: nat, i: nat, j: nat)
    requires Generated(s) && NoConflicts(s) && Valid(s.g) && AllProductive(s.g) && Marked(s, stack, marks, n)
    requires i < j < |stack| && marks[i] == marks[j]
    ensures stack[i] != stack[j]
  {
    hide Generated, NoConflicts, Valid, AllProductive, IsNullable, Edge;
    var part := stack[..j + 1];
    StackPrefix(s.a, stack, j + 1);
    forall m | i < m < |part| ensures IsNullable(s.g, s.a.states[part[m]].symbol) {
      assert marks[m - 1] == marks[m];
    }
    NoStateTwice(s, part, i);
  }

  /** How deep the stack gets on this input. */
  ghost function Depth(s: Setup, input: seq<int>): nat {
    (|input| + 1) * |s.a.states|
  }

  lemma RunStackFits(s: Setup, input: seq<int>, size: nat, trace: seq<Config>, n: nat)
    requires Generated(s) && NoConflicts(s) && Valid(s.g) && AllProductive(s.g)
    requires |trace| > n && Chained(s, input, size, trace) && trace[0] == Config([0], -1, 0)
    ensures |trace[n].stack| <= Depth(s, input)
  {
    hide Generated, NoConflicts, Valid, AllProductive, Consistent, Follows, Marked;
    var w, marks := RunMarks(s, input, size, trace, n);
    ConsistentStack(s, input, trace[n], w);
    ConsumedIsInput(s, input, w);
    StackFits(s, trace[n].stack, marks, |w|);
    assert (|w| + 1) * |s.a.states| <= (|input| + 1) * |s.a.states|;
  }

  /** A stack of this size never overflows. */
  lemma NoOverflow(s: Setup, input: seq<int>, size: nat, trace: seq<Config>, outcome: Outcome, budget: nat)
    requires Generated(s) && NoConflicts(s) && Valid(s.g) && AllProductive(s.g) && size > Depth(s, input)
    requires IsRun(s, input, size, trace, outcome, budget) && trace[0] == Config([0], -1, 0)
    ensures outcome != StackOverflow
  {
    hide Generated, NoConflicts, Valid, AllProductive, Chained, Decide, GotoOf, Depth;
    if outcome == StackOverflow {
      var c := trace[|trace| - 1];
      RunStackFits(s, input, size, trace, |trace| - 1);
      var c' :| Follows(s, input, size, c, c', StackOverflow);
    }
  }

  /** The parser of a grammar without conflicts, in which every nonterminal derives a string of tokens, decides
      the language of the grammar: with a stack and a number of rounds fixed by the parser and the input, it
      accepts the sentences and reports an error for everything else. */
  lemma ParserDecides(s: Setup, input: seq<int>, size: nat, trace: seq<Config>, outcome: Outcome, budget: nat)
    requires Generated(s) && NoConflicts(s) && Valid(s.g) && AllProductive(s.g)
    requires size > Depth(s, input) && budget >= Rounds(s.g, input, size)
    requires IsRun(s, input, size, trace, outcome, budget) && trace[0] == Config([0], -1, 0)
    ensures outcome == Accepted || outcome == SyntaxError
    ensures outcome == Accepted <==> exists w :: IsSentence(s, input, w)
  {
    hide Generated, NoConflicts, Valid, AllProductive, IsRun, Depth, Rounds, IsSentence;
    DepthPositive(s, input);
    NoOverflow(s, input, size, trace, outcome, budget);
    RunDecides(s, input, size, trace, outcome, budget);
  }

  lemma DepthPositive(s: Setup, input: seq<int>)
    requires Generated(s)
    ensures Depth(s, input) > 0
  {
    hide Generated;
    StartStack(s);
    assert (|input| + 1) * |s.a.states| >= |s.a.states|;
  }
}
