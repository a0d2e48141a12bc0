/** Why the parser of a grammar without conflicts does not reduce for ever: no symbol is reduced to
    itself while the stack below it stays. */
module Loops {
  import opened Graphs
  import opened Grammars
  import opened Automata
  import opened Gotos
  import opened Relations
  import opened Actions
  import opened MakeParser
  import opened Stacks
  import opened Trees
  import opened FollowSets
  import opened Driver
  import opened Acceptance
  import Items
  import Lookaheads

  // ---------- Reductions before one token ----------

  /** Reducing by rule r before token t leaves `after`, with the goto p on top. */
  ghost predicate ReducesTo(s: Setup, t: int, stack: seq<nat>, after: seq<nat>, r: nat, p: nat) {
    && Valid(s.g) && IsRule(s.g, r) && |Rhs(s.g, r)| < |stack|
    && 0 <= t && MayReduce(s.g, s.a, s.m, stack[|stack| - 1], r, t)
    && var rest := stack[..|stack| - |Rhs(s.g, r)|];
    Edge(s.a, rest[|rest| - 1], s.g.rlhs[r], p) && after == rest + [p]
  }

  ghost predicate IsReduction(s: Setup, t: int, stack: seq<nat>, after: seq<nat>) {
    exists r, p :: ReducesTo(s, t, stack, after, r, p)
  }

  /** n reductions lead from one stack to the other. */
  ghost predicate Leads(s: Setup, t: int, stack: seq<nat>, after: seq<nat>, n: nat)
    decreases n
  {
    if n == 0 then stack == after else exists mid :: IsReduction(s, t, stack, mid) && Leads(s, t, mid, after, n - 1)
  }

  ghost predicate NoneReduces(s: Setup, q: nat, t: int) {
    Valid(s.g) && (0 <= t ==> forall r :: !MayReduce(s.g, s.a, s.m, q, r, t))
  }

  /** No rule can be reduced before t. */
  ghost predicate Stops(s: Setup, t: int, stack: seq<nat>) {
    stack != [] && NoneReduces(s, stack[|stack| - 1], t)
  }

  lemma {:induction false} LeadsTrans(s: Setup, t: int, x: seq<nat>, y: seq<nat>, z: seq<nat>, n: nat, m: nat)
    requires Leads(s, t, x, y, n) && Leads(s, t, y, z, m)
    ensures Leads(s, t, x, z, n + m)
    decreases n
  {
    hide IsReduction;
    if n > 0 {
      var mid :| IsReduction(s, t, x, mid) && Leads(s, t, mid, y, n - 1);
      LeadsTrans(s, t, mid, y, z, n - 1, m);
    }
  }

  lemma LeadsOne(s: Setup, t: int, x: seq<nat>, y: seq<nat>)
    requires IsReduction(s, t, x, y)
    ensures Leads(s, t, x, y, 1)
  {
    hide IsReduction;
    assert Leads(s, t, y, y, 0);
  }

  // ---------- Without conflicts ----------

  lemma TwoActions(s: Setup, q: nat, x: Action, y: Action)
    requires Generated(s) && NoConflicts(s) && q < |s.a.states| && Allowed(s.g, s.a, s.m, s.pr, q, x)
    ensures Allowed(s.g, s.a, s.m, s.pr, q, y) && x.symbol == y.symbol ==> x == y
    ensures q == s.p.finalState ==> x.symbol != END
  {
    hide Valid, IsAutomaton, IsGotoTable, Vectors.ValuesOk, Output.IsTables, Allowed, Sorted, Plain;
    assert RowMade(s.g, s.a, s.m, s.pr, s.raw[q], s.p.rows[q], q, s.p.finalState);
    assert x in s.raw[q];
  }

  lemma OneReduction(s: Setup, q: nat, r: nat, r': nat, t: nat)
    requires Generated(s) && NoConflicts(s) && Valid(s.g) && MayReduce(s.g, s.a, s.m, q, r, t)
    ensures MayReduce(s.g, s.a, s.m, q, r', t) ==> r == r'
    ensures !(q == s.p.finalState && t == END)
  {
    hide Generated, NoConflicts, Valid, Complete, IsLookahead;
    Basics(s);
    IsARule(s, q, r, t);
    TwoActions(s, q, ReduceAction(s.pr, r, t), ReduceAction(s.pr, r, t));
    if MayReduce(s.g, s.a, s.m, q, r', t) {
      IsARule(s, q, r', t);
      TwoActions(s, q, ReduceAction(s.pr, r, t), ReduceAction(s.pr, r', t));
    }
  }

  lemma IsARule(s: Setup, q: nat, r: nat, t: nat)
    requires Valid(s.g) && MayReduce(s.g, s.a, s.m, q, r, t)
    ensures IsRule(s.g, r)
  {
    hide Valid, IsLookahead;
  }

  lemma ShiftStops(s: Setup, stack: seq<nat>, t: nat, p: nat)
    requires Generated(s) && NoConflicts(s) && Valid(s.g) && stack != [] && 0 < t < s.g.ntokens
    requires Edge(s.a, stack[|stack| - 1], t, p)
    ensures Stops(s, t, stack)
  {
    hide Generated, NoConflicts, Valid, Complete, IsLookahead, Edge;
    var q := stack[|stack| - 1];
    Basics(s);
    EdgeGivesKernel(s.g, s.a, q, t, p);
    forall r ensures !MayReduce(s.g, s.a, s.m, q, r, t) {
      if MayReduce(s.g, s.a, s.m, q, r, t) {
        IsARule(s, q, r, t);
        TwoActions(s, q, ShiftAction(s.pr, t, p), ReduceAction(s.pr, r, t));
      }
    }
  }

  lemma EndStops(s: Setup, stack: seq<nat>)
    requires Generated(s) && NoConflicts(s) && Valid(s.g) && stack != [] && stack[|stack| - 1] == s.p.finalState
    ensures Stops(s, END, stack)
  {
    hide Generated, NoConflicts, Valid, Complete, IsLookahead, MayReduce;
    var q := stack[|stack| - 1];
    forall r ensures !MayReduce(s.g, s.a, s.m, q, r, END) {
      if MayReduce(s.g, s.a, s.m, q, r, END) {
        OneReduction(s, q, r, r, END);
      }
    }
  }

  lemma OneWay(s: Setup, t: int, stack: seq<nat>, x: seq<nat>, y: seq<nat>)
    requires Generated(s) && NoConflicts(s) && IsReduction(s, t, stack, x) && IsReduction(s, t, stack, y)
    ensures x == y
  {
    hide Generated, NoConflicts, ReducesTo;
    var r: nat, p: nat :| ReducesTo(s, t, stack, x, r, p);
    var r': nat, p': nat :| ReducesTo(s, t, stack, y, r', p');
    OneRule(s, t, stack, x, y, r, p, r', p');
    OneGoto(s, t, stack, x, y, r, p, p');
  }

  lemma OneRule(s: Setup, t: int, stack: seq<nat>, x: seq<nat>, y: seq<nat>, r: nat, p: nat, r': nat, p': nat)
    requires ReducesTo(s, t, stack, x, r, p) && ReducesTo(s, t, stack, y, r', p') && Generated(s) && NoConflicts(s)
    ensures r == r'
  {
    hide Generated, NoConflicts, Valid, MayReduce, Edge;
    OneReduction(s, stack[|stack| - 1], r, r', t);
  }

  lemma OneGoto(s: Setup, t: int, stack: seq<nat>, x: seq<nat>, y: seq<nat>, r: nat, p: nat, p': nat)
    requires ReducesTo(s, t, stack, x, r, p) && ReducesTo(s, t, stack, y, r, p') && Generated(s)
    ensures x == y
  {
    hide Generated, Valid, IsAutomaton, MayReduce, Edge;
    Basics(s);
    var rest := stack[..|stack| - |Rhs(s.g, r)|];
    EdgeUnique(s.g, s.a, rest[|rest| - 1], s.g.rlhs[r], p, p');
  }

  /** A stack from which the reductions come to an end does not come back. */
  lemma {:induction false} NoReturn(s: Setup, t: int, stack: seq<nat>, after: seq<nat>, n: nat, m: nat)
    requires Generated(s) && NoConflicts(s) && Leads(s, t, stack, after, n) && Stops(s, t, after) && m > 0
    ensures !Leads(s, t, stack, stack, m)
    decreases n
  {
    hide Generated, NoConflicts, IsReduction, Stops;
    if Leads(s, t, stack, stack, m) {
      var y :| IsReduction(s, t, stack, y) && Leads(s, t, y, stack, m - 1);
      if n == 0 {
        StopsMeans(s, t, stack, y);
      } else {
        var x :| IsReduction(s, t, stack, x) && Leads(s, t, x, after, n - 1);
        OneWay(s, t, stack, x, y);
        LeadsOne(s, t, stack, x);
        LeadsTrans(s, t, y, stack, x, m - 1, 1);
        NoReturn(s, t, x, after, n - 1, m);
      }
    }
  }

  lemma StopsMeans(s: Setup, t: int, stack: seq<nat>, after: seq<nat>)
    requires Stops(s, t, stack)
    ensures !IsReduction(s, t, stack, after)
  {
    hide Valid, MayReduce, Edge;
  }

  // ---------- Empty trees ----------

  lemma {:induction false} NullableDerives(g: Grammar, w: seq<int>)
    requires Valid(g) && AllNullable(g, w)
    ensures Derives(g, w, [])
    decreases |w|
  {
    hide Valid, Derives;
    if w == [] {
      DerivesRefl(g, []);
    } else {
      assert IsNullable(g, w[0]);
      forall i | 0 <= i < |w[1..]| ensures IsNullable(g, w[1..][i]) {
        assert w[1..][i] == w[i + 1];
      }
      NullableDerives(g, w[1..]);
      DerivesConcat(g, [w[0]], [], w[1..], []);
      var none: seq<int> := [];
      assert [w[0]] + w[1..] == w && none + none == none;
    }
  }

  /** Nullable symbols have trees without tokens. */
  lemma EmptyTrees(g: Grammar, w: seq<int>) returns (f: Forest)
    requires Valid(g) && AllNullable(g, w) && NoStart(g, w)
    ensures IsForest(g, f) && Roots(g, f) == w && Yield(f) == []
  {
    hide Valid, IsNullable;
    NullableDerives(g, w);
    var d :| DerivesBy(g, d, w, []);
    f := ForestOfDerivation(g, d);
  }

  lemma {:induction false} PushWalk(a: Automaton, stack: seq<nat>, w: seq<int>, states: seq<nat>)
    requires IsStack(a, stack) && IsWalk(a, stack[|stack| - 1], w, states)
    ensures IsStack(a, stack + states[1..])
    decreases |w|
  {
    hide Edge, IsStack;
    StackNonempty(a, stack);
    if w == [] {
      assert stack + states[1..] == stack;
    } else {
      WalkEdge(a, stack[|stack| - 1], w, states, 0);
      StackPush(a, stack, w[0], states[1]);
      var longer := stack + [states[1]];
      PushWalk(a, longer, w[1..], states[1..]);
      assert longer + states[1..][1..] == stack + states[1..];
    }
  }

  /** Empty trees are built before the token that follows them. */
  lemma {:induction false} EmptyRun(s: Setup, t: int, f: Forest, stack: seq<nat>, states: seq<nat>)
    requires Stands(s, f, stack, states, [t], 0) && Yield(f) == [] && |states| > 0 && 0 <= t < s.g.ntokens
    requires Generated(s)
    ensures Leads(s, t, stack, stack + states[1..], Size(f))
    decreases f
  {
    hide Generated, Stands, IsReduction, CanReduce, Leads;
    StandsOn(s, f, stack, states, [t], 0);
    if f == Nil {
      assert stack + states[1..] == stack;
      assert Leads(s, t, stack, stack, 0) by { LeadsNone(s, t, stack); }
    } else {
      assert f.Node? && FirstSize(f) == 0 && Yield(f.children) == [] && Yield(f.rest) == [] by { EmptyFirst(f); }
      RestStands(s, f, stack, states, [t], 0);
      var longer := stack + [states[1]];
      StandsOn(s, f.rest, longer, states[1..], [t], 0);
      EmptyRun(s, t, f.rest, longer, states[1..]);
      assert longer + states[1..][1..] == stack + states[1..];
      var walk := ChildrenStand(s, f, stack, states, [t], 0);
      StandsOn(s, f.children, stack, walk, [t], 0);
      EmptyRun(s, t, f.children, stack, walk);
      CanReduceMeans(s, stack, walk, f.rule, t, states[1]);
      LeadsOne(s, t, stack + walk[1..], longer);
      LeadsTrans(s, t, stack, stack + walk[1..], longer, Size(f.children), 1);
      LeadsTrans(s, t, stack, longer, stack + states[1..], Size(f.children) + 1, Size(f.rest));
    }
  }

  lemma LeadsNone(s: Setup, t: int, stack: seq<nat>)
    ensures Leads(s, t, stack, stack, 0)
  {
  }

  lemma EmptyFirst(f: Forest)
    requires f != Nil && Yield(f) == []
    ensures f.Node? && FirstSize(f) == 0 && Yield(f.children) == [] && Yield(f.rest) == []
  {
  }

  lemma CanReduceMeans(s: Setup, stack: seq<nat>, walk: seq<nat>, r: nat, t: int, p: nat)
    requires CanReduce(s, stack, walk, r, t, p)
    ensures walk != [] && IsReduction(s, t, stack + walk[1..], stack + [p])
  {
    hide Valid, Edge, IsLookahead, Complete;
    StackNonempty(s.a, stack);
    var full := stack + walk[1..];
    assert full[..|full| - |Rhs(s.g, r)|] == stack;
    assert full[|full| - 1] == walk[|walk| - 1];
    assert ReducesTo(s, t, full, stack + [p], r, p);
  }

  /** The nullable symbols behind place j of a rule stand, as empty trees, on what is before them. */
  lemma RestOfRule(s: Setup, t: int, k: nat, p: nat, p': nat, r: nat, j: nat, stack: seq<nat>, walk: seq<nat>)
    returns (f: Forest)
    requires Valid(s.g) && IsRule(s.g, r) && r > FIRST_RULE && GotoIs(s.a, s.m, k, p, s.g.rlhs[r], p')
    requires IsStack(s.a, stack) && stack[|stack| - 1] == p && IsWalk(s.a, p, Rhs(s.g, r), walk)
    requires j < |Rhs(s.g, r)| && AllNullable(s.g, Rhs(s.g, r)[j + 1..]) && CanFollow(s.g, s.a, s.m, k, t)
    requires Generated(s)
    ensures |walk| == |Rhs(s.g, r)| + 1 && Stands(s, f, stack + walk[1..j + 2], walk[j + 1..], [t], 0) && Yield(f) == []
    ensures stack + walk[1..j + 2] + walk[j + 1..][1..] == stack + walk[1..]
  {
    hide Generated, Valid, IsAutomaton, IsGotoTable, IsStack, IsWalk, Edge, CanFollow, IsNullable, AllFollow;
    Basics(s);
    var rhs := Rhs(s.g, r);
    WalkStarts(s.a, p, rhs, walk);
    NoStartBehind(s.g, r, j + 1);
    f := EmptyTrees(s.g, rhs[j + 1..]);
    ChildrenFollow(s.g, s.a, s.m, k, p, p', r, walk, f, j + 1, [t], 0);
    var middle := stack + walk[1..j + 2];
    WalkPrefix(s.a, p, rhs, walk, j + 1);
    assert walk[..j + 2][1..] == walk[1..j + 2];
    PushWalk(s.a, stack, rhs[..j + 1], walk[..j + 2]);
    WalkEdge(s.a, p, rhs, walk, j);
    assert middle[|middle| - 1] == walk[j + 1];
  }

  /** So the rule can be finished there. */
  lemma FinishRule(s: Setup, t: int, k: nat, p: nat, p': nat, r: nat, j: nat, stack: seq<nat>, walk: seq<nat>)
    returns (n: nat)
    requires Valid(s.g) && IsRule(s.g, r) && r > FIRST_RULE && GotoIs(s.a, s.m, k, p, s.g.rlhs[r], p')
    requires IsStack(s.a, stack) && stack[|stack| - 1] == p && IsWalk(s.a, p, Rhs(s.g, r), walk)
    requires j < |Rhs(s.g, r)| && AllNullable(s.g, Rhs(s.g, r)[j + 1..]) && CanFollow(s.g, s.a, s.m, k, t)
    requires 0 <= t < s.g.ntokens && Generated(s)
    ensures |walk| >= j + 2 && Leads(s, t, stack + walk[1..j + 2], stack + [p'], n) && n > 0
  {
    hide Generated, Valid, IsStack, IsWalk, Edge, CanFollow, AllNullable, IsReduction, Leads, Stands, CanReduce;
    var f := RestOfRule(s, t, k, p, p', r, j, stack, walk);
    var middle := stack + walk[1..j + 2];
    EmptyRun(s, t, f, middle, walk[j + 1..]);
    RuleEnds(s, t, k, p, p', r, stack, walk);
    CanReduceMeans(s, stack, walk, r, t, p');
    LeadsOne(s, t, stack + walk[1..], stack + [p']);
    LeadsTrans(s, t, middle, stack + walk[1..], stack + [p'], Size(f), 1);
    n := Size(f) + 1;
  }

  lemma NoStartBehind(g: Grammar, r: nat, j: nat)
    requires Valid(g) && IsRule(g, r) && r > FIRST_RULE && j <= |Rhs(g, r)|
    ensures NoStart(g, Rhs(g, r)[j..])
  {
    forall i | 0 <= i < |Rhs(g, r)[j..]| ensures Rhs(g, r)[j..][i] != StartSymbol(g) {
      RhsSymbol(g, r, j + i);
    }
  }

  /** At the end of its right-hand side a rule can be reduced before what follows its goto. */
  lemma RuleEnds(s: Setup, t: int, k: nat, p: nat, p': nat, r: nat, stack: seq<nat>, walk: seq<nat>)
    requires Valid(s.g) && IsRule(s.g, r) && r > FIRST_RULE && GotoIs(s.a, s.m, k, p, s.g.rlhs[r], p')
    requires CanFollow(s.g, s.a, s.m, k, t)
    requires IsStack(s.a, stack) && stack[|stack| - 1] == p && IsWalk(s.a, p, Rhs(s.g, r), walk) && 0 <= t < s.g.ntokens
    requires Generated(s)
    ensures CanReduce(s, stack, walk, r, t, p')
  {
    hide Generated, Valid, IsAutomaton, IsStack, IsWalk, Edge, CanFollow, Complete, LooksBack, IsLookahead, ItemsOf;
    Basics(s);
    WalkStarts(s.a, p, Rhs(s.g, r), walk);
    var other := ChildWalk(s.g, s.a, p, r, p');
    WalkUnique(s.g, s.a, p, Rhs(s.g, r), other, walk, |Rhs(s.g, r)|);
    LookBack(s.g, s.a, s.m, k, p, p', r, walk);
    FollowIsLookahead(s.g, s.a, s.m, walk[|walk| - 1], r, k, t);
  }

  // ---------- Reductions come to an end ----------

  /** A stack on which t can be read, over nullable nonterminals, comes to where t is shifted. */
  lemma {:induction false} ReadStops(s: Setup, t: int, k: nat, path: seq<nat>, l: nat, stack: seq<nat>)
    returns (after: seq<nat>, n: nat)
    requires Valid(s.g) && IsAutomaton(s.g, s.a) && k < |s.m.toState|
    requires PathFromTo(ReadsGraph(s.g, s.a, s.m), path, k, l)
    requires l < |s.m.toState| && DirectlyReads(s.g, s.a, s.m, l, t) && IsStack(s.a, stack)
    requires stack[|stack| - 1] == s.m.toState[k]
    requires Generated(s) && NoConflicts(s)
    ensures Leads(s, t, stack, after, n) && Stops(s, t, after)
    decreases |path|
  {
    hide Generated, NoConflicts, Valid, IsAutomaton, IsGotoTable, IsStack, Edge, ReadsGraph, Leads, Stops;
    Basics(s);
    StackNonempty(s.a, stack);
    if |path| == 1 {
      after, n := stack, 0;
      LeadsNone(s, t, stack);
      DirectStops(s, t, k, stack);
    } else {
      var k' := path[1];
      assert k' in ReadsGraph(s.g, s.a, s.m)[k] &&
        k' < |s.m.toState| by { FirstEdge(ReadsGraph(s.g, s.a, s.m), path, k, l); }
      SubPath(ReadsGraph(s.g, s.a, s.m), path, 1, |path| - 1);
      assert path[1..|path| - 1 + 1] == path[1..];
      var x, p := ReadsMeans(s.g, s.a, s.m, k, k');
      assert CanRead(s.g, s.a, s.m, k', t);
      var size := NullableRun(s, t, k', x, p, stack);
      StackPush(s.a, stack, x, p);
      var m;
      after, m := ReadStops(s, t, k', path[1..], l, stack + [p]);
      LeadsTrans(s, t, stack, stack + [p], after, size, m);
      n := size + m;
    }
  }

  lemma FirstEdge(h: Graph, path: seq<nat>, x: nat, y: nat)
    requires Closed(h) && PathFromTo(h, path, x, y) && |path| > 1
    ensures x < |h| && path[1] in h[x] && path[1] < |h|
  {
    assert path[0 + 1] in h[path[0]];
  }

  lemma ReadsMeans(g: Grammar, a: Automaton, m: GotoTable, k: nat, l: nat) returns (x: int, p: nat)
    requires Valid(g) && k < |m.toState| && l in ReadsGraph(g, a, m)[k]
    ensures IsVar(g, x) && IsNullable(g, x) && GotoIs(a, m, l, m.toState[k], x, p)
  {
    hide Valid, IsNullable, GotoIs;
    x, p :| IsVar(g, x) && IsNullable(g, x) && GotoIs(a, m, l, m.toState[k], x, p);
  }

  lemma DirectStops(s: Setup, t: int, k: nat, stack: seq<nat>)
    requires Valid(s.g) && k < |s.m.toState| && DirectlyReads(s.g, s.a, s.m, k, t) && stack != []
    requires stack[|stack| - 1] == s.m.toState[k]
    requires Generated(s) && NoConflicts(s)
    ensures Stops(s, t, stack)
  {
    hide Generated, NoConflicts, Valid, IsAutomaton, IsGotoTable, Edge, Stops;
    Basics(s);
    if 0 < t < s.g.ntokens && exists p :: Edge(s.a, s.m.toState[k], t, p) {
      var p :| Edge(s.a, s.m.toState[k], t, p);
      ShiftStops(s, stack, t, p);
    } else {
      var p := Lookaheads.FirstGoto(s.g, s.a, s.m);
      ParserFinal(s);
      EdgeUnique(s.g, s.a, 0, Goal(s.g), p, s.p.finalState);
      EndStops(s, stack);
    }
  }

  /** A nullable nonterminal is pushed before a token that can be read behind it. */
  lemma NullableRun(s: Setup, t: int, k: nat, x: int, p: nat, stack: seq<nat>) returns (n: nat)
    requires Valid(s.g) && IsVar(s.g, x) && IsNullable(s.g, x) && IsStack(s.a, stack)
    requires GotoIs(s.a, s.m, k, stack[|stack| - 1], x, p) && CanRead(s.g, s.a, s.m, k, t) && Generated(s)
    ensures Leads(s, t, stack, stack + [p], n)
  {
    hide Generated, Valid, IsAutomaton, IsGotoTable, IsStack, Edge, IsNullable, CanRead, CanFollow, Leads;
    Basics(s);
    StackNonempty(s.a, stack);
    NotStart(s.g, s.a, stack[|stack| - 1], x, p);
    var f := EmptyTrees(s.g, [x]);
    ReadFollows(s.g, s.a, s.m, k, t);
    var states := [stack[|stack| - 1], p];
    OneRoot(s.g, f, x);
    assert AllFollow(s.g, s.a, s.m, f, states, [t], 0) by { RootFollowed(s.g, s.a, s.m, k, f, states, t); }
    assert IsWalk(s.a, stack[|stack| - 1], [x], states) by { EdgeStarts(s.g, s.a, stack[|stack| - 1], x, p); }
    assert Stands(s, f, stack, states, [t], 0);
    TokenRead(s.g, s.a, s.m, k, t);
    EmptyRun(s, t, f, stack, states);
    assert states[1..] == [p];
    n := Size(f);
  }

  lemma NotStart(g: Grammar, a: Automaton, q: nat, x: int, p: nat)
    requires Valid(g) && IsAutomaton(g, a) && Edge(a, q, x, p)
    ensures NoStart(g, [x])
  {
    hide Valid, IsAutomaton, Edge;
    if x == StartSymbol(g) {
      Lookaheads.NoStartEdge(g, a, q, p);
    }
  }

  lemma EdgeStarts(g: Grammar, a: Automaton, q: nat, x: int, p: nat)
    requires Valid(g) && IsAutomaton(g, a) && Edge(a, q, x, p)
    ensures q < |a.states|
  {
    hide Valid, IsAutomaton, Edge;
    EdgeGivesKernel(g, a, q, x, p);
  }

  lemma OneRoot(g: Grammar, f: Forest, x: int)
    requires Valid(g) && IsForest(g, f) && Roots(g, f) == [x] && Yield(f) == []
    ensures f.Node? && f.rest == Nil && g.rlhs[f.rule] == x
  {
    hide Valid;
    assert f != Nil;
    EmptyFirst(f);
    assert Roots(g, f) == [Roots(g, f)[0]] + Roots(g, f.rest) && Roots(g, f)[0] == x;
    assert |Roots(g, f.rest)| == 0;
  }

  lemma RootFollowed(g: Grammar, a: Automaton, m: GotoTable, k: nat, f: Forest, states: seq<nat>, t: int)
    requires Valid(g) && IsForest(g, f) && f.Node? && f.rest == Nil && Yield(f) == [] && |states| == 2
    requires GotoIs(a, m, k, states[0], g.rlhs[f.rule], states[1]) && CanFollow(g, a, m, k, t)
    ensures AllFollow(g, a, m, f, states, [t], 0)
  {
    hide Valid, GotoIs, CanFollow;
    EmptyFirst(f);
    assert TokenAt([t], 0 + |FirstYield(f)|) == t;
    assert AllFollow(g, a, m, f.rest, states[1..], [t], 0);
  }

  lemma TokenRead(g: Grammar, a: Automaton, m: GotoTable, k: nat, t: int)
    requires Valid(g) && CanRead(g, a, m, k, t)
    ensures 0 <= t < g.ntokens
  {
    var j: nat :| Reach(ReadsGraph(g, a, m), k, j) && j < |m.toState| && DirectlyReads(g, a, m, j, t);
  }

  /** Every state is the top of some stack. */
  lemma {:induction false} StackOf(g: Grammar, a: Automaton, q: nat) returns (stack: seq<nat>)
    requires Valid(g) && IsAutomaton(g, a) && q < |a.states|
    ensures IsStack(a, stack) && stack[|stack| - 1] == q
    decreases q
  {
    hide Valid, StatesOk, RowOk, Edge;
    if q == 0 {
      stack := [0];
    } else {
      var p := FoundBefore(g, a, q);
      var front := StackOf(g, a, p);
      StackPush(a, front, a.states[q].symbol, q);
      stack := front + [q];
    }
  }

  /** A token that can follow a goto is shifted, or accepts, some time after the goto is made: with
      a suitable stack below. */
  lemma {:induction false} FollowStops(s: Setup, t: int, k: nat, path: seq<nat>, l: nat)
    returns (stack: seq<nat>, after: seq<nat>, n: nat)
    requires Valid(s.g) && k < |s.m.toState| == |s.m.fromState| && PathFromTo(IncludesGraph(s.g, s.a, s.m), path, k, l)
    requires l < |s.m.toState| && CanRead(s.g, s.a, s.m, l, t) && Generated(s) && NoConflicts(s)
    ensures IsStack(s.a, stack) && stack[|stack| - 1] == s.m.fromState[k]
    ensures Leads(s, t, stack + [s.m.toState[k]], after, n) && Stops(s, t, after)
    decreases |path|
  {
    hide Generated, NoConflicts, Valid, IsAutomaton, IsGotoTable, IsStack, Edge, IncludesGraph, ReadsGraph,
      DirectlyReads, Leads, Stops, CanFollow;
    Basics(s);
    var v := GotoEntry(s.g, s.a, s.m, k);
    if |path| == 1 {
      stack := StackOf(s.g, s.a, s.m.fromState[k]);
      StackPush(s.a, stack, s.g.ntokens + v, s.m.toState[k]);
      var j: nat :| Reach(ReadsGraph(s.g, s.a, s.m), l, j) && j < |s.m.toState| && DirectlyReads(s.g, s.a, s.m, j, t);
      var readPath :| PathFromTo(ReadsGraph(s.g, s.a, s.m), readPath, k, j);
      after, n := ReadStops(s, t, k, readPath, j, stack + [s.m.toState[k]]);
    } else {
      var h := IncludesGraph(s.g, s.a, s.m);
      FirstEdge(h, path, k, l);
      var k' := path[1];
      SubPath(h, path, 1, |path| - 1);
      assert path[1..|path| - 1 + 1] == path[1..];
      var below, m;
      below, after, m := FollowStops(s, t, k', path[1..], l);
      IncludedFollows(s.g, s.a, s.m, k', path[1..], l, t);
      var more;
      stack, more := IncludedRun(s, t, k, k', below);
      LeadsTrans(s, t, stack + [s.m.toState[k]], below + [s.m.toState[k']], after, more, m);
      n := more + m;
    }
  }

  lemma IncludedFollows(g: Grammar, a: Automaton, m: GotoTable, k: nat, path: seq<nat>, l: nat, t: int)
    requires Valid(g) && PathFromTo(IncludesGraph(g, a, m), path, k, l) && CanRead(g, a, m, l, t)
    ensures CanFollow(g, a, m, k, t)
  {
    hide Valid, IncludesGraph, ReadsGraph, DirectlyReads;
    var j: nat :| Reach(ReadsGraph(g, a, m), l, j) && j < |m.toState| && DirectlyReads(g, a, m, j, t);
    assert Reach(IncludesGraph(g, a, m), k, l);
    assert FollowsBy(g, a, m, k, t, l, j);
  }

  /** From a goto to the one it includes: the rest of the rule is nullable, and the rule is reduced. */
  lemma IncludedRun(s: Setup, t: int, k: nat, k': nat, below: seq<nat>) returns (stack: seq<nat>, n: nat)
    requires Valid(s.g) && k < |s.m.toState| == |s.m.fromState| && k' < |s.m.toState|
    requires k' in IncludesGraph(s.g, s.a, s.m)[k]
    requires IsStack(s.a, below) && below[|below| - 1] == s.m.fromState[k'] && CanFollow(s.g, s.a, s.m, k', t)
    requires Generated(s)
    ensures IsStack(s.a, stack) && stack[|stack| - 1] == s.m.fromState[k]
    ensures Leads(s, t, stack + [s.m.toState[k]], below + [s.m.toState[k']], n)
  {
    hide Generated, Valid, IsAutomaton, IsGotoTable, IsStack, IsWalk, Edge, CanFollow, Leads, AllNullable, Walks;
    Basics(s);
    var r, j, p, p', q, q' := IncludesMeans(s.g, s.a, s.m, k, k');
    var rhs := Rhs(s.g, r);
    RuleItemPresent(s.g, s.a, p', s.g.rlhs[r], q', r);
    var walk := ChildWalk(s.g, s.a, p', r, q');
    WalkStarts(s.a, p', rhs, walk);
    WalkMeets(s.g, s.a, p', rhs, walk, j, p, q);
    FollowIsToken(s.g, s.a, s.m, k', t);
    n := FinishRule(s, t, k', p', q', r, j, below, walk);
    stack := below + walk[1..j + 1];
    WalkPrefix(s.a, p', rhs, walk, j);
    assert walk[..j + 1][1..] == walk[1..j + 1];
    PushWalk(s.a, below, rhs[..j], walk[..j + 1]);
    StackNonempty(s.a, below);
    assert walk[0] == p';
    assert stack[|stack| - 1] == walk[j];
    assert stack + [q] == below + walk[1..j + 2];
  }

  lemma IncludesMeans(g: Grammar, a: Automaton, m: GotoTable, l: nat, k: nat)
    returns (r: nat, j: nat, p: nat, p': nat, q: nat, q': nat)
    requires Valid(g) && l < |m.toState| && k in IncludesGraph(g, a, m)[l]
    ensures IncludesBy(g, a, m, l, k, r, j, p, p', q, q')
  {
    hide Valid, IncludesBy;
    r, j, p, p', q, q' :| IncludesBy(g, a, m, l, k, r, j, p, p', q, q');
  }

  lemma WalkMeets(g: Grammar, a: Automaton, p': nat, rhs: seq<int>, walk: seq<nat>, j: nat, p: nat, q: nat)
    requires Valid(g) && IsAutomaton(g, a) && IsWalk(a, p', rhs, walk) && j < |rhs| && Walks(a, p', rhs[..j], p)
    requires Edge(a, p, rhs[j], q)
    ensures walk[j] == p && walk[j + 1] == q
  {
    hide Valid, IsAutomaton, Edge;
    var other :| IsWalk(a, p', rhs[..j], other) && other[|rhs[..j]|] == p;
    WalkPrefix(a, p', rhs, walk, j);
    WalkUnique(g, a, p', rhs[..j], other, walk[..j + 1], j);
    WalkEdge(a, p', rhs, walk, j);
    EdgeUnique(g, a, p, rhs[j], q, walk[j + 1]);
  }

  lemma FollowIsToken(g: Grammar, a: Automaton, m: GotoTable, k: nat, t: int)
    requires Valid(g) && CanFollow(g, a, m, k, t)
    ensures 0 <= t < g.ntokens
  {
    hide Reach;
  }

  // ---------- No symbol becomes itself ----------

  /** Some state can reduce by r. */
  ghost predicate IsUseful(s: Setup, r: nat) {
    exists q :: HasReduction(s, q, r)
  }

  /** Rule r turns x into y, with nothing but nullable symbols behind x. */
  ghost predicate IsUnit(s: Setup, r: nat, x: int, y: int) {
    && Valid(s.g) && IsRule(s.g, r) && r > FIRST_RULE && |Rhs(s.g, r)| > 0 && Rhs(s.g, r)[0] == x
    && AllNullable(s.g, Rhs(s.g, r)[1..]) && s.g.rlhs[r] == y && IsUseful(s, r)
  }

  ghost predicate BecomesAlone(s: Setup, x: nat, y: nat) {
    exists r :: IsUnit(s, r, x, y)
  }

  ghost function UnitGraph(s: Setup): (h: Graph)
    ensures |h| == s.g.nsyms && Closed(h)
  {
    seq(s.g.nsyms, (x: nat) => set y: nat | y < s.g.nsyms && BecomesAlone(s, x, y))
  }

  ghost predicate IsAcyclic(s: Setup) {
    forall x: nat :: !ReachPlus(UnitGraph(s), x, x)
  }

  lemma UnitMeans(s: Setup, x: nat, y: nat) returns (r: nat)
    requires x < s.g.nsyms && y in UnitGraph(s)[x]
    ensures IsUnit(s, r, x, y)
  {
    hide IsUnit;
    r :| IsUnit(s, r, x, y);
  }

  /** Along unit rules the stack stays below its top. */
  lemma {:induction false} UnitRun(s: Setup, t: int, path: seq<nat>, stack: seq<nat>, l: nat, p': nat)
    returns (k: nat, p: nat, n: nat)
    requires Valid(s.g) && IsPath(UnitGraph(s), path) && IsVar(s.g, path[0]) && IsStack(s.a, stack)
    requires GotoIs(s.a, s.m, l, stack[|stack| - 1], path[|path| - 1], p') && CanFollow(s.g, s.a, s.m, l, t)
    requires Generated(s)
    ensures GotoIs(s.a, s.m, k, stack[|stack| - 1], path[0], p) && CanFollow(s.g, s.a, s.m, k, t)
    ensures Leads(s, t, stack + [p], stack + [p'], n) && n >= |path| - 1
    decreases |path|
  {
    hide Generated, Valid, IsStack, GotoIs, CanFollow, Leads, UnitGraph;
    if |path| == 1 {
      k, p, n := l, p', 0;
      LeadsNone(s, t, stack + [p]);
    } else {
      var h := UnitGraph(s);
      SubPath(h, path, 1, |path| - 1);
      assert path[1..|path| - 1 + 1] == path[1..];
      FirstEdge(h, path, path[0], path[|path| - 1]);
      var r := UnitMeans(s, path[0], path[1]);
      Items.LhsIsVar(s.g, r);
      var k', q, m := UnitRun(s, t, path[1..], stack, l, p');
      var more;
      k, p, more := UnitFirst(s, t, r, path[0], path[1], stack, k', q);
      LeadsTrans(s, t, stack + [p], stack + [q], stack + [p'], more, m);
      n := more + m;
    }
  }

  lemma UnitFirst(s: Setup, t: int, r: nat, x: int, y: int, stack: seq<nat>, l: nat, q: nat)
    returns (k: nat, p: nat, n: nat)
    requires IsUnit(s, r, x, y) && IsVar(s.g, x) && IsStack(s.a, stack)
    requires GotoIs(s.a, s.m, l, stack[|stack| - 1], y, q) && CanFollow(s.g, s.a, s.m, l, t) && Generated(s)
    ensures GotoIs(s.a, s.m, k, stack[|stack| - 1], x, p) && CanFollow(s.g, s.a, s.m, k, t)
    ensures Leads(s, t, stack + [p], stack + [q], n) && n > 0
  {
    hide Generated, Valid, IsAutomaton, IsGotoTable, IsStack, IsWalk, Edge, CanFollow, Leads, AllNullable, IsUseful,
      Walks;
    Basics(s);
    StackNonempty(s.a, stack);
    var from, rhs := stack[|stack| - 1], Rhs(s.g, r);
    var walk := ChildWalk(s.g, s.a, from, r, q);
    WalkStarts(s.a, from, rhs, walk);
    WalkEdge(s.a, from, rhs, walk, 0);
    p := walk[1];
    k := GotoExists(s.g, s.a, s.m, from, x, p);
    assert IncludesBy(s.g, s.a, s.m, k, l, r, 0, from, from, p, q);
    IncludesOne(s.g, s.a, s.m, k, l, r, 0, from, from, p, q, t);
    FollowIsToken(s.g, s.a, s.m, l, t);
    n := FinishRule(s, t, l, from, q, r, 0, stack, walk);
    assert walk[1..2] == [p];
  }

  /** Without conflicts no symbol is reduced to itself by rules that add only nullable symbols. */
  lemma UnitsAreAcyclic(s: Setup)
    requires Generated(s) && NoConflicts(s)
    ensures IsAcyclic(s)
  {
    hide Generated, NoConflicts, UnitGraph;
    forall x: nat ensures !ReachPlus(UnitGraph(s), x, x) {
      if ReachPlus(UnitGraph(s), x, x) {
        var path :| PathFromTo(UnitGraph(s), path, x, x) && |path| > 1;
        NoUnitCycle(s, x, path);
      }
    }
  }

  lemma NoUnitCycle(s: Setup, x: nat, path: seq<nat>)
    requires Generated(s) && NoConflicts(s) && PathFromTo(UnitGraph(s), path, x, x)
    ensures |path| == 1
  {
    hide Generated, NoConflicts, UnitGraph, Valid, IsStack, Leads, Stops, Edge, CanFollow, CanRead, IncludesGraph,
      IsAutomaton, IsGotoTable, AllNullable;
    if |path| > 1 {
      var h, y := UnitGraph(s), path[1];
      FirstEdge(h, path, x, x);
      var r := UnitMeans(s, x, y);
      Basics(s);
      Items.LhsIsVar(s.g, r);
      var i, l, p, p', t := SomeFollow(s, r);
      var includes :| PathFromTo(IncludesGraph(s.g, s.a, s.m), includes, i, l);
      var stack, after, n := FollowStops(s, t, i, includes, l);
      IncludedFollows(s.g, s.a, s.m, i, includes, l, t);
      Rotated(h, path, x);
      var k, q, m := UnitRun(s, t, path[1..] + [y], stack, i, p');
      EdgeUnique(s.g, s.a, p, y, p', q);
      NoReturn(s, t, stack + [p'], after, n, m);
    }
  }

  lemma Rotated(h: Graph, path: seq<nat>, x: nat)
    requires Closed(h) && PathFromTo(h, path, x, x) && |path| > 1
    ensures IsPath(h, path[1..] + [path[1]])
  {
    SubPath(h, path, 1, |path| - 1);
    assert path[1..|path| - 1 + 1] == path[1..];
    FirstEdge(h, path, x, x);
    assert PathFromTo(h, [x, path[1]], x, path[1]);
    JoinPaths(h, path[1..], [x, path[1]], path[1], x, path[1]);
    assert [x, path[1]][1..] == [path[1]];
  }

  /** A token that can follow a goto over the left-hand side of a useful rule. */
  lemma SomeFollow(s: Setup, r: nat) returns (i: nat, l: nat, p: nat, p': nat, t: int)
    requires IsUseful(s, r) && Valid(s.g) && IsRule(s.g, r) && Generated(s)
    ensures GotoIs(s.a, s.m, i, p, s.g.rlhs[r], p') && i < |s.m.toState| == |s.m.fromState| && l < |s.m.toState|
    ensures Reach(IncludesGraph(s.g, s.a, s.m), i, l) && CanRead(s.g, s.a, s.m, l, t)
  {
    hide Generated, Valid, Complete, IncludesGraph, ReadsGraph, DirectlyReads, Edge, Walks;
    var q: nat :| HasReduction(s, q, r);
    var u: nat :| MayReduce(s.g, s.a, s.m, q, r, u);
    var j: nat;
    i, l, j :| LookaheadBy(s.g, s.a, s.m, q, r, u, i, l, j);
    p, p' :| GotoIs(s.a, s.m, i, p, s.g.rlhs[r], p') && Walks(s.a, p, Rhs(s.g, r), q);
    t := u;
    SameLengths(s);
    ReachInRange(IncludesGraph(s.g, s.a, s.m), i, l);
  }

  lemma SameLengths(s: Setup)
    requires Generated(s)
    ensures Valid(s.g) && |s.m.toState| == |s.m.fromState|
  {
  }

  lemma ReachInRange(h: Graph, x: nat, y: nat)
    requires Closed(h) && Reach(h, x, y)
    ensures y < |h|
  {
    var path :| PathFromTo(h, path, x, y);
    PathInRange(h, path, |path| - 1);
  }
}
