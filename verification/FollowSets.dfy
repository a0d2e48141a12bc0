/** Why the relations of lalr.c suffice: what can follow a nonterminal of a parse tree is found
    from its goto over `includes` and then `reads`. */
module FollowSets {
  import opened Graphs
  import opened Grammars
  import opened Automata
  import opened Gotos
  import opened Relations
  import opened Trees
  import Items

  /** Token t can follow goto k: it includes, in any number of steps, a goto that reads, in any
      number of steps, one that reads t directly. */
  ghost predicate CanFollow(g: Grammar, a: Automaton, m: GotoTable, k: nat, t: int)
    requires Valid(g)
  {
    exists i, j :: FollowsBy(g, a, m, k, t, i, j)
  }

  ghost predicate FollowsBy(g: Grammar, a: Automaton, m: GotoTable, k: nat, t: int, i: nat, j: nat)
    requires Valid(g)
  {
    Reach(IncludesGraph(g, a, m), k, i) && Reach(ReadsGraph(g, a, m), i, j) && j < |m.toState| &&
      DirectlyReads(g, a, m, j, t)
  }

  ghost predicate CanRead(g: Grammar, a: Automaton, m: GotoTable, k: nat, t: int)
    requires Valid(g)
  {
    exists j: nat :: Reach(ReadsGraph(g, a, m), k, j) && j < |m.toState| && DirectlyReads(g, a, m, j, t)
  }

  /** The token at place n of the sentence w; $end is behind it. */
  function TokenAt(w: seq<int>, n: nat): int {
    if n < |w| then w[n] else END
  }

  /** The goto from q to p that rule r ends in can be followed by t. */
  ghost predicate IsFollowed(g: Grammar, a: Automaton, m: GotoTable, r: nat, q: nat, p: nat, t: int)
    requires Valid(g) && IsRule(g, r)
  {
    exists k :: GotoIs(a, m, k, q, g.rlhs[r], p) && CanFollow(g, a, m, k, t)
  }

  /** The trees f stand along the states, their first token at place n of w: each root that is a
      nonterminal can be followed by the token behind its tree. */
  ghost predicate AllFollow(g: Grammar, a: Automaton, m: GotoTable, f: Forest, states: seq<nat>, w: seq<int>, n: nat)
    requires Valid(g) && IsForest(g, f) && |states| == |Roots(g, f)| + 1
  {
    f != Nil ==>
      && (f.Node? ==> IsFollowed(g, a, m, f.rule, states[0], states[1], TokenAt(w, n + |FirstYield(f)|)))
      && AllFollow(g, a, m, f.rest, states[1..], w, n + |FirstYield(f)|)
  }

  lemma RestFollows(g: Grammar, a: Automaton, m: GotoTable, f: Forest, states: seq<nat>, w: seq<int>, n: nat)
    requires Valid(g) && IsForest(g, f) && f != Nil && |states| == |Roots(g, f)| + 1
    ensures |states| == |Roots(g, f.rest)| + 2
    ensures AllFollow(g, a, m, f, states, w, n) <==>
      && (f.Node? ==> IsFollowed(g, a, m, f.rule, states[0], states[1], TokenAt(w, n + |FirstYield(f)|)))
      && AllFollow(g, a, m, f.rest, states[1..], w, n + |FirstYield(f)|)
  {
    hide Valid, IsFollowed, TokenAt, Yield;
  }

  lemma WalkOn(g: Grammar, a: Automaton, f: Forest, states: seq<nat>)
    requires Valid(g) && IsForest(g, f) && f != Nil && |states| > 0 && IsWalk(a, states[0], Roots(g, f), states)
    ensures Edge(a, states[0], Roots(g, f)[0], states[1]) && IsWalk(a, states[1], Roots(g, f.rest), states[1..])
    ensures f.Token? ==> Roots(g, f)[0] == f.x
    ensures f.Node? ==> Roots(g, f)[0] == g.rlhs[f.rule]
  {
    var w := Roots(g, f);
    assert w == [w[0]] + Roots(g, f.rest);
    assert Edge(a, states[0], w[0], states[0 + 1]);
    forall j | 0 <= j < |w| - 1 ensures Edge(a, states[1..][j], Roots(g, f.rest)[j], states[1..][j + 1]) {
      assert Edge(a, states[j + 1], w[j + 1], states[j + 1 + 1]);
    }
  }

  /** The walk over the right-hand side of a rule whose left-hand side leaves q. */
  lemma ChildWalk(g: Grammar, a: Automaton, q: nat, r: nat, p: nat) returns (states: seq<nat>)
    requires Valid(g) && IsAutomaton(g, a) && IsRule(g, r) && Edge(a, q, g.rlhs[r], p)
    ensures IsWalk(a, q, Rhs(g, r), states)
    ensures r > FIRST_RULE && states[|Rhs(g, r)|] < |a.states|
    ensures Complete(g, ItemsOf(g, a.states[states[|Rhs(g, r)|]]), r)
  {
    hide Valid, IsAutomaton, ItemsOf, Edge;
    RuleItemPresent(g, a, q, g.rlhs[r], p, r);
    states := RuleWalk(g, a, q, r, |Rhs(g, r)|);
    assert Rhs(g, r)[..|Rhs(g, r)|] == Rhs(g, r);
    EndItem(g, r);
  }

  lemma EndItem(g: Grammar, r: nat)
    requires Valid(g) && IsRule(g, r)
    ensures g.rrhs[r + 1] == g.rrhs[r] + |Rhs(g, r)| + 1
  {
  }

  /** A nonterminal with an empty tree is nullable. */
  lemma EmptyTree(g: Grammar, f: Forest)
    requires Valid(g) && IsForest(g, f) && f.Node? && Yield(f.children) == []
    ensures IsVar(g, g.rlhs[f.rule]) && IsNullable(g, g.rlhs[f.rule])
  {
    hide Valid, IsNullable;
    var one := Node(f.rule, f.children, Nil);
    EmptyYield(g, one);
    assert Roots(g, one)[0] == g.rlhs[f.rule];
    Items.LhsIsVar(g, f.rule);
  }

  /** The first token of the trees that stand from the target of goto k on is read from k. */
  lemma {:induction false} FirstIsRead(g: Grammar, a: Automaton, m: GotoTable, k: nat, f: Forest, states: seq<nat>)
    requires Valid(g) && IsAutomaton(g, a) && IsGotoTable(g, a, m) && k < |m.toState|
    requires IsForest(g, f) && IsWalk(a, m.toState[k], Roots(g, f), states) && Yield(f) != []
    ensures CanRead(g, a, m, k, Yield(f)[0])
    decreases f
  {
    hide Valid, IsAutomaton, IsGotoTable, IsWalk, Edge, IsNullable;
    WalkStarts(a, m.toState[k], Roots(g, f), states);
    WalkOn(g, a, f, states);
    match f
    case Token(x, rest) =>
      ReachRefl(ReadsGraph(g, a, m), k);
      assert DirectlyReads(g, a, m, k, x);
    case Node(r, children, rest) =>
      if Yield(children) != [] {
        var inner := ChildWalk(g, a, states[0], r, states[1]);
        FirstIsRead(g, a, m, k, children, inner);
      } else {
        EmptyTree(g, f);
        var l := GotoExists(g, a, m, states[0], g.rlhs[r], states[1]);
        assert Reads(g, a, m, k, l);
        assert l in ReadsGraph(g, a, m)[k];
        FirstIsRead(g, a, m, l, rest, states[1..]);
        ReadMore(g, a, m, k, l, Yield(rest)[0]);
      }
  }

  lemma WalkStarts(a: Automaton, q: nat, w: seq<int>, states: seq<nat>)
    requires IsWalk(a, q, w, states)
    ensures |states| == |w| + 1 && states[0] == q < |a.states|
  {
  }

  lemma ReadMore(g: Grammar, a: Automaton, m: GotoTable, k: nat, l: nat, t: int)
    requires Valid(g) && k < |m.toState| && l in ReadsGraph(g, a, m)[k] && CanRead(g, a, m, l, t)
    ensures CanRead(g, a, m, k, t)
  {
    hide Valid, ReadsGraph, DirectlyReads;
    var h := ReadsGraph(g, a, m);
    var j: nat :| Reach(h, l, j) && j < |m.toState| && DirectlyReads(g, a, m, j, t);
    ReachEdge(h, k, l);
    ReachTrans(h, k, l, j);
  }

  /** If the left-hand side of a rule can be followed by the token behind its tree, so can every
      nonterminal among the children. Here f are the last children, from place j of the rule on. */
  lemma {:induction false} ChildrenFollow(g: Grammar, a: Automaton, m: GotoTable, k: nat, p: nat, p': nat, r: nat,
                                          states: seq<nat>,
                                          f: Forest, j: nat, w: seq<int>, n: nat)
    requires Valid(g) && IsAutomaton(g, a) && IsGotoTable(g, a, m) && IsRule(g, r) && GotoIs(a, m, k, p, g.rlhs[r], p')
    requires IsWalk(a, p, Rhs(g, r), states) && IsForest(g, f) && j <= |Rhs(g, r)| && Roots(g, f) == Rhs(g, r)[j..]
    requires GoesOn(w, n, Yield(f))
    requires CanFollow(g, a, m, k, TokenAt(w, n + |Yield(f)|))
    ensures AllFollow(g, a, m, f, states[j..], w, n)
    decreases f
  {
    hide Valid, IsAutomaton, IsGotoTable, IsWalk, Edge, IsNullable, CanFollow, GotoIs, GoesOn, AllFollow, TokenAt,
      FirstYield, Yield;
    WalkStarts(a, p, Rhs(g, r), states);
    if f == Nil {
      NoneFollow(g, a, m, states[j..], w, n);
    } else {
      var rhs, n' := Rhs(g, r), n + |FirstYield(f)|;
      assert |Roots(g, f)| > 0 && rhs[j] == Roots(g, f)[0];
      assert Roots(g, f)[1..] == Roots(g, f.rest) && rhs[j..][1..] == rhs[j + 1..];
      assert states[j..][1..] == states[j + 1..];
      YieldParts(f);
      GoesOnInParts(w, n, FirstYield(f), Yield(f.rest));
      ChildrenFollow(g, a, m, k, p, p', r, states, f.rest, j + 1, w, n');
      if f.Node? {
        Items.LhsIsVar(g, f.rule);
        WalkEdge(a, p, rhs, states, j);
        var l := GotoExists(g, a, m, states[j], rhs[j], states[j + 1]);
        RootFollows(g, a, m, k, p, p', r, states, f, j, l, w, n);
      }
      RestFollows(g, a, m, f, states[j..], w, n);
    }
  }

  lemma NoneFollow(g: Grammar, a: Automaton, m: GotoTable, states: seq<nat>, w: seq<int>, n: nat)
    requires Valid(g) && |states| == 1
    ensures AllFollow(g, a, m, Nil, states, w, n)
  {
  }

  lemma WalkEdge(a: Automaton, q: nat, w: seq<int>, states: seq<nat>, j: nat)
    requires IsWalk(a, q, w, states) && j < |w|
    ensures Edge(a, states[j], w[j], states[j + 1])
    ensures IsWalk(a, states[j + 1], w[j + 1..], states[j + 1..])
    ensures Walks(a, q, w[..j], states[j])
  {
    hide Edge;
    WalkPrefix(a, q, w, states, j);
    assert states[..j + 1][|w[..j]|] == states[j];
    var v, after := w[j + 1..], states[j + 1..];
    forall i | 0 <= i < |v| ensures Edge(a, after[i], v[i], after[i + 1]) {
      assert Edge(a, states[j + 1 + i], w[j + 1 + i], states[j + 1 + i + 1]);
    }
    assert Edge(a, states[j], w[j], states[j + 1]);
    TargetInRange(a, states[j], w[j], states[j + 1]);
  }

  lemma TargetInRange(a: Automaton, q: nat, x: int, p: nat)
    requires Edge(a, q, x, p)
    ensures p < |a.states|
  {
  }

  /** Of one child: the token behind it is the first of those after it, or, if they are empty, the
      one behind the whole rule. */
  lemma RootFollows(g: Grammar, a: Automaton, m: GotoTable, k: nat, p: nat, p': nat, r: nat, states: seq<nat>,
                    f: Forest, j: nat,
                    l: nat, w: seq<int>, n: nat)
    requires Valid(g) && IsAutomaton(g, a) && IsGotoTable(g, a, m) && IsRule(g, r) && GotoIs(a, m, k, p, g.rlhs[r], p')
    requires IsWalk(a, p, Rhs(g, r), states) && IsForest(g, f) && f.Node? && j < |Rhs(g, r)|
    requires Roots(g, f) == Rhs(g, r)[j..]
    requires GotoIs(a, m, l, states[j], Rhs(g, r)[j], states[j + 1]) && IsVar(g, Rhs(g, r)[j])
    requires GoesOn(w, n, Yield(f))
    requires CanFollow(g, a, m, k, TokenAt(w, n + |Yield(f)|))
    ensures CanFollow(g, a, m, l, TokenAt(w, n + |FirstYield(f)|))
  {
    hide Valid, IsAutomaton, IsGotoTable, IsWalk, Edge, IsNullable, DirectlyReads, IncludesGraph, ReadsGraph, Reach,
      CanFollow;
    var rhs, size := Rhs(g, r), |Yield(f.children)|;
    assert Roots(g, f.rest) == Roots(g, f)[1..] == rhs[j + 1..];
    WalkStarts(a, p, rhs, states);
    WalkEdge(a, p, rhs, states, j);
    if Yield(f.rest) == [] {
      EmptyYield(g, f.rest);
      IncludesOne(g, a, m, l, k, r, j, states[j], p, states[j + 1], p', TokenAt(w, n + size));
    } else {
      FirstIsRead(g, a, m, l, f.rest, states[j + 1..]);
      YieldParts(f);
      GoesOnInParts(w, n, FirstYield(f), Yield(f.rest));
      assert w[n + size + 0] == Yield(f.rest)[0];
      ReadFollows(g, a, m, l, TokenAt(w, n + size));
    }
  }

  lemma IncludesOne(g: Grammar, a: Automaton, m: GotoTable, l: nat, k: nat, r: nat, j: nat, p: nat, p': nat, q: nat,
                    q': nat, t: int)
    requires Valid(g) && IncludesBy(g, a, m, l, k, r, j, p, p', q, q') && l < |m.toState| && k < |m.toState|
    requires CanFollow(g, a, m, k, t)
    ensures CanFollow(g, a, m, l, t)
  {
    hide Valid, IncludesBy, Reads, DirectlyReads, Reach;
    var h := IncludesGraph(g, a, m);
    assert Includes(g, a, m, l, k);
    assert k in h[l];
    ReachEdge(h, l, k);
    var i: nat, j: nat :| FollowsBy(g, a, m, k, t, i, j);
    ReachTrans(h, l, k, i);
    assert FollowsBy(g, a, m, l, t, i, j);
  }

  lemma ReadFollows(g: Grammar, a: Automaton, m: GotoTable, l: nat, t: int)
    requires Valid(g) && l < |m.toState| && CanRead(g, a, m, l, t)
    ensures CanFollow(g, a, m, l, t)
  {
    hide Valid, DirectlyReads, Reads, Includes, Reach;
    ReachRefl(IncludesGraph(g, a, m), l);
    var j: nat :| Reach(ReadsGraph(g, a, m), l, j) && j < |m.toState| && DirectlyReads(g, a, m, j, t);
    assert FollowsBy(g, a, m, l, t, l, j);
  }

  /** What can follow a goto is a lookahead of every reduction that looks back to it. */
  lemma FollowIsLookahead(g: Grammar, a: Automaton, m: GotoTable, q: nat, r: nat, k: nat, t: int)
    requires Valid(g) && LooksBack(g, a, m, q, r, k) && CanFollow(g, a, m, k, t)
    ensures IsLookahead(g, a, m, q, r, t)
  {
    hide Valid, LooksBack, Reach, DirectlyReads;
    var i: nat, j: nat :| FollowsBy(g, a, m, k, t, i, j);
    assert LookaheadBy(g, a, m, q, r, t, k, i, j);
  }
}
