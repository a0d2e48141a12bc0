/** The generated parser accepts every sentence of a grammar without conflicts: along a parse tree
    each decision of the driver is the right one. */
module Acceptance {
  import opened Grammars
  import opened Automata
  import opened Gotos
  import opened Relations
  import opened Actions
  import opened Conflicts
  import opened Vectors
  import opened MakeParser
  import opened Output
  import opened Decisions
  import opened Stacks
  import opened Trees
  import opened FollowSets
  import opened Driver
  import Graphs
  import Lookaheads
  import Packing

  // ---------- Grammars without conflicts ----------

  /** No state allows two actions on one token, nor any on $end where that means acceptance. */
  ghost predicate NoConflicts(s: Setup) {
    && (forall q, x, y :: 0 <= q < |s.raw| && x in s.raw[q] && y in s.raw[q] && x.symbol == y.symbol ==> x == y)
    && (s.p.finalState < |s.raw| ==> forall x :: x in s.raw[s.p.finalState] ==> x.symbol != END)
  }

  /** These are the grammars for which conflict removal suppresses nothing. */
  lemma NoConflictsExactly(s: Setup)
    requires Generated(s)
    ensures NoConflicts(s) <==>
      forall q, x :: 0 <= q < |s.raw| && x in s.raw[q] ==> FateOf(s.raw[q], x, q == s.p.finalState) == Kept
  {
    hide Generated, FateOf;
    if NoConflicts(s) {
      forall q, x | 0 <= q < |s.raw| && x in s.raw[q] ensures FateOf(s.raw[q], x, q == s.p.finalState) == Kept {
        AloneIsKept(s.raw[q], x, q == s.p.finalState);
      }
    } else if forall q, x :: 0 <= q < |s.raw| && x in s.raw[q] ==> FateOf(s.raw[q], x, q == s.p.finalState) == Kept {
      forall q, x, y | 0 <= q < |s.raw| && x in s.raw[q] && y in s.raw[q] && x.symbol == y.symbol ensures x == y {
        OneKept(s.raw[q], x, y, q == s.p.finalState);
      }
      if s.p.finalState < |s.raw| {
        forall x | x in s.raw[s.p.finalState] ensures x.symbol != END {
          EndIsNotKept(s.raw[s.p.finalState], x);
        }
      }
    }
  }

  lemma AloneIsKept(row: seq<Action>, x: Action, atEnd: bool)
    requires x in row && (forall y :: y in row && y.symbol == x.symbol ==> y == x) && !(atEnd && x.symbol == END)
    ensures FateOf(row, x, atEnd) == Kept
  {
    forall y ensures !Contested(row, x, y) {
    }
    assert First(row, x);
  }

  lemma EndIsNotKept(row: seq<Action>, x: Action)
    ensures FateOf(row, x, true) == Kept ==> x.symbol != END
  {
  }

  /** Without conflicts each allowed action is what the parser does. */
  lemma AllowedIsTaken(s: Setup, q: nat, x: Action)
    requires Generated(s) && NoConflicts(s) && q < |s.a.states| && Allowed(s.g, s.a, s.m, s.pr, q, x)
    ensures HasState(s.t, q) && x.symbol < |s.values| && Decide(s.t, q, s.values[x.symbol]) == Meaning(x)
  {
    hide Valid, IsAutomaton, IsGotoTable, ValuesOk, IsTables, Allowed, Sorted, Plain, FateOf, Decide;
    assert RowMade(s.g, s.a, s.m, s.pr, s.raw[q], s.p.rows[q], q, s.p.finalState);
    assert x in s.raw[q];
    AloneIsKept(s.raw[q], x, q == s.p.finalState);
    KeptIsTaken(s.g, s.a, s.m, s.pr, s.values, s.raw, s.p, s.t, q, x);
  }

  lemma Basics(s: Setup)
    requires Generated(s)
    ensures Valid(s.g) && IsAutomaton(s.g, s.a) && IsGotoTable(s.g, s.a, s.m) && ValuesOk(s.g, s.values)
    ensures Covers(s.g, s.pr)
    ensures |s.values| == s.g.nsyms > s.g.ntokens > 0
  {
  }

  lemma ShiftIsTaken(s: Setup, q: nat, x: nat, p: nat)
    requires Generated(s) && NoConflicts(s) && q < |s.a.states| && x < s.g.ntokens && Edge(s.a, q, x, p)
    ensures HasState(s.t, q) && x < |s.values| && Decide(s.t, q, s.values[x]) == ToShift(p)
  {
    hide Generated, NoConflicts, Valid, IsAutomaton, IsGotoTable, ValuesOk, Edge, Decide;
    Basics(s);
    AllowedIsTaken(s, q, ShiftAction(s.pr, x, p));
  }

  lemma ReductionIsTaken(s: Setup, q: nat, r: nat, t: nat)
    requires Generated(s) && NoConflicts(s) && q < |s.a.states| && t < s.g.ntokens && r > FIRST_RULE
    requires Complete(s.g, ItemsOf(s.g, s.a.states[q]), r) && IsLookahead(s.g, s.a, s.m, q, r, t)
    ensures HasState(s.t, q) && t < |s.values| && Decide(s.t, q, s.values[t]) == ToReduce(r - 2)
  {
    hide Generated, NoConflicts, Valid, IsAutomaton, IsGotoTable, ValuesOk, IsLookahead, ItemsOf, Decide;
    Basics(s);
    AllowedIsTaken(s, q, ReduceAction(s.pr, r, t));
  }

  // ---------- Rounds ----------

  lemma StackNonempty(a: Automaton, stack: seq<nat>)
    requires IsStack(a, stack)
    ensures |stack| > 0
  {
  }

  /** The stack is as given, and n tokens have been shifted. */
  predicate At(input: seq<int>, c: Config, stack: seq<nat>, n: nat) {
    c.stack == stack && if c.yychar == -1 then c.next == n else c.yychar == InputAt(input, n) && c.next == n + 1
  }

  /** From c the run ends in acceptance after at most k rounds. */
  ghost predicate Accepts(s: Setup, input: seq<int>, size: nat, c: Config, k: nat)
    decreases k
  {
    k > 0 && (Ends(s, input, size, c, Accepted) || exists c' ::
      Follows(s, input, size, c, c', Running) && Accepts(s, input, size, c', k - 1))
  }

  ghost predicate AcceptsFrom(s: Setup, input: seq<int>, size: nat, stack: seq<nat>, n: nat, k: nat) {
    forall c :: At(input, c, stack, n) ==> Accepts(s, input, size, c, k)
  }

  /** Whether or not the lookahead is read before, the decision is the one on the next token. */
  lemma PreparedDecides(s: Setup, input: seq<int>, c: Config, stack: seq<nat>, n: nat)
    requires At(input, c, stack, n) && stack != [] && HasState(s.t, Top(c))
    ensures At(input, Prepared(s.t, input, c), stack, n)
    ensures Decide(s.t, Top(c), Prepared(s.t, input, c).yychar) == Decide(s.t, Top(c), InputAt(input, n))
    ensures Decide(s.t, Top(c), InputAt(input, n)).ToShift? ==> Prepared(s.t, input, c).next == n + 1
  {
    hide Packing.Probe;
  }

  lemma ShiftStep(s: Setup, input: seq<int>, size: nat, c: Config, stack: seq<nat>, n: nat, x: nat, p: nat)
    returns (c': Config)
    requires Generated(s) && NoConflicts(s) && IsStack(s.a, stack) && |stack| < size && At(input, c, stack, n)
    requires x < s.g.ntokens && Edge(s.a, stack[|stack| - 1], x, p) && x < |s.values|
    requires s.values[x] == InputAt(input, n)
    ensures Follows(s, input, size, c, c', Running) && At(input, c', stack + [p], n + 1)
  {
    hide Generated, NoConflicts, Decide, Edge, Prepared;
    ShiftIsTaken(s, Top(c), x, p);
    PreparedDecides(s, input, c, stack, n);
    c' := Config(stack + [p], -1, n + 1);
  }

  /** In the state at the end of `walk`, which leads over the right-hand side of rule r from the
      state on top of the stack, r can be reduced before token t, and p is the goto behind it. */
  ghost predicate CanReduce(s: Setup, stack: seq<nat>, walk: seq<nat>, r: nat, t: int, p: nat) {
    && Valid(s.g) && IsRule(s.g, r) && r > FIRST_RULE && IsStack(s.a, stack)
    && |walk| == |Rhs(s.g, r)| + 1 && walk[0] == stack[|stack| - 1] && Edge(s.a, walk[0], s.g.rlhs[r], p)
    && var q := walk[|walk| - 1];
    q < |s.a.states| && Complete(s.g, ItemsOf(s.g, s.a.states[q]), r) && 0 <= t < s.g.ntokens &&
      IsLookahead(s.g, s.a, s.m, q, r, t)
  }

  /** The driver decides to reduce by r, and what it pops is the walk. */
  lemma ReductionDecided(s: Setup, input: seq<int>, c: Config, stack: seq<nat>, walk: seq<nat>, n: nat, r: nat, t: int,
                         p: nat)
    requires CanReduce(s, stack, walk, r, t, p) && At(input, c, stack + walk[1..], n)
    requires t < |s.values| && s.values[t] == InputAt(input, n) && Generated(s) && NoConflicts(s)
    ensures c.stack != [] && HasState(s.t, Top(c)) && At(input, Prepared(s.t, input, c), stack + walk[1..], n)
    ensures Decide(s.t, Top(c), Prepared(s.t, input, c).yychar) == ToReduce(r - 2)
    ensures r - 2 < |s.t.yylen| && s.t.yylen[r - 2] < |c.stack| && c.stack[..|c.stack| - s.t.yylen[r - 2]] == stack
  {
    hide Generated, NoConflicts, Decide, Edge, Prepared, Valid, Complete, IsLookahead, ItemsOf;
    assert Top(c) == walk[|walk| - 1];
    ReductionIsTaken(s, Top(c), r, t);
    PreparedDecides(s, input, c, stack + walk[1..], n);
    RuleSound(s, r - 2);
  }

  /** The goto after the reduction; the goal alone before the end of the input is accepted. */
  lemma ReductionLands(s: Setup, input: seq<int>, size: nat, d: Config, full: seq<nat>, stack: seq<nat>, n: nat, r: nat,
                       p: nat)
    returns (c': Config, outcome: Outcome)
    requires Valid(s.g) && IsRule(s.g, r) && r > FIRST_RULE && IsStack(s.a, stack) && |stack| < size
    requires At(input, d, full, n)
    requires Edge(s.a, stack[|stack| - 1], s.g.rlhs[r], p) && Generated(s)
    ensures r - 2 < |s.t.yylen| == |s.t.yylhs| && ReduceFollows(s, input, size, d, stack, s.t.yylhs[r - 2], c', outcome)
    ensures outcome == Accepted || (outcome == Running && At(input, c', stack + [p], n))
    ensures stack == [0] && s.g.rlhs[r] == Goal(s.g) && InputAt(input, n) == 0 ==> outcome == Accepted
  {
    hide Generated, Edge, Valid, IsStack, IsAutomaton, IsGotoTable, ValuesOk, GotoOf;
    RuleSound(s, r - 2);
    Basics(s);
    StackNonempty(s.a, stack);
    if stack[|stack| - 1] == 0 && s.t.yylhs[r - 2] == 0 {
      ZeroIsBottom(s.g, s.a, stack, |stack| - 1);
      ParserFinal(s);
      EdgeUnique(s.g, s.a, 0, Goal(s.g), p, s.p.finalState);
      c' := WithLookahead(input, d.(stack := stack + [s.t.yyfinal]));
      outcome := if c'.yychar == 0 then Accepted else Running;
    } else {
      GotoIsTaken(s, stack[|stack| - 1], s.g.rlhs[r], p);
      c' := d.(stack := stack + [p]);
      outcome := Running;
    }
  }

  lemma GotoIsTaken(s: Setup, q: nat, x: nat, p: nat)
    requires Generated(s) && Edge(s.a, q, x, p) && x > s.g.ntokens
    ensures x < |s.values| && 0 <= s.values[x] < |s.t.yygindex| == |s.t.yydgoto| && GotoOf(s.t, q, s.values[x]) == p
  {
    hide Valid, IsAutomaton, IsGotoTable, ValuesOk, IsParser, IsTables, Edge, GotoOf;
    GotoExact(s.g, s.a, s.m, s.pr, s.values, s.raw, s.p, s.t, q, x, p);
  }

  // ---------- Along a parse tree ----------

  lemma TokenIsInput(s: Setup, input: seq<int>, w: seq<int>, n: nat)
    requires Generated(s) && IsInput(s, input, w) && n <= |w|
    ensures 0 <= TokenAt(w, n) < s.g.ntokens && TokenAt(w, n) < |s.values|
    ensures s.values[TokenAt(w, n)] == InputAt(input, n)
  {
    hide Valid, IsAutomaton, IsGotoTable, IsParser, IsTables;
  }

  /** The trees f stand over the states from the top of the stack on, and the first of their tokens
      is at place n of the sentence w. */
  ghost predicate Stands(s: Setup, f: Forest, stack: seq<nat>, states: seq<nat>, w: seq<int>, n: nat) {
    && Valid(s.g) && IsForest(s.g, f) && IsStack(s.a, stack) && IsWalk(s.a, stack[|stack| - 1], Roots(s.g, f), states)
    && GoesOn(w, n, Yield(f)) && AllFollow(s.g, s.a, s.m, f, states, w, n)
  }

  /** The length of the first tree. */
  function FirstSize(f: Forest): nat {
    |FirstYield(f)|
  }

  lemma FirstStands(w: seq<int>, n: nat, x: int)
    requires GoesOn(w, n, [x])
    ensures n < |w| && w[n] == x
  {
    assert w[n + 0] == [x][0];
  }

  lemma RestStands(s: Setup, f: Forest, stack: seq<nat>, states: seq<nat>, w: seq<int>, n: nat)
    requires Stands(s, f, stack, states, w, n) && f != Nil
    ensures |states| > 1 && Stands(s, f.rest, stack + [states[1]], states[1..], w, n + FirstSize(f))
    ensures stack + [states[1]] + states[1..][1..] == stack + states[1..]
    ensures f.Token? ==> n < |w| && w[n] == f.x && Edge(s.a, stack[|stack| - 1], f.x, states[1])
  {
    hide Valid, IsStack, IsWalk, Edge, CanFollow, AllFollow, TokenAt, GoesOn, IsFollowed;
    StackNonempty(s.a, stack);
    WalkStarts(s.a, stack[|stack| - 1], Roots(s.g, f), states);
    WalkOn(s.g, s.a, f, states);
    RestFollows(s.g, s.a, s.m, f, states, w, n);
    StackPush(s.a, stack, Roots(s.g, f)[0], states[1]);
    var longer := stack + [states[1]];
    assert longer[|longer| - 1] == states[1];
    YieldParts(f);
    GoesOnInParts(w, n, FirstYield(f), Yield(f.rest));
    if f.Token? {
      FirstStands(w, n, f.x);
    }
  }

  /** The walk over the children of the first tree, and the goto that its root makes. */
  lemma NodeWalk(s: Setup, f: Forest, stack: seq<nat>, states: seq<nat>, w: seq<int>, n: nat)
    returns (walk: seq<nat>, i: nat)
    requires Stands(s, f, stack, states, w, n) && f.Node? && Generated(s)
    ensures IsStack(s.a, stack) && IsForest(s.g, f.children) && Roots(s.g, f.children) == Rhs(s.g, f.rule)
    ensures f.rule > FIRST_RULE
    ensures IsWalk(s.a, stack[|stack| - 1], Rhs(s.g, f.rule), walk) && walk[|walk| - 1] < |s.a.states|
    ensures Complete(s.g, ItemsOf(s.g, s.a.states[walk[|walk| - 1]]), f.rule)
    ensures |states| > 1 && GotoIs(s.a, s.m, i, stack[|stack| - 1], s.g.rlhs[f.rule], states[1])
    ensures CanFollow(s.g, s.a, s.m, i, TokenAt(w, n + FirstSize(f)))
    ensures GoesOn(w, n, Yield(f.children))
  {
    hide Generated, Valid, IsAutomaton, IsGotoTable, IsStack, IsWalk, Edge, CanFollow, Complete, ItemsOf, AllFollow,
      TokenAt, GoesOn;
    StackNonempty(s.a, stack);
    var q := stack[|stack| - 1];
    Basics(s);
    WalkStarts(s.a, q, Roots(s.g, f), states);
    WalkOn(s.g, s.a, f, states);
    walk := ChildWalk(s.g, s.a, q, f.rule, states[1]);
    WalkStarts(s.a, q, Rhs(s.g, f.rule), walk);
    YieldParts(f);
    GoesOnInParts(w, n, FirstYield(f), Yield(f.rest));
    RestFollows(s.g, s.a, s.m, f, states, w, n);
    i :| GotoIs(s.a, s.m, i, states[0], s.g.rlhs[f.rule], states[1]) &&
      CanFollow(s.g, s.a, s.m, i, TokenAt(w, n + FirstSize(f)));
  }

  /** The children of a tree stand in its place, and at their end its rule can be reduced. */
  lemma ChildrenStand(s: Setup, f: Forest, stack: seq<nat>, states: seq<nat>, w: seq<int>, n: nat)
    returns (walk: seq<nat>)
    requires Stands(s, f, stack, states, w, n) && f.Node? && 0 <= TokenAt(w, n + FirstSize(f)) < s.g.ntokens
    requires Generated(s)
    ensures Stands(s, f.children, stack, walk, w, n)
    ensures |states| > 1 && CanReduce(s, stack, walk, f.rule, TokenAt(w, n + FirstSize(f)), states[1])
  {
    hide Generated, Valid, IsAutomaton, IsGotoTable, IsStack, IsWalk, Edge, CanFollow, Complete, IsLookahead, ItemsOf,
      LooksBack, AllFollow, TokenAt;
    var i;
    walk, i := NodeWalk(s, f, stack, states, w, n);
    StackNonempty(s.a, stack);
    var q, r := stack[|stack| - 1], f.rule;
    Basics(s);
    WalkStarts(s.a, q, Rhs(s.g, r), walk);
    assert Rhs(s.g, r)[0..] == Rhs(s.g, r) && walk[0..] == walk;
    ChildrenFollow(s.g, s.a, s.m, i, q, states[1], r, walk, f.children, 0, w, n);
    LookBack(s.g, s.a, s.m, i, q, states[1], r, walk);
    FollowIsLookahead(s.g, s.a, s.m, walk[|walk| - 1], r, i, TokenAt(w, n + FirstSize(f)));
  }

  lemma LookBack(g: Grammar, a: Automaton, m: GotoTable, k: nat, p: nat, p': nat, r: nat, walk: seq<nat>)
    requires Valid(g) && IsRule(g, r) && GotoIs(a, m, k, p, g.rlhs[r], p') && IsWalk(a, p, Rhs(g, r), walk)
    ensures LooksBack(g, a, m, walk[|walk| - 1], r, k)
  {
    hide Valid, GotoIs;
    assert Walks(a, p, Rhs(g, r), walk[|walk| - 1]);
  }

  lemma TokenRun(s: Setup, input: seq<int>, size: nat, w: seq<int>, stack: seq<nat>, x: nat, p: nat, n: nat, k: nat)
    requires IsStack(s.a, stack) && |stack| < size && n < |w| && w[n] == x && Edge(s.a, stack[|stack| - 1], x, p)
    requires AcceptsFrom(s, input, size, stack + [p], n + 1, k) && IsInput(s, input, w) && Generated(s)
    requires NoConflicts(s)
    ensures AcceptsFrom(s, input, size, stack, n, k + 1)
  {
    hide Generated, NoConflicts, IsInput, IsStack, Edge, Follows, Ends, At;
    TokenIsInput(s, input, w, n);
    forall c | At(input, c, stack, n) ensures Accepts(s, input, size, c, k + 1) {
      var c' := ShiftStep(s, input, size, c, stack, n, x, p);
    }
  }

  lemma ReduceRun(s: Setup, input: seq<int>, size: nat, stack: seq<nat>, walk: seq<nat>, n: nat, r: nat, t: int, p: nat,
                  k: nat)
    requires CanReduce(s, stack, walk, r, t, p) && |stack| < size && t < |s.values| && s.values[t] == InputAt(input, n)
    requires AcceptsFrom(s, input, size, stack + [p], n, k) ||
      (stack == [0] && s.g.rlhs[r] == Goal(s.g) && InputAt(input, n) == 0)
    requires Generated(s) && NoConflicts(s)
    ensures AcceptsFrom(s, input, size, stack + walk[1..], n, k + 1)
  {
    hide Generated, NoConflicts, At, Complete, IsLookahead, ItemsOf, Valid, Edge, IsStack, Decide, Prepared,
      ReduceFollows;
    forall c | At(input, c, stack + walk[1..], n) ensures Accepts(s, input, size, c, k + 1) {
      ReductionDecided(s, input, c, stack, walk, n, r, t, p);
      var d := Prepared(s.t, input, c);
      var c', outcome := ReductionLands(s, input, size, d, stack + walk[1..], stack, n, r, p);
      assert Follows(s, input, size, c, c', outcome);
    }
  }

  /** The trees f take one round for each token and rule. */
  lemma {:induction false} ForestRun(s: Setup, input: seq<int>, size: nat, w: seq<int>, f: Forest, stack: seq<nat>,
                                     states: seq<nat>, n: nat, k: nat)
    requires Stands(s, f, stack, states, w, n) && |states| > 0 && |stack| + Size(f) <= size
    requires AcceptsFrom(s, input, size, stack + states[1..], n + |Yield(f)|, k)
    requires IsInput(s, input, w) && Generated(s) && NoConflicts(s)
    ensures AcceptsFrom(s, input, size, stack, n, k + Size(f))
    decreases f
  {
    hide Generated, NoConflicts, IsInput, Stands, CanReduce, AcceptsFrom;
    if f == Nil {
      StandsOn(s, f, stack, states, w, n);
      assert stack + states[1..] == stack;
    } else {
      RestStands(s, f, stack, states, w, n);
      StandsOn(s, f, stack, states, w, n);
      var longer, n' := stack + [states[1]], n + FirstSize(f);
      StandsOn(s, f.rest, longer, states[1..], w, n');
      ForestRun(s, input, size, w, f.rest, longer, states[1..], n', k);
      if f.Token? {
        TokenRun(s, input, size, w, stack, f.x, states[1], n, k + Size(f.rest));
      } else {
        TokenIsInput(s, input, w, n');
        var walk := ChildrenStand(s, f, stack, states, w, n);
        StandsOn(s, f.children, stack, walk, w, n);
        ReduceRun(s, input, size, stack, walk, n', f.rule, TokenAt(w, n'), states[1], k + Size(f.rest));
        ForestRun(s, input, size, w, f.children, stack, walk, n, k + Size(f.rest) + 1);
      }
    }
  }

  lemma StandsOn(s: Setup, f: Forest, stack: seq<nat>, states: seq<nat>, w: seq<int>, n: nat)
    requires Stands(s, f, stack, states, w, n)
    ensures IsStack(s.a, stack) && |stack| > 0 && |states| > 0 && (f == Nil ==> |states| == 1) && n + |Yield(f)| <= |w|
  {
  }

  /** A run that follows a parse tree ends in acceptance: as many rounds, and as many places on
      the stack, as the tree has tokens and rules are enough. */
  lemma TreeIsAccepted(s: Setup, input: seq<int>, size: nat, w: seq<int>, f: Forest)
    requires Valid(s.g) && IsTreeOf(s.g, f, w) && Size(f) < size && IsInput(s, input, w) && Generated(s)
    requires NoConflicts(s)
    ensures Accepts(s, input, size, Config([0], -1, 0), Size(f))
  {
    hide Generated, NoConflicts, Valid, IsInput, Accepts, Stands, CanReduce, IsStack, Roots, IsForest, Spells;
    var p := RootStands(s, f, w);
    TokenIsInput(s, input, w, |w|);
    var walk := ChildrenStand(s, f, [0], [0, p], w, 0);
    StandsOn(s, f.children, [0], walk, w, 0);
    EndOfInput(s, input, w);
    ReduceRun(s, input, size, [0], walk, |w|, f.rule, END, p, 0);
    ForestRun(s, input, size, w, f.children, [0], walk, 0, 1);
    assert At(input, Config([0], -1, 0), [0], 0);
  }

  lemma EndOfInput(s: Setup, input: seq<int>, w: seq<int>)
    requires IsInput(s, input, w)
    ensures InputAt(input, |w|) == 0
  {
  }

  lemma OneFollows(g: Grammar, a: Automaton, m: GotoTable, k: nat, f: Forest, states: seq<nat>, w: seq<int>)
    requires Valid(g) && IsForest(g, f) && f.Node? && f.rest == Nil && Yield(f.children) == w && |states| == 2
    requires GotoIs(a, m, k, states[0], g.rlhs[f.rule], states[1]) && CanFollow(g, a, m, k, END)
    ensures AllFollow(g, a, m, f, states, w, 0)
  {
    hide Valid, GotoIs, CanFollow;
    assert TokenAt(w, 0 + |FirstYield(f)|) == END;
    assert AllFollow(g, a, m, f.rest, states[1..], w, |w|);
  }

  lemma RootStands(s: Setup, f: Forest, w: seq<int>) returns (p: nat)
    requires Valid(s.g) && IsTreeOf(s.g, f, w) && Generated(s)
    ensures Stands(s, f, [0], [0, p], w, 0)
  {
    hide Generated, Valid, IsAutomaton, IsGotoTable, ValuesOk, Edge, CanFollow;
    Basics(s);
    p := Lookaheads.FirstGoto(s.g, s.a, s.m);
    StartStack(s);
    EndFollows(s.g, s.a, s.m);
    assert Roots(s.g, f) == [Goal(s.g)];
    assert Yield(f) == w + Yield(Nil) == w;
    OneFollows(s.g, s.a, s.m, 0, f, [0, p], w);
    assert IsWalk(s.a, 0, Roots(s.g, f), [0, p]);
  }

  lemma StartStack(s: Setup)
    requires Generated(s)
    ensures IsStack(s.a, [0])
  {
    hide IsGotoTable, ValuesOk, IsParser, IsTables;
    EmptyStack(s, []);
  }

  lemma EndFollows(g: Grammar, a: Automaton, m: GotoTable)
    requires Valid(g) && |m.toState| > 0
    ensures CanFollow(g, a, m, 0, END)
  {
    hide Valid;
    Graphs.ReachRefl(ReadsGraph(g, a, m), 0);
    assert DirectlyReads(g, a, m, 0, END);
    ReadFollows(g, a, m, 0, END);
  }

  // ---------- Runs ----------

  lemma {:induction false} RunOfAccepts(s: Setup, input: seq<int>, size: nat, c: Config, k: nat)
    returns (trace: seq<Config>)
    requires Accepts(s, input, size, c, k)
    ensures IsRun(s, input, size, trace, Accepted, k) && trace[0] == c
    decreases k
  {
    hide Follows, Ends;
    if Ends(s, input, size, c, Accepted) {
      trace := [c];
    } else {
      var c' :| Follows(s, input, size, c, c', Running) && Accepts(s, input, size, c', k - 1);
      var rest := RunOfAccepts(s, input, size, c', k - 1);
      trace := [c] + rest;
      forall i | 0 < i < |trace| ensures Follows(s, input, size, trace[i - 1], trace[i], Running) {
        if i > 1 {
          ChainedAt(s, input, size, rest, i - 1);
        }
      }
    }
  }

  /** The input has a parse tree of at most n tokens and rules. */
  ghost predicate HasTree(s: Setup, input: seq<int>, n: nat) {
    Valid(s.g) && exists w, f :: IsInput(s, input, w) && IsTreeOf(s.g, f, w) && Size(f) <= n
  }

  /** Completeness: if the grammar has no conflicts, every run on a sentence ends in acceptance, as
      soon as stack and budget have room for one of its parse trees. */
  lemma SentenceIsAccepted(s: Setup, input: seq<int>, n: nat, size: nat, trace: seq<Config>, outcome: Outcome,
                           budget: nat)
    requires HasTree(s, input, n) && n < size && n <= budget && Generated(s) && NoConflicts(s)
    requires IsRun(s, input, size, trace, outcome, budget) && trace[0] == Config([0], -1, 0)
    ensures outcome == Accepted
  {
    hide Generated, NoConflicts, IsInput, IsTreeOf, IsRun, Accepts;
    var w, f := SmallTree(s, input, n);
    TreeIsAccepted(s, input, size, w, f);
    var run := RunOfAccepts(s, input, size, Config([0], -1, 0), Size(f));
    RunIsUnique(s, input, size, run, Accepted, Size(f), trace, outcome, budget);
  }

  lemma SmallTree(s: Setup, input: seq<int>, n: nat) returns (w: seq<int>, f: Forest)
    requires HasTree(s, input, n)
    ensures Valid(s.g) && IsInput(s, input, w) && IsTreeOf(s.g, f, w) && Size(f) <= n
  {
    hide Valid, IsInput, IsTreeOf;
    w, f :| IsInput(s, input, w) && IsTreeOf(s.g, f, w) && Size(f) <= n;
  }

  /** The right-hand side of rule r, which may be reduced there, is replaced by a goto. */
  ghost predicate IsReduced(s: Setup, stack: seq<nat>, after: seq<nat>, r: nat) {
    && Valid(s.g) && IsRule(s.g, r) && r > FIRST_RULE && |Rhs(s.g, r)| < |stack| &&
      HasReduction(s, stack[|stack| - 1], r)
    && after != [] && var n := |stack| - |Rhs(s.g, r)|;
    after == stack[..n] + [after[|after| - 1]] && Edge(s.a, stack[n - 1], s.g.rlhs[r], after[|after| - 1])
  }

  /** Token x is shifted, or, if x is none, some rule is reduced. */
  ghost predicate IsMove(s: Setup, size: nat, c: Config, w: seq<int>, c': Config, w': seq<int>) {
    && c.stack != [] && (|c'.stack| <= size || |c'.stack| <= 2)
    && if w' == w then exists r :: IsReduced(s, c.stack, c'.stack, r)
       else exists x, p :: w' == w + [x] && c'.stack == c.stack + [p] && Edge(s.a, Top(c), x, p)
  }

  /** One round keeps what is known of a configuration; acceptance proves a sentence. */
  lemma StepSound(s: Setup, input: seq<int>, size: nat, c: Config, c': Config, outcome: Outcome, w: seq<int>)
    returns (w': seq<int>)
    requires Generated(s) && Consistent(s, input, c, w) && Follows(s, input, size, c, c', outcome)
    ensures outcome == Running ==> Consistent(s, input, c', w') && IsMove(s, size, c, w, c', w')
    ensures outcome == Accepted ==> IsSentence(s, input, w')
  {
    hide Generated, Consistent, IsSentence, Reducible, Edge, Packing.Probe, GotoOf, IsReduced;
    w' := w;
    TopHasTables(s, input, c, w);
    var q, d := Top(c), Prepared(s.t, input, c);
    if s.t.yydefred[q] == 0 {
      LookaheadConsistent(s, input, c, w);
    }
    CharRead(s, input, d, w);
    if s.t.yydefred[q] != 0 {
      DefaultSound(s, q);
    } else if Packing.Probe(s.t.yytable, s.t.yycheck, s.t.yytablesize, s.t.yysindex[q], d.yychar) {
      var x := ShiftSound(s, q, d.yychar);
      var p := FoundEntry(s.t, s.t.yysindex[q], d.yychar);
      ShiftConsistent(s, input, d, w, x, p);
      w' := w + [x];
      assert |c.stack| < size ==> IsMove(s, size, c, w, Config(c.stack + [p], -1, d.next), w');
      return;
    } else if Packing.Probe(s.t.yytable, s.t.yycheck, s.t.yytablesize, s.t.yyrindex[q], d.yychar) {
      ReduceSound(s, q, d.yychar);
    } else {
      return;
    }
    ReduceSoundly(s, input, size, d, c', outcome, w, Decide(s.t, q, d.yychar).rule);
  }

  lemma ReduceSoundly(s: Setup, input: seq<int>, size: nat, d: Config, c': Config, outcome: Outcome, w: seq<int>,
                      rule: nat)
    requires Generated(s) && Consistent(s, input, d, w) && d.stack != [] && Reducible(s, Top(d), rule)
    requires rule < |s.t.yylen| == |s.t.yylhs| && s.t.yylen[rule] < |d.stack|
    requires ReduceFollows(s, input, size, d, d.stack[..|d.stack| - s.t.yylen[rule]], s.t.yylhs[rule], c', outcome)
    ensures outcome == Running ==> Consistent(s, input, c', w) && IsMove(s, size, d, w, c', w)
    ensures outcome == Accepted ==> IsSentence(s, input, w)
  {
    hide Generated, Consistent, IsSentence, Edge, Packing.Probe, GotoOf, HasReduction, Valid;
    ReduceConsistent(s, input, d, w, rule);
    RuleSound(s, rule);
    var rest := d.stack[..|d.stack| - s.t.yylen[rule]];
    if rest[|rest| - 1] == 0 && s.t.yylhs[rule] == 0 {
      var e := d.(stack := rest + [s.t.yyfinal]);
      assert IsReduced(s, d.stack, e.stack, rule + 2);
      LookaheadConsistent(s, input, e, w);
      if outcome == Accepted {
        GoalIsSentence(s, input, WithLookahead(input, e), w);
      }
    } else {
      var after := rest + [GotoOf(s.t, rest[|rest| - 1], s.t.yylhs[rule])];
      assert IsReduced(s, d.stack, after, rule + 2);
    }
  }

  lemma {:induction false} RunSound(s: Setup, input: seq<int>, size: nat, trace: seq<Config>, n: nat)
    returns (w: seq<int>)
    requires Generated(s) && |trace| > n && Chained(s, input, size, trace) && trace[0] == Config([0], -1, 0)
    ensures Consistent(s, input, trace[n], w)
    decreases n
  {
    hide Generated, Consistent, Follows;
    if n == 0 {
      EmptyStack(s, input);
      w := [];
    } else {
      var v := RunSound(s, input, size, trace, n - 1);
      ChainedAt(s, input, size, trace, n);
      w := StepSound(s, input, size, trace[n - 1], trace[n], Running, v);
    }
  }

  ghost predicate IsAcceptingRun(s: Setup, input: seq<int>, size: nat, trace: seq<Config>, budget: nat) {
    IsRun(s, input, size, trace, Accepted, budget) && trace[0] == Config([0], -1, 0)
  }

  /** The parser of a grammar without conflicts accepts exactly the sentences of the grammar. */
  lemma AcceptsExactly(s: Setup, input: seq<int>)
    requires Generated(s) && NoConflicts(s)
    ensures (exists w :: IsSentence(s, input, w)) <==>
      (exists size, trace, budget :: IsAcceptingRun(s, input, size, trace, budget))
  {
    hide Generated, NoConflicts, Accepts, Consistent, Follows, Chained, IsTreeOf, Spells, Derives;
    if w :| IsSentence(s, input, w) {
      SentenceTokens(s, input, w);
      var f := TreeOfSentence(s.g, w);
      TreeIsAccepted(s, input, Size(f) + 1, w, f);
      var trace := RunOfAccepts(s, input, Size(f) + 1, Config([0], -1, 0), Size(f));
      assert IsAcceptingRun(s, input, Size(f) + 1, trace, Size(f));
    }
    if size: nat, trace, budget: nat :| IsAcceptingRun(s, input, size, trace, budget) {
      var c := trace[|trace| - 1];
      var v := RunSound(s, input, size, trace, |trace| - 1);
      var c' :| Follows(s, input, size, c, c', Accepted);
      var w := StepSound(s, input, size, c, c', Accepted, v);
      assert IsSentence(s, input, w);
    }
  }

  lemma SentenceTokens(s: Setup, input: seq<int>, w: seq<int>)
    requires IsSentence(s, input, w)
    ensures AllTokens(s.g, w)
  {
    hide Valid, Derives;
  }
}
