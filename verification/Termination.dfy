/** Every run of the parser ends: each round lowers a measure of the input still to be shifted and
    of the stack. */
module Termination {
  import opened Graphs
  import opened Grammars
  import opened Automata
  import opened Relations
  import opened Stacks
  import opened Trees
  import opened Decisions
  import opened Driver
  import opened Acceptance
  import opened Loops
  import Actions
  import Gotos
  import MakeParser
  import Output

  // ---------- Ranks of symbols ----------

  /** The symbols that x can be turned into by unit rules. */
  ghost function Above(s: Setup, x: int): set<nat> {
    if x < 0 then {} else set y: nat | y < s.g.nsyms && ReachPlus(UnitGraph(s), x, y)
  }

  ghost function Rank(s: Setup, x: int): nat {
    |Above(s, x)|
  }

  lemma {:induction false} SizeBelow(y: set<nat>, n: nat)
    requires forall i :: i in y ==> i < n
    ensures |y| <= n
  {
    if n == 0 {
      assert y == {};
    } else {
      SizeBelow(y - {n - 1}, n - 1);
    }
  }

  lemma Smaller(x: set<nat>, y: set<nat>, e: nat)
    requires x <= y && e in y && e !in x
    ensures |x| < |y|
  {
    var z := y - {e};
    assert x <= z;
    SubsetSize(x, z);
  }

  lemma {:induction false} SubsetSize(x: set<nat>, y: set<nat>)
    requires x <= y
    ensures |x| <= |y|
    decreases x
  {
    if x != {} {
      var e :| e in x;
      SubsetSize(x - {e}, y - {e});
    }
  }

  lemma RankBound(s: Setup, x: int)
    ensures Rank(s, x) <= s.g.nsyms
  {
    hide ReachPlus, UnitGraph;
    SizeBelow(Above(s, x), s.g.nsyms);
  }

  /** A unit rule lowers the rank. */
  lemma RankFalls(s: Setup, x: nat, y: nat)
    requires IsAcyclic(s) && x < s.g.nsyms && y < s.g.nsyms && BecomesAlone(s, x, y)
    ensures Rank(s, y) < Rank(s, x)
  {
    hide BecomesAlone, Reach;
    var h := UnitGraph(s);
    assert y in h[x];
    ReachEdge(h, x, y);
    forall z | z in Above(s, y) ensures z in Above(s, x) {
      ReachPlusTrans(h, x, y, z);
    }
    assert y !in Above(s, y);
    Smaller(Above(s, y), Above(s, x), y);
  }

  // ---------- Weights of stacks ----------

  ghost function Pow(b: nat, n: nat): (p: nat)
    ensures b > 0 ==> p > 0
  {
    if n == 0 then 1 else b * Pow(b, n - 1)
  }

  ghost function Digit(s: Setup, w: seq<int>): nat {
    if w == [] then s.g.nsyms + 1 else Rank(s, w[0])
  }

  function Rest(w: seq<int>): seq<int> {
    if w == [] then [] else w[1..]
  }

  /** The ranks of the symbols as the digits of a number; digits that are missing are largest. */
  ghost function Weight(s: Setup, w: seq<int>, room: nat): nat
    decreases room
  {
    if room == 0 then 0 else Join(Digit(s, w), Pow(s.g.nsyms + 2, room - 1), Weight(s, Rest(w), room - 1))
  }

  /** d and v as the digits of a number, v being below p. */
  function Join(d: nat, p: nat, v: nat): nat {
    d * p + v
  }

  lemma DigitsCarry(d: nat, e: nat, p: nat, v: nat, w: nat)
    requires d < e && v < p
    ensures Join(d, p, v) < Join(e, p, w)
  {
    assert (d + 1) * p <= e * p;
  }

  lemma {:induction false} WeightBound(s: Setup, w: seq<int>, room: nat)
    ensures Weight(s, w, room) < Pow(s.g.nsyms + 2, room)
    decreases room
  {
    hide Rank;
    if room > 0 {
      var p := Pow(s.g.nsyms + 2, room - 1);
      WeightBound(s, Rest(w), room - 1);
      if w != [] {
        RankBound(s, w[0]);
      }
      DigitsCarry(Digit(s, w), s.g.nsyms + 2, p, Weight(s, Rest(w), room - 1), 0);
      assert Join(s.g.nsyms + 2, p, 0) == Pow(s.g.nsyms + 2, room);
    }
  }

  /** A lower rank, or a new symbol, at place j lowers the weight, whatever happens behind it. */
  lemma {:induction false} WeightFalls(s: Setup, w: seq<int>, w': seq<int>, j: nat, room: nat)
    requires j < |w'| && j <= |w| && j < room && w[..j] == w'[..j] && (j < |w| ==> Rank(s, w'[j]) < Rank(s, w[j]))
    ensures Weight(s, w', room) < Weight(s, w, room)
    decreases j
  {
    hide Rank;
    if j == 0 {
      WeightBound(s, Rest(w'), room - 1);
      RankBound(s, w'[0]);
      DigitsCarry(Digit(s, w'), Digit(s, w), Pow(s.g.nsyms + 2, room - 1), Weight(s, Rest(w'), room - 1), Weight(s, Rest(w), room - 1));
    } else {
      assert w[0] == w[..j][0] == w'[..j][0] == w'[0];
      assert w[1..][..j - 1] == w[..j][1..] == w'[..j][1..] == w'[1..][..j - 1];
      WeightFalls(s, w[1..], w'[1..], j - 1, room - 1);
    }
  }

  // ---------- The measure ----------

  /** Behind place b all symbols are nullable. */
  ghost predicate NullableBehind(g: Grammar, w: seq<int>, b: nat)
    requires Valid(g)
  {
    forall i :: b < i < |w| ==> IsNullable(g, w[i])
  }

  ghost predicate Fits(s: Setup, input: seq<int>, size: nat, c: Config, consumed: seq<int>, b: nat) {
    && Consistent(s, input, c, consumed) && |c.stack| <= size && b < |c.stack| && |consumed| <= |input|
    && NullableBehind(s.g, Symbols(s.a, c.stack), b)
  }

  /** What is left to be shifted, then the place b, then the weight of the symbols from b on. */
  ghost function Measure(s: Setup, input: seq<int>, size: nat, n: nat, b: nat, w: seq<int>): nat
    requires n <= |input| && b <= |w|
  {
    Join(Join(|input| - n, size, b), Pow(s.g.nsyms + 2, size), Weight(s, w[b..], size))
  }

  /** (|input| * size + 1) * (nsyms + 2) ^ size rounds are never needed. */
  ghost function Rounds(g: Grammar, input: seq<int>, size: nat): nat {
    Join(Join(|input|, size, 1), Pow(g.nsyms + 2, size), 0)
  }

  lemma MeasureFalls(s: Setup, input: seq<int>, size: nat, n: nat, b: nat, w: seq<int>, n': nat, b': nat, w': seq<int>)
    requires n <= n' <= |input| && b <= |w| && b' <= |w'| && b' < size
    requires n' > n || b' < b || (b' == b && Weight(s, w'[b..], size) < Weight(s, w[b..], size))
    ensures Measure(s, input, size, n', b', w') < Measure(s, input, size, n, b, w)
  {
    hide Weight, Pow;
    var p, d, e := Pow(s.g.nsyms + 2, size), Join(|input| - n', size, b'), Join(|input| - n, size, b);
    WeightBound(s, w'[b'..], size);
    if n' > n {
      DigitsCarry(|input| - n', |input| - n, size, b', b);
      DigitsCarry(d, e, p, Weight(s, w'[b'..], size), Weight(s, w[b..], size));
    } else if b' < b {
      DigitsCarry(d, e, p, Weight(s, w'[b'..], size), Weight(s, w[b..], size));
    }
  }

  // ---------- Rounds ----------

  lemma ValueIsPositive(s: Setup, x: int)
    requires Generated(s) && 0 < x < s.g.ntokens
    ensures x < |s.values| && s.values[x] > 0
  {
    hide Valid, IsAutomaton, Gotos.IsGotoTable, MakeParser.IsParser, Output.IsTables;
  }

  /** Only what the input holds is shifted. */
  lemma ConsumedIsInput(s: Setup, input: seq<int>, w: seq<int>)
    requires Generated(s) && Spells(s, input, w)
    ensures |w| <= |input|
  {
    hide Generated;
    if |w| > |input| {
      ValueIsPositive(s, w[|input|]);
    }
  }

  /** A reduction takes the right-hand side off the symbols and puts the left-hand side there. */
  lemma SymbolsReduced(s: Setup, stack: seq<nat>, after: seq<nat>, r: nat)
    requires Generated(s) && IsReduced(s, stack, after, r) && IsStack(s.a, stack) && IsStack(s.a, after)
    ensures var w, n := Symbols(s.a, stack), |stack| - 1 - |Rhs(s.g, r)|;
      w[n..] == Rhs(s.g, r) && Symbols(s.a, after) == w[..n] + [s.g.rlhs[r]]
  {
    hide Generated, Valid, IsAutomaton, IsStack, Symbols, Edge, ItemsOf, IsLookahead;
    Basics(s);
    StackNonempty(s.a, stack);
    var m := |Rhs(s.g, r)|;
    var t: nat :| Actions.MayReduce(s.g, s.a, s.m, stack[|stack| - 1], r, t);
    RhsLength(s.g, r);
    ItemOnStack(s.g, s.a, stack, r, m);
    assert Rhs(s.g, r)[..m] == Rhs(s.g, r);
    StackPrefix(s.a, stack, |stack| - m);
    StackPush(s.a, stack[..|stack| - m], s.g.rlhs[r], after[|after| - 1]);
  }

  /** A reduction lowers the place b or the weight. */
  lemma ReductionFalls(s: Setup, w: seq<int>, w': seq<int>, r: nat, b: nat, size: nat) returns (b': nat)
    requires Generated(s) && IsAcyclic(s) && Valid(s.g) && IsRule(s.g, r) && r > FIRST_RULE && IsUseful(s, r)
    requires |Rhs(s.g, r)| <= |w|
    requires w[|w| - |Rhs(s.g, r)|..] == Rhs(s.g, r) && w' == w[..|w| - |Rhs(s.g, r)|] + [s.g.rlhs[r]]
    requires NullableBehind(s.g, w, b) && b <= |w| < size
    ensures b' <= b && b' < |w'| && NullableBehind(s.g, w', b')
    ensures b' < b || Weight(s, w'[b..], size) < Weight(s, w[b..], size)
  {
    hide Generated, Valid, IsNullable, IsUseful, Weight, Rank, IsAcyclic;
    var n, rhs := |w| - |Rhs(s.g, r)|, Rhs(s.g, r);
    assert forall i :: 0 <= i < |rhs| ==> rhs[i] == w[n..][i] == w[n + i];
    if n < b {
      b' := n;
    } else {
      b' := b;
      assert w[b..][..n - b] == w'[b..][..n - b];
      if |rhs| > 0 {
        UnitFalls(s, r, w, n, b);
      }
      if n > b {
        AllNullableRule(s, r, w, n, b);
      }
      WeightFalls(s, w[b..], w'[b..], n - b, size);
    }
  }

  lemma UnitFalls(s: Setup, r: nat, w: seq<int>, n: nat, b: nat)
    requires Generated(s) && IsAcyclic(s) && Valid(s.g) && IsRule(s.g, r) && r > FIRST_RULE && IsUseful(s, r)
    requires |Rhs(s.g, r)| > 0
    requires b <= n < |w| && w[n..] == Rhs(s.g, r) && NullableBehind(s.g, w, b)
    ensures Rank(s, s.g.rlhs[r]) < Rank(s, w[n])
  {
    hide Generated, Valid, IsNullable, IsUseful, Rank, IsAcyclic;
    var rhs := Rhs(s.g, r);
    forall i | 0 <= i < |rhs[1..]| ensures IsNullable(s.g, rhs[1..][i]) {
      assert rhs[1..][i] == w[n..][i + 1] == w[n + i + 1];
    }
    assert rhs[0] == w[n..][0] == w[n];
    RhsSymbol(s.g, r, 0);
    LhsAboveStart(s.g, r);
    assert IsUnit(s, r, w[n], s.g.rlhs[r]);
    RankFalls(s, w[n], s.g.rlhs[r]);
  }

  lemma AllNullableRule(s: Setup, r: nat, w: seq<int>, n: nat, b: nat)
    requires Valid(s.g) && IsRule(s.g, r) && b < n <= |w| && w[n..] == Rhs(s.g, r) && NullableBehind(s.g, w, b)
    ensures IsNullable(s.g, s.g.rlhs[r])
  {
    hide Valid, Derives;
    forall i | 0 <= i < |Rhs(s.g, r)| ensures IsNullable(s.g, Rhs(s.g, r)[i]) {
      assert Rhs(s.g, r)[i] == w[n..][i] == w[n + i];
    }
    NullableDerives(s.g, Rhs(s.g, r));
    DerivesRule(s.g, r);
    DerivesTrans(s.g, [s.g.rlhs[r]], Rhs(s.g, r), []);
  }

  /** One round lowers the measure. */
  lemma RoundFalls(s: Setup, input: seq<int>, size: nat, c: Config, c': Config, w: seq<int>, b: nat)
    returns (w': seq<int>, b': nat)
    requires Generated(s) && IsAcyclic(s) && size >= 2 && Fits(s, input, size, c, w, b)
    requires Follows(s, input, size, c, c', Running)
    ensures Fits(s, input, size, c', w', b')
    ensures Measure(s, input, size, |w'|, b', Symbols(s.a, c'.stack)) < Measure(s, input, size, |w|, b, Symbols(s.a, c.stack))
  {
    hide Generated, IsAcyclic, Follows, Measure, Weight, IsStack, Symbols, Derives, Valid, IsReduced, Edge, Spells;
    w' := StepSound(s, input, size, c, c', Running, w);
    ConsumedIsInput(s, input, w');
    StackNonempty(s.a, c'.stack);
    var v, v' := Symbols(s.a, c.stack), Symbols(s.a, c'.stack);
    if w' == w {
      var r: nat :| IsReduced(s, c.stack, c'.stack, r);
      SymbolsReduced(s, c.stack, c'.stack, r);
      ReducedIsUseful(s, c.stack, c'.stack, r);
      b' := ReductionFalls(s, v, v', r, b, size);
    } else {
      var x, p :| w' == w + [x] && c'.stack == c.stack + [p] && Edge(s.a, Top(c), x, p);
      StackPush(s.a, c.stack, x, p);
      b' := |v'| - 1;
    }
    MeasureFalls(s, input, size, |w|, b, v, |w'|, b', v');
  }

  lemma ReducedIsUseful(s: Setup, stack: seq<nat>, after: seq<nat>, r: nat)
    requires IsReduced(s, stack, after, r)
    ensures Valid(s.g) && IsRule(s.g, r) && r > FIRST_RULE && IsUseful(s, r) && |Rhs(s.g, r)| < |stack|
  {
    hide Valid, HasReduction;
  }

  // ---------- Runs ----------

  lemma {:induction false} RunFalls(s: Setup, input: seq<int>, size: nat, trace: seq<Config>, n: nat)
    returns (w: seq<int>, b: nat)
    requires Generated(s) && IsAcyclic(s) && size >= 2 && n < |trace| && Chained(s, input, size, trace)
    requires trace[0] == Config([0], -1, 0)
    ensures Fits(s, input, size, trace[n], w, b)
    ensures Measure(s, input, size, |w|, b, Symbols(s.a, trace[n].stack)) + n < Rounds(s.g, input, size)
    decreases n
  {
    hide Generated, IsAcyclic, Follows, Measure, Valid, Derives;
    if n == 0 {
      EmptyStack(s, input);
      w, b := [], 0;
      FirstMeasure(s, input, size);
    } else {
      var v, a := RunFalls(s, input, size, trace, n - 1);
      ChainedAt(s, input, size, trace, n);
      w, b := RoundFalls(s, input, size, trace[n - 1], trace[n], v, a);
    }
  }

  lemma FirstMeasure(s: Setup, input: seq<int>, size: nat)
    ensures Measure(s, input, size, 0, 0, []) < Rounds(s.g, input, size)
  {
    hide Weight, Pow;
    WeightBound(s, [], size);
    var none: seq<int> := [];
    assert none[0..] == none;
    DigitsCarry(Join(|input|, size, 0), Join(|input|, size, 1), Pow(s.g.nsyms + 2, size), Weight(s, [], size), 0);
  }

  /** If no symbol can be turned into itself, every run ends: in acceptance, with an error, or when
      the stack is full. */
  lemma EveryRunEnds(s: Setup, input: seq<int>, size: nat, trace: seq<Config>, outcome: Outcome, budget: nat)
    requires Generated(s) && IsAcyclic(s) && size >= 2 && budget >= Rounds(s.g, input, size)
    requires IsRun(s, input, size, trace, outcome, budget) && trace[0] == Config([0], -1, 0)
    ensures outcome != Running
  {
    hide Generated, IsAcyclic, Chained, Measure, Rounds;
    if outcome == Running {
      var w, b := RunFalls(s, input, size, trace, budget);
    }
  }

  /** A longer stack changes nothing but where it overflows. */
  lemma LongerStack(s: Setup, input: seq<int>, size: nat, more: nat, trace: seq<Config>, budget: nat)
    requires IsRun(s, input, size, trace, SyntaxError, budget) && size <= more
    ensures IsRun(s, input, more, trace, SyntaxError, budget)
  {
    hide Decide, Prepared, GotoOf;
    var c := trace[|trace| - 1];
    var c' :| Follows(s, input, size, c, c', SyntaxError);
    assert Follows(s, input, more, c, c', SyntaxError);
    forall k | 0 < k < |trace| ensures Follows(s, input, more, trace[k - 1], trace[k], Running) {
      ChainedAt(s, input, size, trace, k);
    }
  }

  /** So the parser of a grammar without conflicts decides its language: given enough rounds it ends,
      it accepts only sentences, and it reports an error only for what is none. */
  lemma RunDecides(s: Setup, input: seq<int>, size: nat, trace: seq<Config>, outcome: Outcome, budget: nat)
    requires Generated(s) && NoConflicts(s) && size >= 2 && budget >= Rounds(s.g, input, size)
    requires IsRun(s, input, size, trace, outcome, budget) && trace[0] == Config([0], -1, 0)
    ensures outcome == Accepted || outcome == SyntaxError || outcome == StackOverflow
    ensures outcome == Accepted ==> exists w :: IsSentence(s, input, w)
    ensures outcome == SyntaxError ==> !exists w :: IsSentence(s, input, w)
  {
    hide Generated, NoConflicts, IsSentence, IsRun, Rounds, IsAcyclic;
    UnitsAreAcyclic(s);
    EveryRunEnds(s, input, size, trace, outcome, budget);
    if outcome == Accepted {
      assert IsAcceptingRun(s, input, size, trace, budget);
      AcceptsExactly(s, input);
    }
    if outcome == SyntaxError {
      forall w ensures !IsSentence(s, input, w) {
        if IsSentence(s, input, w) {
          ErrorIsNoSentence(s, input, size, trace, budget, w);
        }
      }
    }
  }

  /** An error is no verdict on a sentence, however short the stack. */
  lemma ErrorIsNoSentence(s: Setup, input: seq<int>, size: nat, trace: seq<Config>, budget: nat, w: seq<int>)
    requires Generated(s) && NoConflicts(s)
    requires IsRun(s, input, size, trace, SyntaxError, budget) && trace[0] == Config([0], -1, 0)
    ensures !IsSentence(s, input, w)
  {
    hide Generated, NoConflicts, IsRun, Accepts, IsTreeOf, Derives, IsInput;
    if IsSentence(s, input, w) {
      SentenceTokens(s, input, w);
      var f := TreeOfSentence(s.g, w);
      var more := size + Size(f) + 1;
      TreeIsAccepted(s, input, more, w, f);
      var run := RunOfAccepts(s, input, more, Config([0], -1, 0), Size(f));
      LongerStack(s, input, size, more, trace, budget);
      if Size(f) <= budget {
        RunIsUnique(s, input, more, run, Accepted, Size(f), trace, SyntaxError, budget);
      } else {
        RunIsUnique(s, input, more, trace, SyntaxError, budget, run, Accepted, Size(f));
      }
    }
  }
}
