/** Parse trees: every derivation of a string of tokens has one. */
module Trees {
  import opened Grammars
  import opened Relations

  /** A row of parse trees: the first is a token, or a rule with the trees of its right-hand side. */
  datatype Forest = Nil | Token(x: int, rest: Forest) | Node(rule: nat, children: Forest, rest: Forest)

  function Roots(g: Grammar, f: Forest): seq<int> {
    match f
    case Nil => []
    case Token(x, rest) => [x] + Roots(g, rest)
    case Node(r, _, rest) => [if r < |g.rlhs| then g.rlhs[r] else 0] + Roots(g, rest)
  }

  function Yield(f: Forest): seq<int> {
    match f
    case Nil => []
    case Token(x, rest) => [x] + Yield(rest)
    case Node(_, children, rest) => Yield(children) + Yield(rest)
  }

  /** The tokens of the first tree. */
  function FirstYield(f: Forest): seq<int> {
    match f
    case Nil => []
    case Token(x, _) => [x]
    case Node(_, children, _) => Yield(children)
  }

  lemma YieldParts(f: Forest)
    requires f != Nil
    ensures Yield(f) == FirstYield(f) + Yield(f.rest)
  {
  }

  /** From place n on, w goes on with y. */
  predicate GoesOn(w: seq<int>, n: nat, y: seq<int>) {
    n + |y| <= |w| && forall i :: 0 <= i < |y| ==> w[n + i] == y[i]
  }

  lemma GoesOnInParts(w: seq<int>, n: nat, x: seq<int>, y: seq<int>)
    requires GoesOn(w, n, x + y)
    ensures GoesOn(w, n, x) && GoesOn(w, n + |x|, y)
  {
    forall i | 0 <= i < |x| ensures w[n + i] == x[i] {
      assert (x + y)[i] == x[i];
    }
    forall i | 0 <= i < |y| ensures w[n + |x| + i] == y[i] {
      assert (x + y)[|x| + i] == y[i];
    }
  }

  /** The number of tokens and rules. */
  function Size(f: Forest): nat {
    match f
    case Nil => 0
    case Token(_, rest) => 1 + Size(rest)
    case Node(_, children, rest) => 1 + Size(children) + Size(rest)
  }

  ghost predicate IsForest(g: Grammar, f: Forest)
    requires Valid(g)
  {
    match f
    case Nil => true
    case Token(x, rest) => 0 < x < g.ntokens && IsForest(g, rest)
    case Node(r, children, rest) =>
      IsRule(g, r) && r > FIRST_RULE && Roots(g, children) == Rhs(g, r) && IsForest(g, children) && IsForest(g, rest)
  }

  predicate AllTokens(g: Grammar, w: seq<int>) {
    forall i :: 0 <= i < |w| ==> 0 < w[i] < g.ntokens
  }

  /** A parse tree of w, with the goal at its root. */
  ghost predicate IsTreeOf(g: Grammar, f: Forest, w: seq<int>)
    requires Valid(g)
  {
    IsForest(g, f) && f.Node? && f.rest == Nil && g.rlhs[f.rule] == Goal(g) && Yield(f.children) == w
  }

  // ---------- From a derivation to trees ----------

  /** A token for each symbol of w. */
  function Leaves(w: seq<int>): Forest {
    if w == [] then Nil else Token(w[0], Leaves(w[1..]))
  }

  lemma {:induction false} LeavesAre(g: Grammar, w: seq<int>)
    requires Valid(g) && AllTokens(g, w)
    ensures IsForest(g, Leaves(w)) && Roots(g, Leaves(w)) == w && Yield(Leaves(w)) == w
    decreases |w|
  {
    hide Valid;
    if w != [] {
      LeavesAre(g, w[1..]);
      assert w == [w[0]] + w[1..];
    }
  }

  /** The first m trees, and the others. */
  function Take(f: Forest, m: nat): Forest {
    if m == 0 then Nil
    else
      match f
      case Nil => Nil
      case Token(x, rest) => Token(x, Take(rest, m - 1))
      case Node(r, children, rest) => Node(r, children, Take(rest, m - 1))
  }

  function Drop(f: Forest, m: nat): Forest {
    if m == 0 || f == Nil then f else Drop(f.rest, m - 1)
  }

  lemma {:induction false} Split(g: Grammar, f: Forest, m: nat)
    requires Valid(g) && IsForest(g, f) && m <= |Roots(g, f)|
    ensures IsForest(g, Take(f, m)) && IsForest(g, Drop(f, m))
    ensures Roots(g, Take(f, m)) == Roots(g, f)[..m] && Roots(g, Drop(f, m)) == Roots(g, f)[m..]
    ensures Yield(f) == Yield(Take(f, m)) + Yield(Drop(f, m))
    decreases m
  {
    hide Valid;
    if m > 0 && f != Nil {
      Split(g, f.rest, m - 1);
      assert Roots(g, f)[..m] == [Roots(g, f)[0]] + Roots(g, f.rest)[..m - 1];
      assert Roots(g, f)[m..] == Roots(g, f.rest)[m - 1..];
      if f.Node? {
        assert Yield(f.children) + (Yield(Take(f.rest, m - 1)) + Yield(Drop(f.rest, m - 1)))
            == Yield(f.children) + Yield(Take(f.rest, m - 1)) + Yield(Drop(f.rest, m - 1));
      } else {
        assert [f.x] + (Yield(Take(f.rest, m - 1)) + Yield(Drop(f.rest, m - 1)))
            == [f.x] + Yield(Take(f.rest, m - 1)) + Yield(Drop(f.rest, m - 1));
      }
    }
  }

  /** The m trees behind the first p become the children of rule r. */
  function Group(f: Forest, p: nat, m: nat, r: nat): Forest {
    if p == 0 then Node(r, Take(f, m), Drop(f, m))
    else
      match f
      case Nil => Nil
      case Token(x, rest) => Token(x, Group(rest, p - 1, m, r))
      case Node(q, children, rest) => Node(q, children, Group(rest, p - 1, m, r))
  }

  lemma {:induction false} GroupIs(g: Grammar, f: Forest, p: nat, r: nat, a: seq<int>)
    requires Valid(g) && IsForest(g, f) && IsRule(g, r) && r > FIRST_RULE && StepAt(g, a, Roots(g, f), p, r)
    ensures var h := Group(f, p, |Rhs(g, r)|, r); IsForest(g, h) && Roots(g, h) == a && Yield(h) == Yield(f)
    decreases p
  {
    hide Valid;
    var m, b := |Rhs(g, r)|, Roots(g, f);
    if p == 0 {
      assert b[..m] == Rhs(g, r) && b[m..] == a[1..];
      Split(g, f, m);
      assert a == [a[0]] + a[1..];
    } else {
      assert a[0] == a[..p][0] == b[0];
      assert StepAt(g, a[1..], b[1..], p - 1, r) by {
        StepBehind(g, a, b, p, r);
      }
      assert b == [b[0]] + Roots(g, f.rest) && b[1..] == Roots(g, f.rest);
      GroupIs(g, f.rest, p - 1, r, a[1..]);
      assert a == [a[0]] + a[1..];
    }
  }

  lemma StepBehind(g: Grammar, a: seq<int>, b: seq<int>, p: nat, r: nat)
    requires Valid(g) && StepAt(g, a, b, p, r) && p > 0
    ensures |b| > 0 && StepAt(g, a[1..], b[1..], p - 1, r)
  {
    hide Valid;
    var c, w := a[1..], Rhs(g, r);
    assert a[..p] == [a[0]] + c[..p - 1] && a[p + 1..] == c[p..];
    assert b == [a[0]] + (c[..p - 1] + w + c[p..]);
  }

  predicate NoStart(g: Grammar, w: seq<int>) {
    StartSymbol(g) !in w
  }

  lemma StepKeepsNoStart(g: Grammar, a: seq<int>, b: seq<int>, p: nat, r: nat)
    requires Valid(g) && StepAt(g, a, b, p, r) && NoStart(g, a)
    ensures r > FIRST_RULE && NoStart(g, b)
  {
    assert a[p] in a;
    if r == FIRST_RULE {
      assert false;
    }
    forall j | 0 <= j < |Rhs(g, r)| ensures Rhs(g, r)[j] != StartSymbol(g) {
      RhsSymbol(g, r, j);
    }
    forall i | 0 <= i < |b| ensures b[i] != StartSymbol(g) {
      var m := |Rhs(g, r)|;
      if i < p {
        assert b[i] == a[i];
      } else if i < p + m {
        assert b[i] == Rhs(g, r)[i - p];
      } else {
        assert b[i] == a[i - m + 1];
      }
    }
  }

  lemma {:induction false} ForestOfDerivation(g: Grammar, d: seq<seq<int>>) returns (f: Forest)
    requires Valid(g) && IsDerivation(g, d) && NoStart(g, d[0]) && AllTokens(g, d[|d| - 1])
    ensures IsForest(g, f) && Roots(g, f) == d[0] && Yield(f) == d[|d| - 1]
    decreases |d|
  {
    hide Valid, StepAt, NoStart;
    if |d| == 1 {
      f := Leaves(d[0]);
      LeavesAre(g, d[0]);
    } else {
      assert Step(g, d[0], d[0 + 1]);
      var p: nat, r: nat :| StepAt(g, d[0], d[1], p, r);
      StepKeepsNoStart(g, d[0], d[1], p, r);
      forall k | 0 <= k < |d[1..]| - 1 ensures Step(g, d[1..][k], d[1..][k + 1]) {
        assert Step(g, d[k + 1], d[k + 1 + 1]);
      }
      var h := ForestOfDerivation(g, d[1..]);
      StepIsRule(g, d[0], d[1], p, r);
      GroupIs(g, h, p, r, d[0]);
      f := Group(h, p, |Rhs(g, r)|, r);
    }
  }

  lemma StepIsRule(g: Grammar, a: seq<int>, b: seq<int>, p: nat, r: nat)
    requires Valid(g) && StepAt(g, a, b, p, r)
    ensures IsRule(g, r)
  {
  }

  /** A sentence has a parse tree whose root is the goal. */
  lemma TreeOfSentence(g: Grammar, w: seq<int>) returns (f: Forest)
    requires Valid(g) && Derives(g, [Goal(g)], w) && AllTokens(g, w)
    ensures IsTreeOf(g, f, w)
  {
    var d :| DerivesBy(g, d, [Goal(g)], w);
    f := ForestOfDerivation(g, d);
    assert |Roots(g, f)| == 1;
    assert f != Nil && Roots(g, f) == [Roots(g, f)[0]] + Roots(g, f.rest);
    assert Roots(g, f.rest) == [] && f.rest == Nil;
    assert Roots(g, f)[0] == Goal(g);
    if f.Node? {
      assert Yield(f) == Yield(f.children) + [];
    }
  }

  // ---------- From trees to derivations ----------

  /** Trees without tokens have nullable roots. */
  lemma {:induction false} EmptyYield(g: Grammar, f: Forest)
    requires Valid(g) && IsForest(g, f) && Yield(f) == []
    ensures AllNullable(g, Roots(g, f)) && Derives(g, Roots(g, f), [])
    decreases f
  {
    hide Valid, Derives;
    match f
    case Nil => DerivesRefl(g, []);
    case Token(x, rest) => assert false;
    case Node(r, children, rest) =>
      EmptyYield(g, children);
      EmptyYield(g, rest);
      DerivesRule(g, r);
      DerivesTrans(g, [g.rlhs[r]], Rhs(g, r), []);
      DerivesConcat(g, [g.rlhs[r]], [], Roots(g, rest), []);
      var none: seq<int> := [];
      assert none + none == none;
      var w := Roots(g, f);
      forall i | 0 <= i < |w| ensures IsNullable(g, w[i]) {
        if i > 0 {
          assert w[i] == Roots(g, rest)[i - 1];
        }
      }
  }
}
