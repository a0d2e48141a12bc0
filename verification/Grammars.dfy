/** The packed grammar that byacc/reader.c leaves behind, and the language it stands for. */
module Grammars {

  /** The arrays filled by pack_symbols and pack_grammar. Tokens are numbered below
      `ntokens`, nonterminals from `ntokens` (the start symbol) up to `nsyms`.
      The items of rule r are ritem[rrhs[r]..rrhs[r + 1]], and the last of them is -r. */
  datatype Grammar = Grammar(ntokens: nat, nsyms: nat, ritem: seq<int>, rlhs: seq<int>, rrhs: seq<nat>)

  const END := 0    // the token $end
  const FIRST_RULE := 2    // $accept: goal $end

  /** ISVAR */
  predicate IsVar(g: Grammar, symbol: int) {
    symbol >= g.ntokens
  }

  predicate IsSymbol(g: Grammar, symbol: int) {
    0 <= symbol < g.nsyms
  }

  function NRules(g: Grammar): nat {
    |g.rlhs|
  }

  /** $accept, called start_symbol in the source. */
  function StartSymbol(g: Grammar): nat {
    g.ntokens
  }

  function Goal(g: Grammar): nat {
    g.ntokens + 1
  }

  /** The layout that every later phase reads. */
  ghost predicate Valid(g: Grammar) {
    && 2 <= g.ntokens && g.ntokens + 2 <= g.nsyms
    && 3 <= |g.rlhs| && |g.rrhs| == |g.rlhs| + 1
    && 4 <= |g.ritem| == g.rrhs[|g.rlhs|]
    && g.ritem[0] == -1 && g.ritem[1] == Goal(g) && g.ritem[2] == END && g.ritem[3] == -2
    && g.rlhs[0] == 0 && g.rlhs[1] == 0 && g.rlhs[2] == StartSymbol(g)
    && g.rrhs[0] == 0 && g.rrhs[1] == 0 && g.rrhs[2] == 1 && g.rrhs[3] == 4
    && (forall r :: FIRST_RULE <= r < |g.rlhs| ==> ValidRule(g, r))
  }

  ghost predicate ValidRule(g: Grammar, r: int)
    requires 0 <= r < |g.rlhs| && |g.rrhs| == |g.rlhs| + 1
  {
    && g.rrhs[r] < g.rrhs[r + 1] <= |g.ritem|
    && g.ritem[g.rrhs[r + 1] - 1] == -r
    && (forall i :: g.rrhs[r] <= i < g.rrhs[r + 1] - 1 ==> IsSymbol(g, g.ritem[i]))
    && (r > FIRST_RULE ==>
      && StartSymbol(g) < g.rlhs[r] < g.nsyms
      && forall i :: g.rrhs[r] <= i < g.rrhs[r + 1] - 1 ==> g.ritem[i] != END && g.ritem[i] != StartSymbol(g))
  }

  predicate IsRule(g: Grammar, r: int) {
    FIRST_RULE <= r < |g.rlhs|
  }

  /** The right-hand side of rule r. */
  function Rhs(g: Grammar, r: nat): (rhs: seq<int>)
    requires Valid(g) && IsRule(g, r)
    ensures |rhs| == g.rrhs[r + 1] - 1 - g.rrhs[r]
  {
    assert ValidRule(g, r);
    g.ritem[g.rrhs[r]..g.rrhs[r + 1] - 1]
  }

  lemma {:induction false} RulesAscend(g: Grammar, r: nat, q: nat)
    requires Valid(g) && FIRST_RULE <= r < q <= |g.rlhs|
    ensures 1 <= g.rrhs[r] < g.rrhs[r + 1] <= g.rrhs[q] <= |g.ritem|
    decreases q - r
  {
    assert ValidRule(g, r);
    if r > FIRST_RULE {
      LowestRule(g, r);
    }
    if r + 1 < q {
      RulesAscend(g, r + 1, q);
    }
  }

  lemma {:induction false} LowestRule(g: Grammar, r: nat)
    requires Valid(g) && FIRST_RULE <= r <= |g.rlhs|
    ensures 1 <= g.rrhs[r] <= |g.ritem|
  {
    if r > FIRST_RULE {
      assert ValidRule(g, r - 1);
      LowestRule(g, r - 1);
    }
  }

  /** i is a dot position inside rule r. */
  predicate InRule(g: Grammar, r: int, i: int) {
    IsRule(g, r) && |g.rrhs| == |g.rlhs| + 1 && g.rrhs[r] <= i < g.rrhs[r + 1]
  }

  lemma RuleStarts(g: Grammar, r: nat)
    requires Valid(g) && FIRST_RULE <= r <= |g.rlhs|
    ensures g.rrhs[r] < |g.ritem| <==> r < |g.rlhs|
  {
    if r < |g.rlhs| {
      RulesAscend(g, r, |g.rlhs|);
    }
  }

  /** What stands at a position of rule r: a symbol of its right-hand side, or its end marker. */
  lemma AtItem(g: Grammar, r: nat, i: nat)
    requires Valid(g) && InRule(g, r, i)
    ensures 1 <= i < |g.ritem|
    ensures if i < g.rrhs[r + 1] - 1 then IsSymbol(g, g.ritem[i]) && g.ritem[i] == Rhs(g, r)[i - g.rrhs[r]]
            else g.ritem[i] == -(r as int) && i - g.rrhs[r] == |Rhs(g, r)|
  {
    LowestRule(g, r);
    assert ValidRule(g, r);
  }

  /** The symbols of a user rule are neither $end nor the start symbol. */
  lemma RhsSymbol(g: Grammar, r: nat, j: nat)
    requires Valid(g) && IsRule(g, r) && r > FIRST_RULE && j < |Rhs(g, r)|
    ensures InRule(g, r, g.rrhs[r] + j) && g.rrhs[r] + j < |g.ritem| && g.ritem[g.rrhs[r] + j] == Rhs(g, r)[j]
    ensures 0 < Rhs(g, r)[j] < g.nsyms && Rhs(g, r)[j] != StartSymbol(g)
  {
    assert ValidRule(g, r);
    AtItem(g, r, g.rrhs[r] + j);
  }

  /** Every position after the first lies in exactly one rule. */
  lemma {:induction false} RuleOfItem(g: Grammar, i: nat, q: nat) returns (r: nat)
    requires Valid(g) && FIRST_RULE < q <= |g.rlhs| && 1 <= i < g.rrhs[q]
    ensures InRule(g, r, i)
    decreases q
  {
    if g.rrhs[q - 1] <= i {
      r := q - 1;
    } else {
      r := RuleOfItem(g, i, q - 1);
    }
  }

  lemma OneRuleOfItem(g: Grammar, i: nat, r: nat, q: nat)
    requires Valid(g) && InRule(g, r, i) && InRule(g, q, i)
    ensures r == q
  {
    if r < q {
      RulesAscend(g, r, q);
    } else if q < r {
      RulesAscend(g, q, r);
    }
  }

  // ---------- Derivations ----------

  /** b is a with the nonterminal at position p replaced by the right-hand side of rule r. */
  ghost predicate StepAt(g: Grammar, a: seq<int>, b: seq<int>, p: nat, r: nat)
    requires Valid(g)
  {
    p < |a| && IsRule(g, r) && a[p] == g.rlhs[r] && b == a[..p] + Rhs(g, r) + a[p + 1..]
  }

  ghost predicate Step(g: Grammar, a: seq<int>, b: seq<int>)
    requires Valid(g)
  {
    exists p: nat, r: nat :: StepAt(g, a, b, p, r)
  }

  /** A derivation: consecutive sentential forms differ by one step. */
  ghost predicate IsDerivation(g: Grammar, d: seq<seq<int>>)
    requires Valid(g)
  {
    |d| > 0 && forall k :: 0 <= k < |d| - 1 ==> Step(g, d[k], d[k + 1])
  }

  ghost predicate DerivesBy(g: Grammar, d: seq<seq<int>>, a: seq<int>, b: seq<int>)
    requires Valid(g)
  {
    IsDerivation(g, d) && d[0] == a && d[|d| - 1] == b
  }

  /** a derives b in zero or more steps. */
  ghost predicate Derives(g: Grammar, a: seq<int>, b: seq<int>)
    requires Valid(g)
  {
    exists d :: DerivesBy(g, d, a, b)
  }

  lemma DerivesRefl(g: Grammar, a: seq<int>)
    requires Valid(g)
    ensures Derives(g, a, a)
  {
    assert DerivesBy(g, [a], a, a);
  }

  lemma DerivesTrans(g: Grammar, a: seq<int>, b: seq<int>, c: seq<int>)
    requires Valid(g) && Derives(g, a, b) && Derives(g, b, c)
    ensures Derives(g, a, c)
  {
    var d :| DerivesBy(g, d, a, b);
    var e :| DerivesBy(g, e, b, c);
    var f := d + e[1..];
    forall k | 0 <= k < |f| - 1 ensures Step(g, f[k], f[k + 1]) {
      if k >= |d| - 1 {
        assert f[k] == e[k - (|d| - 1)] && f[k + 1] == e[k + 1 - (|d| - 1)];
      }
    }
    assert DerivesBy(g, f, a, c);
  }

  lemma StepInContext(g: Grammar, before: seq<int>, a: seq<int>, b: seq<int>, after: seq<int>)
    requires Valid(g) && Step(g, a, b)
    ensures Step(g, before + a + after, before + b + after)
  {
    var p: nat, r: nat :| StepAt(g, a, b, p, r);
    hide Valid;
    var x, q, rhs := before + a + after, |before| + p, Rhs(g, r);
    assert x[..q] == before + a[..p];
    assert x[q + 1..] == a[p + 1..] + after;
    assert before + (a[..p] + rhs + a[p + 1..]) + after == (before + a[..p]) + rhs + (a[p + 1..] + after);
    assert StepAt(g, x, before + b + after, q, r);
  }

  lemma {:induction false} DerivationInContext(g: Grammar, d: seq<seq<int>>, before: seq<int>, after: seq<int>)
    requires Valid(g) && IsDerivation(g, d)
    ensures Derives(g, before + d[0] + after, before + d[|d| - 1] + after)
    decreases |d|
  {
    if |d| == 1 {
      DerivesRefl(g, before + d[0] + after);
    } else {
      assert Step(g, d[0], d[0 + 1]);
      StepInContext(g, before, d[0], d[1], after);
      assert DerivesBy(g, [before + d[0] + after, before + d[1] + after], before + d[0] + after, before + d[1] + after);
      assert forall k :: 0 <= k < |d[1..]| - 1 ==> Step(g, d[1..][k], d[k + 2]);
      DerivationInContext(g, d[1..], before, after);
      DerivesTrans(g, before + d[0] + after, before + d[1] + after, before + d[|d| - 1] + after);
    }
  }

  lemma DerivesInContext(g: Grammar, before: seq<int>, a: seq<int>, b: seq<int>, after: seq<int>)
    requires Valid(g) && Derives(g, a, b)
    ensures Derives(g, before + a + after, before + b + after)
  {
    var d :| DerivesBy(g, d, a, b);
    DerivationInContext(g, d, before, after);
  }

  lemma DerivesConcat(g: Grammar, a: seq<int>, b: seq<int>, c: seq<int>, d: seq<int>)
    requires Valid(g) && Derives(g, a, b) && Derives(g, c, d)
    ensures Derives(g, a + c, b + d)
  {
    DerivesInContext(g, [], a, b, c);
    DerivesInContext(g, b, c, d, []);
    assert [] + a + c == a + c && [] + b + c == b + c && b + c + [] == b + c && b + d + [] == b + d;
    DerivesTrans(g, a + c, b + c, b + d);
  }

  lemma DerivesRule(g: Grammar, r: nat)
    requires Valid(g) && IsRule(g, r)
    ensures Derives(g, [g.rlhs[r]], Rhs(g, r))
  {
    var a := [g.rlhs[r]];
    assert a[..0] + Rhs(g, r) + a[1..] == Rhs(g, r);
    assert StepAt(g, a, Rhs(g, r), 0, r);
    assert DerivesBy(g, [a, Rhs(g, r)], a, Rhs(g, r));
  }
}
