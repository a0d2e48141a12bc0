/** set_nullable of byacc/lr0.c: which symbols derive the empty string. */
module Nullable {
  import opened Grammars

  ghost predicate AllIn(w: seq<int>, s: set<int>) {
    forall i :: 0 <= i < |w| ==> w[i] in s
  }

  /** Every rule whose right-hand side lies in s has its left-hand side in s. */
  ghost predicate ClosedUnderRules(g: Grammar, s: set<int>, upTo: nat)
    requires Valid(g)
  {
    forall r :: FIRST_RULE <= r < upTo && IsRule(g, r) && AllIn(Rhs(g, r), s) ==> g.rlhs[r] in s
  }

  ghost predicate DerivesEmpty(g: Grammar, s: set<int>)
    requires Valid(g)
  {
    forall x :: x in s ==> Derives(g, [x], [])
  }

  lemma {:induction false} WordDerivesEmpty(g: Grammar, w: seq<int>, s: set<int>)
    requires Valid(g) && AllIn(w, s) && DerivesEmpty(g, s)
    ensures Derives(g, w, [])
    decreases |w|
  {
    if w == [] {
      DerivesRefl(g, []);
    } else {
      assert w == [w[0]] + w[1..];
      WordDerivesEmpty(g, w[1..], s);
      var empty: seq<int> := [];
      var x := w[0];
      assert x in s;
      DerivesConcat(g, [x], empty, w[1..], empty);
      assert empty + empty == empty;
    }
  }

  /** A rule whose right-hand side is all nullable makes its left-hand side nullable. */
  lemma RuleDerivesEmpty(g: Grammar, r: nat, s: set<int>)
    requires Valid(g) && IsRule(g, r) && AllIn(Rhs(g, r), s) && DerivesEmpty(g, s)
    ensures Derives(g, [g.rlhs[r]], [])
  {
    DerivesRule(g, r);
    WordDerivesEmpty(g, Rhs(g, r), s);
    DerivesTrans(g, [g.rlhs[r]], Rhs(g, r), []);
  }

  /** Whatever derives the empty string lies in every set closed under the rules. */
  lemma {:induction false} EmptyIsLeast(g: Grammar, s: set<int>, d: seq<seq<int>>)
    requires Valid(g) && ClosedUnderRules(g, s, |g.rlhs|)
    requires IsDerivation(g, d) && d[|d| - 1] == []
    ensures AllIn(d[0], s)
    decreases |d|
  {
    if |d| > 1 {
      assert forall k :: 0 <= k < |d[1..]| - 1 ==> Step(g, d[1..][k], d[k + 2]);
      EmptyIsLeast(g, s, d[1..]);
      assert Step(g, d[0], d[0 + 1]);
      var p: nat, r: nat :| StepAt(g, d[0], d[1], p, r);
      StepBack(g, s, d[0], d[1], p, r);
    }
  }

  lemma StepBack(g: Grammar, s: set<int>, a: seq<int>, b: seq<int>, p: nat, r: nat)
    requires Valid(g) && ClosedUnderRules(g, s, |g.rlhs|)
    requires StepAt(g, a, b, p, r) && AllIn(b, s)
    ensures AllIn(a, s)
  {
    var rhs := Rhs(g, r);
    forall i | 0 <= i < |rhs| ensures rhs[i] in s {
      assert b[p + i] == rhs[i];
    }
    forall i | 0 <= i < |a| ensures a[i] in s {
      if i < p {
        assert b[i] == a[i];
      } else if i > p {
        assert b[p + |rhs| + (i - p - 1)] == a[i];
      }
    }
  }

  ghost function Marked(marks: seq<bool>): set<int> {
    set x | 0 <= x < |marks| && marks[x]
  }

  method SetNullable(g: Grammar) returns (nullable: array<bool>)
    requires Valid(g)
    ensures fresh(nullable) && nullable.Length == g.nsyms
    ensures forall x :: 0 <= x < g.nsyms ==> (nullable[x] <==> Derives(g, [x], []))
  {
    nullable := new bool[g.nsyms](_ => false);
    var done := false;
    while !done
      invariant DerivesEmpty(g, Marked(nullable[..]))
      invariant done ==> ClosedUnderRules(g, Marked(nullable[..]), |g.rlhs|)
      decreases AllSymbols(g) - Marked(nullable[..]), !done
    {
      done := ScanRules(g, nullable);
    }
    forall x | 0 <= x < g.nsyms && Derives(g, [x], []) ensures nullable[x] {
      var d :| DerivesBy(g, d, [x], []);
      EmptyIsLeast(g, Marked(nullable[..]), d);
      assert x == d[0][0];
    }
    forall x | 0 <= x < g.nsyms && nullable[x] ensures Derives(g, [x], []) {
      assert x in Marked(nullable[..]);
    }
  }

  ghost function AllSymbols(g: Grammar): set<int> {
    set x | 0 <= x < g.nsyms && IsSymbol(g, x)
  }

  /** One pass over all the items; it reports whether nothing new was marked. */
  method ScanRules(g: Grammar, nullable: array<bool>) returns (done: bool)
    requires Valid(g) && nullable.Length == g.nsyms
    requires DerivesEmpty(g, Marked(nullable[..]))
    modifies nullable
    ensures DerivesEmpty(g, Marked(nullable[..]))
    ensures done ==> nullable[..] == old(nullable[..]) && ClosedUnderRules(g, Marked(nullable[..]), |g.rlhs|)
    ensures !done ==> Marked(nullable[..]) > old(Marked(nullable[..]))
  {
    done := true;
    var i := 1;
    ghost var r := FIRST_RULE;
    while i < |g.ritem|
      invariant FIRST_RULE <= r <= |g.rlhs| && i == g.rrhs[r]
      invariant DerivesEmpty(g, Marked(nullable[..]))
      invariant done ==> nullable[..] == old(nullable[..]) && ClosedUnderRules(g, Marked(nullable[..]), r)
      invariant Marked(nullable[..]) >= old(Marked(nullable[..]))
      invariant !done ==> Marked(nullable[..]) > old(Marked(nullable[..]))
      decreases |g.rlhs| - r
    {
      RuleStarts(g, r);
      assert ValidRule(g, r);
      var empty;
      i, empty := ScanRhs(g, nullable, i, r);
      if empty {
        var j := g.rlhs[-g.ritem[i]];
        assert IsSymbol(g, j);
        RuleDerivesEmpty(g, r, Marked(nullable[..]));
        if !nullable[j] {
          Mark(nullable, j);
          done := false;
        }
      }
      i := i + 1;
      r := r + 1;
    }
    RuleStarts(g, r);
  }

  /** Runs to the end marker of rule r, noting whether every symbol passed is nullable. */
  method ScanRhs(g: Grammar, nullable: array<bool>, start: nat, ghost r: nat) returns (i: nat, empty: bool)
    requires Valid(g) && nullable.Length == g.nsyms
    requires IsRule(g, r) && start == g.rrhs[r]
    ensures i + 1 == g.rrhs[r + 1] && i < |g.ritem| && g.ritem[i] == -(r as int)
    ensures empty <==> AllIn(Rhs(g, r), Marked(nullable[..]))
  {
    assert ValidRule(g, r);
    i, empty := start, true;
    AtItem(g, r, i);
    while g.ritem[i] >= 0
      invariant InRule(g, r, i) && i < |g.ritem|
      invariant empty <==> AllIn(Rhs(g, r)[..i - start], Marked(nullable[..]))
      decreases g.rrhs[r + 1] - i
    {
      AtItem(g, r, i);
      if !nullable[g.ritem[i]] {
        empty := false;
      }
      i := i + 1;
      AtItem(g, r, i);
    }
    AtItem(g, r, i);
    assert Rhs(g, r)[..i - start] == Rhs(g, r);
  }

  method Mark(nullable: array<bool>, j: int)
    requires 0 <= j < nullable.Length
    modifies nullable
    ensures Marked(nullable[..]) == old(Marked(nullable[..])) + {j}
  {
    nullable[j] := true;
  }
}
