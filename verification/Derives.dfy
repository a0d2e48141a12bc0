/** set_derives of byacc/lr0.c: for each nonterminal, the list of its rules, ended by -1. */
module Derives {
  import opened Grammars

  /** The rules below n whose left-hand side is `lhs`, in ascending order. */
  function RulesOf(g: Grammar, lhs: int, n: nat): (rules: seq<int>)
    requires n <= |g.rlhs|
  {
    if n == 0 then
      []
    else
      RulesOf(g, lhs, n - 1) + if g.rlhs[n - 1] == lhs then [n - 1] else []
  }

  lemma {:induction false} RulesOfMember(g: Grammar, lhs: int, n: nat, r: int)
    requires n <= |g.rlhs|
    ensures r in RulesOf(g, lhs, n) <==> 0 <= r < n && g.rlhs[r] == lhs
  {
    if n > 0 {
      RulesOfMember(g, lhs, n - 1, r);
    }
  }

  /** `list`, starting at offset p of `rules`, is the list of the rules of lhs. */
  ghost predicate ListAt(g: Grammar, rules: seq<int>, p: nat, lhs: int) {
    p <= |rules| && RulesOf(g, lhs, |g.rlhs|) + [-1] <= rules[p..]
  }

  /** Entry m of the list that `derives` points at. */
  lemma ListEntry(g: Grammar, rules: seq<int>, p: nat, lhs: int, m: nat)
    requires ListAt(g, rules, p, lhs) && m <= |RulesOf(g, lhs, |g.rlhs|)|
    ensures p + m < |rules| && rules[p + m] == (RulesOf(g, lhs, |g.rlhs|) + [-1])[m]
    ensures rules[p + m] < 0 <==> m == |RulesOf(g, lhs, |g.rlhs|)|
  {
    var list := RulesOf(g, lhs, |g.rlhs|) + [-1];
    assert list == rules[p..][..|list|];
    if m < |list| - 1 {
      RulesOfMember(g, lhs, |g.rlhs|, list[m]);
    }
  }

  /** derives[lhs - start_symbol] points at the rules of lhs. */
  ghost predicate IsDerives(g: Grammar, derives: seq<nat>, rules: seq<int>) {
    && g.ntokens + |derives| == g.nsyms
    && forall v :: 0 <= v < |derives| ==> ListAt(g, rules, derives[v], g.ntokens + v)
  }

  /** How many rules below n have a left-hand side from the start symbol up to `bound`. */
  ghost function CountBelow(g: Grammar, bound: int, n: nat): (c: nat)
    requires n <= |g.rlhs|
    ensures c <= n
  {
    if n == 0 then 0
    else CountBelow(g, bound, n - 1) + if g.ntokens <= g.rlhs[n - 1] < bound then 1 else 0
  }

  lemma {:induction false} CountNext(g: Grammar, lhs: int, n: nat)
    requires n <= |g.rlhs| && g.ntokens <= lhs
    ensures CountBelow(g, lhs + 1, n) == CountBelow(g, lhs, n) + |RulesOf(g, lhs, n)|
  {
    if n > 0 {
      CountNext(g, lhs, n - 1);
    }
  }

  lemma {:induction false} CountNone(g: Grammar, n: nat)
    requires n <= |g.rlhs|
    ensures CountBelow(g, g.ntokens, n) == 0
  {
    if n > 0 {
      CountNone(g, n - 1);
    }
  }

  lemma ListKept(g: Grammar, a: seq<int>, b: seq<int>, p: nat, lhs: int)
    requires ListAt(g, a, p, lhs) && a <= b
    ensures ListAt(g, b, p, lhs)
  {
    assert a[p..] <= b[p..];
  }

  ghost predicate ListsUpTo(g: Grammar, derives: seq<nat>, rules: seq<int>) {
    forall v :: 0 <= v < |derives| ==> ListAt(g, rules, derives[v], g.ntokens + v)
  }

  lemma NextList(g: Grammar, derives: seq<nat>, a: seq<int>, b: seq<int>)
    requires ListsUpTo(g, derives, a)
    requires b == a + RulesOf(g, g.ntokens + |derives|, |g.rlhs|) + [-1]
    ensures ListsUpTo(g, derives + [|a|], b)
  {
    var longer := derives + [|a|];
    var list := RulesOf(g, g.ntokens + |derives|, |g.rlhs|) + [-1];
    assert b == a + list && b[|a|..] == list;
    forall v | 0 <= v < |longer| ensures ListAt(g, b, longer[v], g.ntokens + v) {
      if v < |derives| {
        ListKept(g, a, b, derives[v], g.ntokens + v);
      }
    }
  }

  method SetDerives(g: Grammar) returns (derives: array<nat>, rules: array<int>)
    requires Valid(g)
    ensures fresh(derives) && fresh(rules)
    ensures IsDerives(g, derives[..], rules[..])
  {
    var nvars := g.nsyms - g.ntokens;
    derives := new nat[nvars];
    rules := new int[nvars + NRules(g)];
    var k := 0;
    CountNone(g, NRules(g));
    for lhs := g.ntokens to g.nsyms
      invariant k == (lhs - g.ntokens) + CountBelow(g, lhs, NRules(g))
      invariant k <= rules.Length && ListsUpTo(g, derives[..lhs - g.ntokens], rules[..k])
    {
      CountNext(g, lhs, NRules(g));
      ghost var v, before := lhs - g.ntokens, rules[..k];
      NextList(g, derives[..v], before, before + RulesOf(g, lhs, NRules(g)) + [-1]);
      derives[lhs - g.ntokens] := k;
      assert derives[..v + 1] == derives[..v] + [k];
      k := ListRules(g, rules, lhs, k);
    }
    forall v | 0 <= v < nvars ensures ListAt(g, rules[..], derives[v], g.ntokens + v) {
      assert derives[..][v] == derives[v];
      ListKept(g, rules[..k], rules[..], derives[v], g.ntokens + v);
    }
  }

  /** Appends the rules of lhs and the end mark at position start. */
  method ListRules(g: Grammar, rules: array<int>, lhs: int, start: nat) returns (k: nat)
    requires start + |RulesOf(g, lhs, NRules(g))| < rules.Length
    modifies rules
    ensures k == start + |RulesOf(g, lhs, NRules(g))| + 1 <= rules.Length
    ensures rules[..k] == old(rules[..start]) + RulesOf(g, lhs, NRules(g)) + [-1]
  {
    k := start;
    ghost var before := rules[..start];
    for i := 0 to NRules(g)
      invariant k == start + |RulesOf(g, lhs, i)|
      invariant |RulesOf(g, lhs, i)| <= |RulesOf(g, lhs, NRules(g))|
      invariant rules[..k] == before + RulesOf(g, lhs, i)
    {
      RulesOfGrows(g, lhs, i + 1, NRules(g));
      if g.rlhs[i] == lhs {
        rules[k] := i;
        k := k + 1;
        assert rules[..k] == rules[..k - 1] + [i];
      }
    }
    rules[k] := -1;
    k := k + 1;
    assert rules[..k] == rules[..k - 1] + [-1];
  }

  lemma RulesOfGrows(g: Grammar, lhs: int, m: nat, n: nat)
    requires m <= n <= |g.rlhs|
    ensures |RulesOf(g, lhs, m)| <= |RulesOf(g, lhs, n)|
  {
  }
}
