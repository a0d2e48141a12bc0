/** byacc/closure.c: the closure of a nucleus of items, computed with packed rows of bits. */
module Closure {
  import opened Bits
  import opened Graphs
  import opened Warshall
  import opened Grammars
  import opened Derives
  import opened Sequences
  import opened Items

  // ---------- set_EFF ----------

  ghost predicate AreRules(g: Grammar, list: seq<int>) {
    forall k :: 0 <= k < |list| ==> IsRule(g, list[k])
  }

  /** The bits that scanning the first m rules of `list` sets in a row of EFF. */
  ghost function LeftBits(g: Grammar, list: seq<int>, m: nat): set<nat>
    requires Valid(g) && m <= |list| && AreRules(g, list)
  {
    if m == 0 then {}
    else
      var symbol := Leftmost(g, list[m - 1]);
      var bits := LeftBits(g, list, m - 1);
      if IsVar(g, symbol) then bits + {symbol - g.ntokens} else bits
  }

  lemma {:induction false} LeftBitsMember(g: Grammar, list: seq<int>, m: nat, w: nat)
    requires Valid(g) && m <= |list| && AreRules(g, list)
    ensures w in LeftBits(g, list, m) <==> exists k :: 0 <= k < m && Leftmost(g, list[k]) == g.ntokens + w
  {
    if m > 0 {
      LeftBitsMember(g, list, m - 1, w);
      if w in LeftBits(g, list, m) && w !in LeftBits(g, list, m - 1) {
        assert Leftmost(g, list[m - 1]) == g.ntokens + w;
      }
    }
  }

  lemma ListOfRules(g: Grammar, a: int)
    requires Valid(g) && IsVar(g, a)
    ensures AreRules(g, RulesOf(g, a, |g.rlhs|))
  {
    var list := RulesOf(g, a, |g.rlhs|);
    forall k | 0 <= k < |list| ensures IsRule(g, list[k]) {
      RulesOfMember(g, a, |g.rlhs|, list[k]);
      LhsIsVar(g, list[k]);
    }
  }

  lemma LeftRow(g: Grammar, v: nat)
    requires Valid(g) && v < NVars(g)
    ensures var list := RulesOf(g, g.ntokens + v, |g.rlhs|);
            AreRules(g, list) && LeftBits(g, list, |list|) == LeftGraph(g)[v]
  {
    var a := g.ntokens + v;
    var list := RulesOf(g, a, |g.rlhs|);
    ListOfRules(g, a);
    forall w: nat ensures w in LeftBits(g, list, |list|) <==> w in LeftGraph(g)[v] {
      LeftBitsMember(g, list, |list|, w);
      if w in LeftBits(g, list, |list|) {
        var k :| 0 <= k < |list| && Leftmost(g, list[k]) == g.ntokens + w;
        RulesOfMember(g, a, |g.rlhs|, list[k]);
        LeftmostInRange(g, list[k]);
        assert LeftEdge(g, a, g.ntokens + w);
        assert LeftNodes(g, v, w);
      }
      if w in LeftGraph(g)[v] {
        assert LeftNodes(g, v, w);
        var r :| IsRule(g, r) && g.rlhs[r] == a && Leftmost(g, r) == g.ntokens + w;
        RulesOfMember(g, a, |g.rlhs|, r);
      }
    }
  }

  lemma LeftmostInRange(g: Grammar, r: int)
    requires Valid(g) && IsRule(g, r)
    ensures Leftmost(g, r) < g.nsyms
  {
    assert ValidRule(g, r);
    AtItem(g, r, g.rrhs[r]);
  }

  method SetEFF(g: Grammar, derives: array<nat>, rules: array<int>) returns (EFF: array<Word>)
    requires Valid(g) && IsDerives(g, derives[..], rules[..])
    ensures fresh(EFF) && EFF.Length == Start(NVars(g), WordSize(NVars(g)))
    ensures Rows(EFF[..], WordSize(NVars(g)), NVars(g)) == StarClosure(LeftGraph(g))
  {
    hide RowSet, Row, Mask;
    var nvars := g.nsyms - g.ntokens;
    var rowsize := WordSize(nvars);
    var size := RowPointer(nvars, rowsize);
    EFF := new Word[size](_ => ZERO);
    ZeroTable(EFF[..], rowsize, nvars);
    var row := 0;
    ghost var h := LeftGraph(g);
    for i := g.ntokens to g.nsyms
      invariant row == Start(i - g.ntokens, rowsize)
      invariant Rows(EFF[..], rowsize, nvars) == h[..i - g.ntokens] + seq(g.nsyms - i, _ => {})
    {
      ghost var v := i - g.ntokens;
      ghost var before := Rows(EFF[..], rowsize, nvars);
      assert ListAt(g, rules[..], derives[..][v], i);
      SetLeftBits(g, rules, derives[i - g.ntokens], EFF, row, rowsize, nvars, v);
      assert before[v := h[v]] == h[..v + 1] + seq(g.nsyms - (i + 1), _ => {});
      row := row + rowsize;
    }
    assert h[..nvars] + seq(0, _ => {}) == h;
    ReflexiveTransitiveClosure(EFF, nvars);
  }

  method SetLeftBits(g: Grammar, rules: array<int>, first: nat, EFF: array<Word>, row: nat, ghost rowsize: nat,
                     ghost nvars: nat, ghost v: nat)
    requires Valid(g) && nvars == NVars(g) <= 32 * rowsize && v < nvars
    requires ListAt(g, rules[..], first, g.ntokens + v)
    requires Start(nvars, rowsize) <= EFF.Length && row == Start(v, rowsize)
    requires Rows(EFF[..], rowsize, nvars)[v] == {}
    modifies EFF
    ensures Rows(EFF[..], rowsize, nvars) == old(Rows(EFF[..], rowsize, nvars))[v := LeftGraph(g)[v]]
  {
    hide RowSet, Row, Mask;
    ghost var a := g.ntokens + v;
    ghost var list := RulesOf(g, a, |g.rlhs|);
    ghost var before := Rows(EFF[..], rowsize, nvars);
    LeftRow(g, v);
    var sp := first;
    ListEntry(g, rules[..], first, a, 0);
    var rule := rules[sp];
    while rule > 0
      invariant first <= sp <= first + |list| < rules.Length
      invariant rule == (list + [-1])[sp - first]
      invariant Rows(EFF[..], rowsize, nvars) == before[v := LeftBits(g, list, sp - first)]
      decreases first + |list| - sp
    {
      var symbol := Leftmost(g, rule);
      LeftmostInRange(g, rule);
      if IsVar(g, symbol) {
        SetBit(EFF, row, symbol - g.ntokens, rowsize, nvars, v);
      }
      sp := sp + 1;
      ListEntry(g, rules[..], first, a, sp - first);
      rule := rules[sp];
    }
  }

  // ---------- set_first_derives ----------

  /** The rows that set_first_derives computes, one for each nonterminal. */
  ghost function FirstTable(g: Grammar): (table: seq<set<nat>>)
    requires Valid(g)
    ensures |table| == NVars(g)
  {
    seq(NVars(g), v requires 0 <= v < NVars(g) => FirstRules(g, g.ntokens + v))
  }

  /** The rules of the first n nonterminals, as far as those lie in vars. */
  ghost function RulesOfVars(g: Grammar, vars: set<nat>, n: nat): set<nat> {
    set r: nat | r < |g.rlhs| && g.ntokens <= g.rlhs[r] < g.ntokens + n && (g.rlhs[r] - g.ntokens) as nat in vars
  }

  ghost function ListSet(list: seq<int>): set<nat> {
    set r: nat | r in list
  }

  lemma NextVar(g: Grammar, vars: set<nat>, n: nat)
    ensures RulesOfVars(g, vars, 0) == {}
    ensures RulesOfVars(g, vars, n + 1) ==
            if n in vars then RulesOfVars(g, vars, n) + ListSet(RulesOf(g, g.ntokens + n, |g.rlhs|))
              else RulesOfVars(g, vars, n)
  {
    forall r: nat ensures r in RulesOf(g, g.ntokens + n, |g.rlhs|) <==> r < |g.rlhs| && g.rlhs[r] == g.ntokens + n {
      RulesOfMember(g, g.ntokens + n, |g.rlhs|, r);
    }
  }

  lemma AllVars(g: Grammar, v: nat)
    requires Valid(g) && v < NVars(g)
    ensures RulesOfVars(g, StarClosure(LeftGraph(g))[v], NVars(g)) == FirstTable(g)[v]
  {
    var vars := StarClosure(LeftGraph(g))[v];
    forall r: nat ensures r in RulesOfVars(g, vars, NVars(g)) <==> r in FirstRules(g, g.ntokens + v) {
      if r < |g.rlhs| {
        LhsIsVar(g, r);
      }
    }
  }

  method SetFirstDerives(g: Grammar, derives: array<nat>, rules: array<int>) returns (first: array<Word>)
    requires Valid(g) && IsDerives(g, derives[..], rules[..])
    ensures fresh(first) && first.Length == Start(NVars(g), WordSize(NRules(g)))
    ensures Rows(first[..], WordSize(NRules(g)), NVars(g)) == FirstTable(g)
  {
    hide RowSet, Row, Mask;
    var nvars := g.nsyms - g.ntokens;
    var rulesetsize, varsetsize := WordSize(NRules(g)), WordSize(nvars);
    var size := RowPointer(nvars, rulesetsize);
    first := new Word[size](_ => ZERO);
    ZeroTable(first[..], rulesetsize, nvars);
    var EFF := SetEFF(g, derives, rules);
    var rrow := 0;
    for i := g.ntokens to g.nsyms
      invariant fresh(EFF) && first != EFF && first.Length == size
      invariant rrow == Start(i - g.ntokens, rulesetsize)
      invariant EFF.Length == Start(nvars, varsetsize)
      invariant Rows(EFF[..], varsetsize, nvars) == StarClosure(LeftGraph(g))
      invariant Rows(first[..], rulesetsize, nvars) == FirstRows(FirstTable(g), i - g.ntokens)
    {
      ghost var v := i - g.ntokens;
      ghost var before := Rows(first[..], rulesetsize, nvars);
      var vrow := RowPointer(i - g.ntokens, varsetsize);
      AddFirstRules(g, derives, rules, EFF, vrow, varsetsize, first, rrow, rulesetsize, nvars, v);
      AllVars(g, v);
      NextRow(FirstTable(g), v);
      rrow := rrow + rulesetsize;
    }
    assert FirstRows(FirstTable(g), nvars) == FirstTable(g);
  }

  /** The first n rows of a table, and empty rows for the others. */
  ghost function FirstRows(table: seq<set<nat>>, n: nat): (rows: seq<set<nat>>)
    requires n <= |table|
    ensures |rows| == |table|
  {
    table[..n] + seq(|table| - n, _ => {})
  }

  lemma NextRow(table: seq<set<nat>>, v: nat)
    requires v < |table|
    ensures FirstRows(table, v)[v] == {} && FirstRows(table, v)[v := table[v]] == FirstRows(table, v + 1)
  {
  }

  /** Scans row v of EFF and ORs the rules of every nonterminal found into row v of `first`. */
  method AddFirstRules(g: Grammar, derives: array<nat>, rules: array<int>, EFF: array<Word>, vrow: nat,
                       ghost varsetsize: nat,
                       first: array<Word>, rrow: nat, ghost rulesetsize: nat, ghost nvars: nat, ghost v: nat)
    requires Valid(g) && IsDerives(g, derives[..], rules[..])
    requires EFF != first && nvars == NVars(g) <= 32 * varsetsize && v < nvars
    requires EFF.Length == Start(nvars, varsetsize) && vrow == Start(v, varsetsize)
    requires Start(nvars, rulesetsize) <= first.Length && rrow == Start(v, rulesetsize) && NRules(g) <= 32 * rulesetsize
    requires Rows(first[..], rulesetsize, nvars)[v] == {}
    modifies first
    ensures Rows(first[..], rulesetsize, nvars) ==
            old(Rows(first[..], rulesetsize, nvars))[v := RulesOfVars(g, Rows(EFF[..], varsetsize, nvars)[v], nvars)]
  {
    hide RowSet, Row, Mask;
    ghost var vars := Rows(EFF[..], varsetsize, nvars)[v];
    ghost var before := Rows(first[..], rulesetsize, nvars);
    NextVar(g, vars, 0);
    FirstMask();
    var word := 0;
    var mask := ONE;
    ghost var b := 0;
    for j := g.ntokens to g.nsyms
      invariant j - g.ntokens == 32 * word + b && b < 32 && mask == Mask(b)
      invariant Rows(first[..], rulesetsize, nvars) == before[v := RulesOfVars(g, vars, j - g.ntokens)]
    {
      ghost var n := j - g.ntokens;
      TestedBit(EFF[..], varsetsize, nvars, v, word, b);
      NextVar(g, vars, n);
      if Meets(EFF[vrow + word], mask) {
        assert ListAt(g, rules[..], derives[..][n], j);
        AddRuleBits(g, rules, derives[j - g.ntokens], j, first, rrow, rulesetsize, nvars, v);
      }
      word, mask, b := NextBit(word, mask, b);
    }
  }

  /** Sets the bit of every rule of a. */
  method AddRuleBits(g: Grammar, rules: array<int>, p: nat, ghost a: int, first: array<Word>, rrow: nat,
                     ghost rulesetsize: nat,
                     ghost nvars: nat, ghost v: nat)
    requires Valid(g) && IsVar(g, a) && ListAt(g, rules[..], p, a)
    requires v < nvars && Start(nvars, rulesetsize) <= first.Length && rrow == Start(v, rulesetsize)
    requires NRules(g) <= 32 * rulesetsize
    modifies first
    ensures Rows(first[..], rulesetsize, nvars) ==
            old(Rows(first[..], rulesetsize, nvars)[v := Rows(first[..], rulesetsize, nvars)[v] + ListSet(RulesOf(g, a, |g.rlhs|))])
  {
    hide RowSet, Row, Mask;
    ghost var list := RulesOf(g, a, |g.rlhs|);
    ghost var before := Rows(first[..], rulesetsize, nvars);
    ListOfRules(g, a);
    assert before[v] + ListSet(list[..0]) == before[v];
    var rp := p;
    ListEntry(g, rules[..], p, a, 0);
    var rule := rules[rp];
    while rule >= 0
      invariant p <= rp <= p + |list| < rules.Length
      invariant rule == (list + [-1])[rp - p]
      invariant Rows(first[..], rulesetsize, nvars) == before[v := before[v] + ListSet(list[..rp - p])]
      decreases p + |list| - rp
    {
      SetBit(first, rrow, rule, rulesetsize, nvars, v);
      assert list[..rp - p + 1] == list[..rp - p] + [rule];
      assert ListSet(list[..rp - p + 1]) == ListSet(list[..rp - p]) + {rule};
      assert before[v] + ListSet(list[..rp - p]) + {rule as nat} == before[v] + ListSet(list[..rp - p + 1]);
      rp := rp + 1;
      ListEntry(g, rules[..], p, a, rp - p);
      rule := rules[rp];
    }
    assert list[..|list|] == list;
  }

  // ---------- closure ----------

  ghost function PulledSet(g: Grammar, k: set<nat>): set<nat>
    requires Valid(g)
  {
    set r: nat | r < |g.rlhs| && Pulled(g, k, r)
  }

  lemma PulledByOne(g: Grammar, k: set<nat>, i: nat)
    requires Valid(g) && i < |g.ritem| && g.ritem[i] < g.nsyms
    ensures PulledSet(g, {}) == {}
    ensures PulledSet(g, k + {i}) ==
            if IsVar(g, g.ritem[i]) then PulledSet(g, k) + FirstRules(g, g.ritem[i]) else PulledSet(g, k)
  {
    forall r: nat | r < |g.rlhs|
      ensures Pulled(g, k + {i}, r) <==> Pulled(g, k, r) || (IsVar(g, g.ritem[i]) && IsFirstRule(g, g.ritem[i], r))
    {
      if IsVar(g, g.ritem[i]) && IsFirstRule(g, g.ritem[i], r) {
        assert Before(g, i, g.ritem[i]);
      }
      if Pulled(g, k + {i}, r) {
        var j, a :| j in k + {i} && Before(g, j, a) && IsFirstRule(g, a, r);
      }
      if Pulled(g, k, r) {
        var j, a :| j in k && Before(g, j, a) && IsFirstRule(g, a, r);
        assert j in k + {i};
      }
    }
  }

  /** out merges the first c items of the nucleus with the first items of the rules of rs below n. */
  ghost predicate Merged(g: Grammar, nucleus: seq<nat>, rs: set<nat>, n: nat, c: nat, out: seq<nat>)
    requires |g.rrhs| == |g.rlhs| + 1
  {
    && c <= |nucleus|
    && Ascending(out)
    && (forall x :: x in out <==> x in nucleus[..c] || IsRuleStart(g, rs, n, x))
    && (forall x, k :: x in out && c <= k < |nucleus| ==> x < nucleus[k])
    && (forall x, r :: x in out && r in rs && n <= r < |g.rlhs| ==> x < g.rrhs[r])
  }

  ghost predicate IsRuleStart(g: Grammar, rs: set<nat>, n: nat, x: nat)
    requires |g.rrhs| == |g.rlhs| + 1
  {
    exists r :: r in rs && r < n && r < |g.rlhs| && g.rrhs[r] == x
  }

  ghost predicate RuleSetOk(g: Grammar, rs: set<nat>) {
    forall r :: r in rs ==> IsRule(g, r)
  }

  lemma SkipRule(g: Grammar, nucleus: seq<nat>, rs: set<nat>, n: nat, c: nat, out: seq<nat>)
    requires Valid(g) && Merged(g, nucleus, rs, n, c, out) && n !in rs
    ensures Merged(g, nucleus, rs, n + 1, c, out)
  {
    forall x ensures IsRuleStart(g, rs, n + 1, x) <==> IsRuleStart(g, rs, n, x) {
    }
  }

  lemma CopyItem(g: Grammar, nucleus: seq<nat>, rs: set<nat>, n: nat, c: nat, out: seq<nat>)
    requires Valid(g) && RuleSetOk(g, rs) && Ascending(nucleus) && Merged(g, nucleus, rs, n, c, out) && c < |nucleus|
    requires forall r :: r in rs && n <= r ==> nucleus[c] < g.rrhs[r]
    ensures Merged(g, nucleus, rs, n, c + 1, out + [nucleus[c]])
  {
    assert nucleus[..c + 1] == nucleus[..c] + [nucleus[c]];
    assert forall i :: 0 <= i < |out| ==> out[i] in out;
    forall x ensures x in out + [nucleus[c]] <==> x in nucleus[..c + 1] || IsRuleStart(g, rs, n, x) {
    }
  }

  lemma PutRule(g: Grammar, nucleus: seq<nat>, rs: set<nat>, n: nat, c: nat, out: seq<nat>, c': nat)
    requires Valid(g) && RuleSetOk(g, rs) && Ascending(nucleus) && Merged(g, nucleus, rs, n, c, out) && n in rs
    requires c <= c' <= |nucleus|
    requires forall k :: c <= k < c' ==> nucleus[k] == g.rrhs[n]
    requires c' < |nucleus| ==> nucleus[c'] > g.rrhs[n]
    ensures Merged(g, nucleus, rs, n + 1, c', out + [g.rrhs[n]])
  {
    forall r | r in rs && n + 1 <= r < |g.rlhs| ensures g.rrhs[n] < g.rrhs[r] {
      RulesAscend(g, n, r);
    }
    assert forall i :: 0 <= i < |out| ==> out[i] in out;
    assert nucleus[..c'] == nucleus[..c] + nucleus[c..c'];
    assert forall k :: c' <= k < |nucleus| ==> nucleus[k] > g.rrhs[n];
    forall x ensures x in out + [g.rrhs[n]] <==> x in nucleus[..c'] || IsRuleStart(g, rs, n + 1, x) {
      if x == g.rrhs[n] {
        assert IsRuleStart(g, rs, n + 1, x);
      }
    }
  }

  /** `*itemsetend++ = item` */
  method Emit(g: Grammar, itemset: array<nat>, end: nat, item: nat) returns (end': nat)
    requires itemset.Length == |g.ritem| && end <= itemset.Length
    requires Ascending(itemset[..end]) && item < |g.ritem| && forall k :: 0 <= k < end ==> itemset[k] < item
    modifies itemset
    ensures end' == end + 1 <= itemset.Length && itemset[..end'] == old(itemset[..end]) + [item]
  {
    AscendingLength(itemset[..end], item);
    itemset[end] := item;
    end' := end + 1;
  }

  /** What one set bit of the rule set does: merges rule n into the output. */
  method MergeRule(g: Grammar, nucleus: seq<nat>, itemset: array<nat>, csp: nat, end: nat, n: nat, ghost rs: set<nat>)
    returns (csp': nat, end': nat)
    requires Valid(g) && RuleSetOk(g, rs) && Ascending(nucleus) && AreItems(g, SetOf(nucleus)) && n in rs
    requires itemset.Length == |g.ritem| && end <= itemset.Length
    requires Merged(g, nucleus, rs, n, csp, itemset[..end])
    modifies itemset
    ensures end' <= itemset.Length && Merged(g, nucleus, rs, n + 1, csp', itemset[..end'])
  {
    assert IsRule(g, n);
    RuleStarts(g, n);
    csp', end' := csp, end;
    var itemno := g.rrhs[n];
    while csp' < |nucleus| && nucleus[csp'] < itemno
      invariant end' <= itemset.Length
      invariant Merged(g, nucleus, rs, n, csp', itemset[..end'])
      decreases |nucleus| - csp'
    {
      forall r | r in rs && n <= r ensures nucleus[csp'] < g.rrhs[r] {
        if n < r {
          RulesAscend(g, n, r);
        }
      }
      CopyItem(g, nucleus, rs, n, csp', itemset[..end']);
      assert forall k :: 0 <= k < end' ==> itemset[k] in itemset[..end'];
      end' := Emit(g, itemset, end', nucleus[csp']);
      csp' := csp' + 1;
    }
    assert forall k :: 0 <= k < end' ==> itemset[k] in itemset[..end'];
    ghost var c, out := csp', itemset[..end'];
    end' := Emit(g, itemset, end', itemno);
    while csp' < |nucleus| && nucleus[csp'] == itemno
      invariant c <= csp' <= |nucleus|
      invariant forall k :: c <= k < csp' ==> nucleus[k] == itemno
      decreases |nucleus| - csp'
    {
      csp' := csp' + 1;
    }
    PutRule(g, nucleus, rs, n, c, out, csp');
  }

  /** ORs in the first-derives row of every nonterminal that the nucleus has after a dot. */
  method CollectRules(g: Grammar, first: array<Word>, ruleset: array<Word>, nucleus: seq<nat>)
    requires Valid(g) && AreItems(g, SetOf(nucleus)) && first != ruleset
    requires first.Length == Start(NVars(g), WordSize(NRules(g)))
    requires Rows(first[..], WordSize(NRules(g)), NVars(g)) == FirstTable(g)
    requires ruleset.Length == WordSize(NRules(g))
    modifies ruleset
    ensures Rows(ruleset[..], WordSize(NRules(g)), 1) == [PulledSet(g, SetOf(nucleus))]
  {
    hide RowSet, Row, Mask;
    var rulesetsize := WordSize(NRules(g));
    for w := 0 to rulesetsize
      invariant forall k :: 0 <= k < w ==> ruleset[k] == ZERO
    {
      ruleset[w] := ZERO;
    }
    assert Start(0, rulesetsize) == 0 && Start(1, rulesetsize) == rulesetsize;
    ZeroTable(ruleset[..], rulesetsize, 1);
    PulledByOne(g, {}, 0);
    var none: seq<nat> := [];
    assert nucleus[..0] == none && SetOf(none) == {};
    for csp := 0 to |nucleus|
      invariant Rows(ruleset[..], rulesetsize, 1) == [PulledSet(g, SetOf(nucleus[..csp]))]
    {
      assert nucleus[csp] in SetOf(nucleus);
      var symbol := g.ritem[nucleus[csp]];
      ItemSymbol(g, nucleus[csp]);
      PulledByOne(g, SetOf(nucleus[..csp]), nucleus[csp]);
      assert SetOf(nucleus[..csp + 1]) == SetOf(nucleus[..csp]) + {nucleus[csp]} by {
        assert nucleus[..csp + 1] == nucleus[..csp] + [nucleus[csp]];
      }
      if IsVar(g, symbol) {
        var dsp := RowPointer(symbol - g.ntokens, rulesetsize);
        OrRowFrom(ruleset, 0, first, dsp, rulesetsize, 1, 0, NVars(g), symbol - g.ntokens);
      }
    }
    assert nucleus[..|nucleus|] == nucleus;
  }

  lemma MergedAll(g: Grammar, nucleus: seq<nat>, rs: set<nat>, n: nat, out: seq<nat>)
    requires Valid(g) && rs == PulledSet(g, SetOf(nucleus)) && n >= |g.rlhs|
    requires Merged(g, nucleus, rs, n, |nucleus|, out)
    ensures SetOf(out) == ClosureSet(g, SetOf(nucleus))
  {
    assert nucleus[..|nucleus|] == nucleus;
    forall x: nat ensures x in out <==> x in ClosureSet(g, SetOf(nucleus)) {
      if IsRuleStart(g, rs, n, x) {
        var r :| r in rs && r < n && r < |g.rlhs| && g.rrhs[r] == x;
        assert Pulled(g, SetOf(nucleus), r);
      }
    }
  }

  method ComputeClosure(g: Grammar, first: array<Word>, ruleset: array<Word>, itemset: array<nat>, nucleus: seq<nat>)
    returns (end: nat)
    requires Valid(g) && Ascending(nucleus) && AreItems(g, SetOf(nucleus)) && first != ruleset
    requires first.Length == Start(NVars(g), WordSize(NRules(g)))
    requires Rows(first[..], WordSize(NRules(g)), NVars(g)) == FirstTable(g)
    requires ruleset.Length == WordSize(NRules(g)) && itemset.Length == |g.ritem|
    modifies ruleset, itemset
    ensures end <= itemset.Length && Ascending(itemset[..end])
    ensures SetOf(itemset[..end]) == ClosureSet(g, SetOf(nucleus))
  {
    hide RowSet, Row, Mask;
    CollectRules(g, first, ruleset, nucleus);
    ghost var rs := PulledSet(g, SetOf(nucleus));
    var rulesetsize := WordSize(NRules(g));
    var csp: nat, ruleno := 0, 0;
    end := 0;
    for rsp := 0 to rulesetsize
      invariant ruleno == 32 * rsp && end <= itemset.Length
      invariant Rows(ruleset[..], rulesetsize, 1) == [rs]
      invariant Merged(g, nucleus, rs, ruleno, csp, itemset[..end])
    {
      csp, end := MergeWord(g, ruleset, rsp, nucleus, itemset, csp, end, rulesetsize, rs);
      ruleno := ruleno + 32;
    }
    while csp < |nucleus|
      invariant end <= itemset.Length
      invariant Merged(g, nucleus, rs, ruleno, csp, itemset[..end])
      decreases |nucleus| - csp
    {
      CopyItem(g, nucleus, rs, ruleno, csp, itemset[..end]);
      assert nucleus[csp] in SetOf(nucleus);
      assert forall k :: 0 <= k < end ==> itemset[k] in itemset[..end];
      end := Emit(g, itemset, end, nucleus[csp]);
      csp := csp + 1;
    }
    MergedAll(g, nucleus, rs, ruleno, itemset[..end]);
  }

  lemma SkipWord(g: Grammar, words: seq<Word>, w: nat, nucleus: seq<nat>, rs: set<nat>, c: nat, out: seq<nat>, b: nat)
    requires Valid(g) && w < |words| && b <= 32 && words[w] == ZERO && Rows(words, |words|, 1) == [rs]
    requires Merged(g, nucleus, rs, 32 * w, c, out)
    ensures Merged(g, nucleus, rs, 32 * w + b, c, out)
  {
    if b > 0 {
      SkipWord(g, words, w, nucleus, rs, c, out, b - 1);
      assert Start(0, |words|) == 0 && Start(1, |words|) == |words|;
      TestedBit(words, |words|, 1, 0, w, b - 1);
      ZeroMeets(Mask(b - 1));
      SkipRule(g, nucleus, rs, 32 * w + b - 1, c, out);
    }
  }

  /** Merges the rules of one word of the rule set; a zero word is skipped whole. */
  method MergeWord(g: Grammar, ruleset: array<Word>, rsp: nat, nucleus: seq<nat>, itemset: array<nat>, csp: nat,
                   end: nat,
                   ghost size: nat, ghost rs: set<nat>) returns (csp': nat, end': nat)
    requires Valid(g) && RuleSetOk(g, rs) && Ascending(nucleus) && AreItems(g, SetOf(nucleus))
    requires itemset.Length == |g.ritem| && end <= itemset.Length
    requires rsp < size == ruleset.Length && Rows(ruleset[..], size, 1) == [rs]
    requires Merged(g, nucleus, rs, 32 * rsp, csp, itemset[..end])
    modifies itemset
    ensures end' <= itemset.Length && Merged(g, nucleus, rs, 32 * rsp + 32, csp', itemset[..end'])
  {
    hide RowSet, Row, Mask;
    csp', end' := csp, end;
    var word := ruleset[rsp];
    if word == ZERO {
      SkipWord(g, ruleset[..], rsp, nucleus, rs, csp, itemset[..end], 32);
      return;
    }
    var ruleno := 32 * rsp;
    var mask := ONE;
    ghost var b := 0;
    FirstMask();
    assert Start(0, size) == 0 && Start(1, size) == size;
    while mask != ZERO
      invariant ruleno == 32 * rsp + b && b <= 32 && mask == Mask(b)
      invariant end' <= itemset.Length
      invariant Merged(g, nucleus, rs, ruleno, csp', itemset[..end'])
      decreases 32 - b
    {
      MaskLimit(b);
      TestedBit(ruleset[..], size, 1, 0, rsp, b);
      if Meets(word, mask) {
        csp', end' := MergeRule(g, nucleus, itemset, csp', end', ruleno, rs);
      } else {
        SkipRule(g, nucleus, rs, ruleno, csp', itemset[..end']);
      }
      MaskNext(b);
      mask := ShiftLeft(mask);
      ruleno := ruleno + 1;
      b := b + 1;
    }
    MaskLimit(b);
  }
}
