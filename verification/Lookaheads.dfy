/** The first half of byacc/lalr.c: numbering the reductions (initialize_LA), and the tokens
    that can be read after each goto (initialize_F). */
module Lookaheads {
  import opened Bits
  import opened Graphs
  import opened Sequences
  import opened Grammars
  import opened Items
  import opened Automata
  import opened Gotos
  import opened Relations
  import opened Digraph

  // ---------- initialize_LA ----------

  /** Reductions of all states, numbered through: those of state q are the numbers from
      lookaheads[q] to lookaheads[q + 1], and laRuleno gives their rules. */
  datatype LaTable = LaTable(lookaheads: seq<nat>, laRuleno: seq<nat>)

  ghost function LaStart(a: Automaton, q: nat): nat
    requires q <= |a.reductions|
  {
    if q == 0 then 0 else LaStart(a, q - 1) + |a.reductions[q - 1]|
  }

  ghost predicate IsLaTable(a: Automaton, la: LaTable) {
    && |la.lookaheads| == |a.reductions| + 1
    && (forall q :: 0 <= q <= |a.reductions| ==> la.lookaheads[q] == LaStart(a, q))
    && |la.laRuleno| == LaStart(a, |a.reductions|)
    && (forall q :: 0 <= q < |a.reductions| ==> LaRow(a, la.laRuleno, q))
  }

  ghost predicate LaRow(a: Automaton, laRuleno: seq<nat>, q: nat)
    requires q < |a.reductions|
  {
    && LaStart(a, q + 1) <= |laRuleno|
    && forall j :: 0 <= j < |a.reductions[q]| ==> laRuleno[LaStart(a, q) + j] == a.reductions[q][j]
  }

  /** Entry x is the reduction by rule r in state q. */
  ghost predicate LaIs(la: LaTable, x: nat, q: nat, r: nat) {
    && q + 1 < |la.lookaheads| && la.lookaheads[q] <= x < la.lookaheads[q + 1]
    && x < |la.laRuleno| && la.laRuleno[x] == r
  }

  lemma {:induction false} LaStartGrows(a: Automaton, p: nat, q: nat)
    requires p <= q <= |a.reductions|
    ensures LaStart(a, p) <= LaStart(a, q)
    decreases q
  {
    if p < q {
      LaStartGrows(a, p, q - 1);
    }
  }

  method InitializeLA(a: Automaton) returns (lookaheads: array<nat>, laRuleno: array<nat>)
    ensures fresh(lookaheads) && fresh(laRuleno)
    ensures IsLaTable(a, LaTable(lookaheads[..], laRuleno[..]))
  {
    var nstates := |a.reductions|;
    lookaheads := new nat[nstates + 1];
    var k := 0;
    for i := 0 to nstates
      invariant k == LaStart(a, i)
      invariant forall q :: 0 <= q < i ==> lookaheads[q] == LaStart(a, q)
    {
      lookaheads[i] := k;
      k := k + |a.reductions[i]|;
    }
    lookaheads[nstates] := k;
    laRuleno := new nat[k];
    NumberRules(a, laRuleno);
  }

  method NumberRules(a: Automaton, laRuleno: array<nat>)
    requires laRuleno.Length == LaStart(a, |a.reductions|)
    modifies laRuleno
    ensures forall q :: 0 <= q < |a.reductions| ==> LaRow(a, laRuleno[..], q)
  {
    var k := 0;
    for i := 0 to |a.reductions|
      invariant k == LaStart(a, i) <= laRuleno.Length
      invariant forall q :: 0 <= q < i ==> LaRow(a, laRuleno[..], q)
    {
      LaStartGrows(a, i + 1, |a.reductions|);
      ghost var before := laRuleno[..];
      for j := 0 to |a.reductions[i]|
        invariant k == LaStart(a, i) + j
        invariant forall l :: 0 <= l < LaStart(a, i) ==> laRuleno[l] == before[l]
        invariant forall l :: 0 <= l < j ==> laRuleno[LaStart(a, i) + l] == a.reductions[i][l]
      {
        laRuleno[k] := a.reductions[i][j];
        k := k + 1;
      }
      forall q | 0 <= q < i + 1 ensures LaRow(a, laRuleno[..], q) {
        if q < i {
          LaRowKept(a, before, laRuleno[..], q, i);
        }
      }
    }
  }

  lemma LaRowKept(a: Automaton, before: seq<nat>, after: seq<nat>, q: nat, i: nat)
    requires q < i < |a.reductions| && LaRow(a, before, q) && |before| == |after|
    requires LaStart(a, i) <= |before| && forall l :: 0 <= l < LaStart(a, i) ==> after[l] == before[l]
    ensures LaRow(a, after, q)
  {
    LaStartGrows(a, q + 1, i);
  }

  lemma StateReductions(g: Grammar, a: Automaton, q: nat)
    requires Valid(g) && IsAutomaton(g, a) && q < |a.states|
    ensures |a.states| == |a.reductions| && ReductionsOk(g, ItemsOf(g, a.states[q]), a.reductions[q])
  {
    hide Valid, StatesOk, Found, ShiftsOk, ReductionsOk, ItemsOf;
    assert RowOk(g, a.states, a.shifts[q], a.reductions[q], q);
  }

  lemma AllReductions(g: Grammar, a: Automaton)
    requires Valid(g) && IsAutomaton(g, a)
    ensures |a.states| == |a.reductions|
  {
  }

  lemma LaPlace(a: Automaton, la: LaTable, x: nat, q: nat, r: nat) returns (j: nat)
    requires IsLaTable(a, la) && LaIs(la, x, q, r)
    ensures q < |a.reductions| && j < |a.reductions[q]| && x == LaStart(a, q) + j && a.reductions[q][j] == r
  {
    assert LaRow(a, la.laRuleno, q);
    j := x - LaStart(a, q);
    assert la.laRuleno[LaStart(a, q) + j] == a.reductions[q][j];
  }

  lemma LaAt(a: Automaton, la: LaTable, q: nat, j: nat)
    requires IsLaTable(a, la) && q < |a.reductions| && j < |a.reductions[q]|
    ensures LaIs(la, LaStart(a, q) + j, q, a.reductions[q][j])
  {
    assert LaRow(a, la.laRuleno, q);
    LaStartGrows(a, q + 1, |a.reductions|);
  }

  lemma LaEntry(g: Grammar, a: Automaton, la: LaTable, x: nat, q: nat, r: nat) returns (j: nat)
    requires Valid(g) && IsAutomaton(g, a) && IsLaTable(a, la) && LaIs(la, x, q, r)
    ensures q < |a.states| == |a.reductions| && j < |a.reductions[q]| && x == LaStart(a, q) + j
    ensures a.reductions[q][j] == r
    ensures ReductionsOk(g, ItemsOf(g, a.states[q]), a.reductions[q])
  {
    hide Valid, IsAutomaton, IsLaTable, LaIs, LaStart, ReductionsOk, ItemsOf;
    AllReductions(g, a);
    j := LaPlace(a, la, x, q, r);
    StateReductions(g, a, q);
  }

  /** The rule of an entry is complete in its state. */
  lemma LaComplete(g: Grammar, a: Automaton, la: LaTable, x: nat, q: nat, r: nat)
    requires Valid(g) && IsAutomaton(g, a) && IsLaTable(a, la) && LaIs(la, x, q, r)
    ensures q < |a.states| && Complete(g, ItemsOf(g, a.states[q]), r)
  {
    var j := LaEntry(g, a, la, x, q, r);
  }

  /** A complete rule has an entry. */
  lemma LaExists(g: Grammar, a: Automaton, la: LaTable, q: nat, r: nat) returns (x: nat)
    requires Valid(g) && IsAutomaton(g, a) && IsLaTable(a, la) && q < |a.states|
    requires Complete(g, ItemsOf(g, a.states[q]), r)
    ensures LaIs(la, x, q, r)
  {
    hide Valid, IsAutomaton, IsLaTable, LaIs, LaStart, Complete, ItemsOf;
    StateReductions(g, a, q);
    assert r in a.reductions[q];
    var j :| 0 <= j < |a.reductions[q]| && a.reductions[q][j] == r;
    x := LaStart(a, q) + j;
    LaAt(a, la, q, j);
  }

  /** An entry is determined by its state and its rule, and determines both. */
  lemma LaUnique(g: Grammar, a: Automaton, la: LaTable, x: nat, q: nat, r: nat, x': nat, q': nat, r': nat)
    requires Valid(g) && IsAutomaton(g, a) && IsLaTable(a, la) && LaIs(la, x, q, r) && LaIs(la, x', q', r')
    ensures x == x' <==> q == q' && r == r'
  {
    hide Valid, IsAutomaton, IsLaTable, LaStart;
    var j := LaEntry(g, a, la, x, q, r);
    var j' := LaEntry(g, a, la, x', q', r');
    if q < q' {
      LaStartGrows(a, q + 1, q');
      LaStartNext(a, q);
    } else if q' < q {
      LaStartGrows(a, q' + 1, q);
      LaStartNext(a, q');
    }
  }

  lemma LaStartNext(a: Automaton, q: nat)
    requires q < |a.reductions|
    ensures LaStart(a, q + 1) == LaStart(a, q) + |a.reductions[q]|
  {
  }

  // ---------- initialize_F ----------

  /** The rows of F before the first pass. */
  ghost function DirectRows(g: Grammar, a: Automaton, m: GotoTable): (rows: seq<set<nat>>)
    ensures |rows| == |m.toState|
  {
    seq(|m.toState|, k requires 0 <= k < |m.toState| => set t: nat | t < g.ntokens && DirectlyReads(g, a, m, k, t))
  }

  ghost function SymbolsOf(a: Automaton, list: seq<nat>, n: nat): set<nat>
    requires n <= |list| && forall j :: 0 <= j < |list| ==> list[j] < |a.states|
  {
    if n == 0 then {} else SymbolsOf(a, list, n - 1) + {a.states[list[n - 1]].symbol}
  }

  lemma {:induction false} SymbolsOfMember(a: Automaton, list: seq<nat>, n: nat, t: nat)
    requires n <= |list| && forall j :: 0 <= j < |list| ==> list[j] < |a.states|
    ensures t in SymbolsOf(a, list, n) <==> exists j :: 0 <= j < n && a.states[list[j]].symbol == t
  {
    if n > 0 {
      SymbolsOfMember(a, list, n - 1, t);
    }
  }

  /** The tokens that state p shifts are the symbols of its list up to the first nonterminal. */
  lemma ShiftedTokens(g: Grammar, a: Automaton, p: nat, n: nat)
    requires Valid(g) && IsAutomaton(g, a) && RowsListed(a) && p < |a.states| && n <= |a.shifts[p]|
    requires forall j :: 0 <= j < n ==> a.states[a.shifts[p][j]].symbol < g.ntokens
    requires n < |a.shifts[p]| ==> a.states[a.shifts[p][n]].symbol >= g.ntokens
    ensures forall t :: t in SymbolsOf(a, a.shifts[p], n) <==> 0 < t < g.ntokens && exists q :: Edge(a, p, t, q)
  {
    hide Valid, IsAutomaton, SymbolsOf, Edge;
    var list := a.shifts[p];
    forall t: nat ensures t in SymbolsOf(a, list, n) <==> 0 < t < g.ntokens && exists q :: Edge(a, p, t, q) {
      SymbolsOfMember(a, list, n, t);
      if t in SymbolsOf(a, list, n) {
        var j :| 0 <= j < n && a.states[list[j]].symbol == t;
        ListedEdge(a, p, j);
        EdgeGivesKernel(g, a, p, t, list[j]);
      }
      if 0 < t < g.ntokens && exists q :: Edge(a, p, t, q) {
        var q :| Edge(a, p, t, q);
        var j := PlaceInRow(a, p, t, q, n);
      }
    }
  }

  lemma ListedEdge(a: Automaton, p: nat, j: nat)
    requires RowsListed(a) && p < |a.shifts| && j < |a.shifts[p]|
    ensures a.shifts[p][j] < |a.states| && Edge(a, p, a.states[a.shifts[p][j]].symbol, a.shifts[p][j])
  {
  }

  lemma PlaceInRow(a: Automaton, p: nat, t: int, q: nat, n: nat) returns (j: nat)
    requires RowsListed(a) && Edge(a, p, t, q) && n <= |a.shifts[p]|
    requires n < |a.shifts[p]| ==> a.states[a.shifts[p][n]].symbol > t
    ensures j < n && a.shifts[p][j] == q && a.states[q].symbol == t
  {
    j :| 0 <= j < |a.shifts[p]| && a.shifts[p][j] == q;
  }

  /** Sets the bits of the tokens that the target of goto k shifts; n is where they end. */
  method SetDirectReads(g: Grammar, a: Automaton, m: GotoTable, k: nat, F: array<Word>, rowp: nat, size: nat)
    returns (n: nat)
    requires Valid(g) && IsAutomaton(g, a) && RowsListed(a) && k < |m.toState| && m.toState[k] < |a.states|
    requires Start(|m.toState|, size) <= F.Length && rowp == Start(k, size) && g.ntokens <= 32 * size
    requires Rows(F[..], size, |m.toState|)[k] == {}
    modifies F
    ensures n <= |a.shifts[m.toState[k]]|
    ensures forall j :: 0 <= j < n ==> a.states[a.shifts[m.toState[k]][j]].symbol < g.ntokens
    ensures n < |a.shifts[m.toState[k]]| ==> a.states[a.shifts[m.toState[k]][n]].symbol >= g.ntokens
    ensures Rows(F[..], size, |m.toState|) ==
            old(Rows(F[..], size, |m.toState|))[k := SymbolsOf(a, a.shifts[m.toState[k]], n)]
  {
    hide RowSet, Row, Mask, Valid, IsAutomaton;
    ghost var before, ngotos := Rows(F[..], size, |m.toState|), |m.toState|;
    var list := a.shifts[m.toState[k]];
    n := 0;
    while n < |list| && !IsVar(g, a.states[list[n]].symbol)
      invariant n <= |list|
      invariant forall j :: 0 <= j < n ==> a.states[list[j]].symbol < g.ntokens
      invariant Rows(F[..], size, ngotos) == before[k := SymbolsOf(a, list, n)]
    {
      SetBit(F, rowp, a.states[list[n]].symbol, size, ngotos, k);
      n := n + 1;
    }
  }

  /** The gotos that goto k reads, found among the nonterminals that its target shifts. */
  method ReadEdges(g: Grammar, a: Automaton, m: GotoTable, nullable: array<bool>, k: nat, n: nat)
    returns (edges: seq<nat>)
    requires Valid(g) && IsAutomaton(g, a) && IsGotoTable(g, a, m) && k < |m.toState| && m.toState[k] < |a.states|
    requires NullableOk(g, nullable)
    requires n <= |a.shifts[m.toState[k]]|
    requires forall j :: 0 <= j < n ==> a.states[a.shifts[m.toState[k]][j]].symbol < g.ntokens
    requires n < |a.shifts[m.toState[k]]| ==> a.states[a.shifts[m.toState[k]][n]].symbol >= g.ntokens
    ensures forall l: nat :: l in edges <==> Reads(g, a, m, k, l)
  {
    hide Valid, IsAutomaton, IsGotoTable;
    TableRows(g, a, m);
    var stateno := m.toState[k];
    var list := a.shifts[stateno];
    edges := [];
    var j := n;
    while j < |list|
      invariant n <= j <= |list|
      invariant forall l: nat :: l in edges <==> ReadsUpTo(g, a, m, stateno, list, n, j, l)
    {
      assert a.states[list[n]].symbol <= a.states[list[j]].symbol;
      var symbol := a.states[list[j]].symbol;
      assert Edge(a, stateno, symbol, list[j]);
      EdgeGivesKernel(g, a, stateno, symbol, list[j]);
      ghost var edges0 := edges;
      if nullable[symbol] {
        var l := MapGoto(g, a, m, stateno, symbol, list[j]);
        edges := edges + [l];
        NextRead(g, a, m, stateno, list, n, j, l);
      } else {
        NoRead(g, a, m, stateno, list, n, j);
      }
      j := j + 1;
    }
    AllReads(g, a, m, k, n);
  }

  ghost predicate NullableOk(g: Grammar, nullable: array<bool>)
    requires Valid(g)
    reads nullable
  {
    nullable.Length == g.nsyms && forall x :: 0 <= x < g.nsyms ==> (nullable[x] <==> IsNullable(g, x))
  }

  lemma TableRows(g: Grammar, a: Automaton, m: GotoTable)
    requires Valid(g) && IsAutomaton(g, a) && IsGotoTable(g, a, m)
    ensures RowsListed(a) && |a.shifts| == |a.states| && |m.fromState| == |m.toState|
  {
  }

  /** Goto l leaves `stateno` over one of the nullable symbols from place n to place j of its list. */
  ghost predicate ReadsUpTo(g: Grammar, a: Automaton, m: GotoTable, stateno: nat, list: seq<nat>, n: nat, j: nat,
                            l: nat)
    requires Valid(g) && j <= |list| && forall i :: 0 <= i < |list| ==> list[i] < |a.states|
  {
    exists i :: n <= i < j && IsNullable(g, a.states[list[i]].symbol) &&
      GotoIs(a, m, l, stateno, a.states[list[i]].symbol, list[i])
  }

  lemma NextRead(g: Grammar, a: Automaton, m: GotoTable, stateno: nat, list: seq<nat>, n: nat, j: nat, l: nat)
    requires Valid(g) && IsAutomaton(g, a) && IsGotoTable(g, a, m)
    requires n <= j < |list| && forall i :: 0 <= i < |list| ==> list[i] < |a.states|
    requires IsNullable(g, a.states[list[j]].symbol) && GotoIs(a, m, l, stateno, a.states[list[j]].symbol, list[j])
    ensures forall l': nat :: ReadsUpTo(g, a, m, stateno, list, n, j + 1, l') <==>
      ReadsUpTo(g, a, m, stateno, list, n, j, l') || l' == l
  {
    hide Valid, IsAutomaton, IsGotoTable, IsNullable, GotoIs;
    forall l': nat
      ensures ReadsUpTo(g, a, m, stateno, list, n, j + 1, l') <==>
        ReadsUpTo(g, a, m, stateno, list, n, j, l') || l' == l
    {
      if ReadsUpTo(g, a, m, stateno, list, n, j + 1, l') {
        var i :| n <= i < j + 1 && IsNullable(g, a.states[list[i]].symbol) &&
          GotoIs(a, m, l', stateno, a.states[list[i]].symbol, list[i]);
        if i == j {
          GotoUnique(g, a, m, l', l, stateno, a.states[list[j]].symbol, list[j], list[j]);
        }
      }
    }
  }

  lemma NoRead(g: Grammar, a: Automaton, m: GotoTable, stateno: nat, list: seq<nat>, n: nat, j: nat)
    requires Valid(g) && n <= j < |list| && forall i :: 0 <= i < |list| ==> list[i] < |a.states|
    requires !IsNullable(g, a.states[list[j]].symbol)
    ensures forall l: nat :: ReadsUpTo(g, a, m, stateno, list, n, j + 1, l) <==>
      ReadsUpTo(g, a, m, stateno, list, n, j, l)
  {
  }

  lemma AllReads(g: Grammar, a: Automaton, m: GotoTable, k: nat, n: nat)
    requires Valid(g) && RowsListed(a) && k < |m.toState| && m.toState[k] < |a.states| && n <= |a.shifts[m.toState[k]]|
    requires forall j :: 0 <= j < n ==> a.states[a.shifts[m.toState[k]][j]].symbol < g.ntokens
    requires n < |a.shifts[m.toState[k]]| ==> a.states[a.shifts[m.toState[k]][n]].symbol >= g.ntokens
    ensures var list := a.shifts[m.toState[k]];
            forall l: nat :: ReadsUpTo(g, a, m, m.toState[k], list, n, |list|, l) <==> Reads(g, a, m, k, l)
  {
    hide Valid, IsNullable;
    var stateno, list := m.toState[k], a.shifts[m.toState[k]];
    forall l: nat ensures ReadsUpTo(g, a, m, stateno, list, n, |list|, l) <==> Reads(g, a, m, k, l) {
      if ReadsUpTo(g, a, m, stateno, list, n, |list|, l) {
        var i :| n <= i < |list| && IsNullable(g, a.states[list[i]].symbol) &&
          GotoIs(a, m, l, stateno, a.states[list[i]].symbol, list[i]);
        assert a.states[list[n]].symbol <= a.states[list[i]].symbol;
        assert IsVar(g, a.states[list[i]].symbol);
      }
      if Reads(g, a, m, k, l) {
        var x, p :| IsVar(g, x) && IsNullable(g, x) && GotoIs(a, m, l, stateno, x, p);
        var i :| 0 <= i < |list| && list[i] == p;
        assert n <= i;
      }
    }
  }

  /** One turn of the main loop of initialize_F: the initial row of goto k, and its reads. */
  method InitializeRow(g: Grammar, a: Automaton, m: GotoTable, nullable: array<bool>, k: nat, F: array<Word>, rowp: nat,
                       size: nat)
    returns (edges: seq<nat>)
    requires Valid(g) && IsAutomaton(g, a) && IsGotoTable(g, a, m) && k < |m.toState| && NullableOk(g, nullable)
    requires nullable as object != F
    requires Start(|m.toState|, size) <= F.Length && rowp == Start(k, size) && g.ntokens <= 32 * size
    requires Rows(F[..], size, |m.toState|)[k] == {}
    modifies F
    ensures Rows(F[..], size, |m.toState|) == old(Rows(F[..], size, |m.toState|))[k := ShiftedFrom(g, a, m, k)]
    ensures forall l: nat :: l in edges <==> Reads(g, a, m, k, l)
  {
    hide RowSet, Row, Mask, Valid, IsAutomaton, IsGotoTable;
    TableRows(g, a, m);
    ghost var v := GotoEntry(g, a, m, k);
    var n := SetDirectReads(g, a, m, k, F, rowp, size);
    ShiftedTokens(g, a, m.toState[k], n);
    assert SymbolsOf(a, a.shifts[m.toState[k]], n) == ShiftedFrom(g, a, m, k);
    edges := ReadEdges(g, a, m, nullable, k, n);
  }

  /** The tokens that the target of goto k shifts. */
  ghost function ShiftedFrom(g: Grammar, a: Automaton, m: GotoTable, k: nat): set<nat>
    requires k < |m.toState|
  {
    set t: nat | t < g.ntokens && Shifts(a, m.toState[k], t)
  }

  ghost predicate Shifts(a: Automaton, p: nat, t: nat) {
    0 < t && exists q :: Edge(a, p, t, q)
  }

  /** The rows before SETBIT(F, 0). */
  ghost function ShiftRows(g: Grammar, a: Automaton, m: GotoTable): (rows: seq<set<nat>>)
    ensures |rows| == |m.toState|
  {
    seq(|m.toState|, k requires 0 <= k < |m.toState| => ShiftedFrom(g, a, m, k))
  }

  lemma EndBit(g: Grammar, a: Automaton, m: GotoTable)
    requires Valid(g) && |m.toState| > 0
    ensures var rows := ShiftRows(g, a, m); rows[0 := rows[0] + {END}] == DirectRows(g, a, m)
  {
    var rows := ShiftRows(g, a, m);
    forall k | 0 <= k < |m.toState| ensures rows[0 := rows[0] + {END}][k] == DirectRows(g, a, m)[k] {
      forall t: nat ensures t in rows[0 := rows[0] + {END}][k] <==> t in DirectRows(g, a, m)[k] {
        assert t in ShiftedFrom(g, a, m, k) <==> t < g.ntokens && Shifts(a, m.toState[k], t);
      }
    }
  }

  lemma StartEdge(g: Grammar, a: Automaton) returns (p: nat)
    requires Valid(g) && IsAutomaton(g, a)
    ensures Edge(a, 0, Goal(g), p)
  {
    hide Edge, CanMove, RowOk;
    ClosureIsClosed(g, SetOf(a.states[0].items));
    assert 1 in SetOf(a.states[0].items);
    p := EdgeExists(g, a, 0, 1);
  }

  /** Goto 0 leaves the start state over the goal. */
  lemma FirstGoto(g: Grammar, a: Automaton, m: GotoTable) returns (p: nat)
    requires Valid(g) && IsAutomaton(g, a) && IsGotoTable(g, a, m)
    ensures GotoIs(a, m, 0, 0, Goal(g), p) && |m.toState| > 0 && g.ntokens > 0
  {
    hide Edge, IsAutomaton;
    p := StartEdge(g, a);
    var k := GotoExists(g, a, m, 0, Goal(g), p);
    NoStartGotos(g, a, |a.shifts|);
    assert GotoStart(g, a, 1) == |GotoList(a, g.ntokens + 0, |a.shifts|)| == 0;
    if k > 0 {
      RangeAscends(g, a, m, 1, 0, k);
    }
  }

  lemma {:induction false} NoStartGotos(g: Grammar, a: Automaton, n: nat)
    requires Valid(g) && IsAutomaton(g, a) && RowsListed(a) && n <= |a.shifts|
    ensures GotoList(a, g.ntokens, n) == []
  {
    hide Valid, IsAutomaton;
    if GotoList(a, g.ntokens, n) != [] {
      ListAscends(a, g.ntokens, n, 0);
      var entry := GotoList(a, g.ntokens, n)[0];
      NoStartEdge(g, a, entry.0, entry.1);
    }
  }

  lemma NoStartEdge(g: Grammar, a: Automaton, q: nat, p: nat)
    requires Valid(g) && IsAutomaton(g, a)
    ensures !Edge(a, q, StartSymbol(g), p)
  {
    if Edge(a, q, StartSymbol(g), p) {
      RuleItemPresent(g, a, q, StartSymbol(g), p, FIRST_RULE);
    }
  }

  /** initialize_F: the relation `reads`, the initial rows, and the first pass over them. */
  method InitializeF(g: Grammar, a: Automaton, m: GotoTable, nullable: array<bool>, tokensetsize: nat)
    returns (F: array<Word>)
    requires Valid(g) && IsAutomaton(g, a) && IsGotoTable(g, a, m) && NullableOk(g, nullable)
    requires tokensetsize == WordSize(g.ntokens)
    ensures fresh(F) && F.Length == Start(|m.toState|, tokensetsize)
    ensures forall k, t :: 0 <= k < |m.toState| && 0 <= t ==>
      (t in Rows(F[..], tokensetsize, |m.toState|)[k] <==> InSolution(ReadsGraph(g, a, m), DirectRows(g, a, m), k, t))
  {
    hide RowSet, Row, Mask, Valid, IsAutomaton, IsGotoTable;
    var ngotos := |m.toState|;
    var nwords := RowPointer(ngotos, tokensetsize);
    F := new Word[nwords](_ => ZERO);
    ZeroTable(F[..], tokensetsize, ngotos);
    var readRows := ReadRows(g, a, m, nullable, tokensetsize, F);
    ghost var first := FirstGoto(g, a, m);
    EndBit(g, a, m);
    SetBit(F, 0, 0, tokensetsize, ngotos, 0);
    ReadsAsGraph(g, a, m, readRows);
    var pass := new DigraphPass(readRows, F, tokensetsize);
    pass.Run();
  }

  method ReadRows(g: Grammar, a: Automaton, m: GotoTable, nullable: array<bool>, size: nat, F: array<Word>)
    returns (readRows: seq<seq<nat>>)
    requires Valid(g) && IsAutomaton(g, a) && IsGotoTable(g, a, m) && NullableOk(g, nullable)
    requires nullable as object != F && g.ntokens <= 32 * size && Start(|m.toState|, size) <= F.Length
    requires Rows(F[..], size, |m.toState|) == seq(|m.toState|, _ => {})
    modifies F
    ensures Rows(F[..], size, |m.toState|) == ShiftRows(g, a, m)
    ensures |readRows| == |m.toState|
    ensures forall k :: 0 <= k < |readRows| ==> EdgesAre(g, a, m, k, readRows[k])
  {
    hide RowSet, Row, Mask, Valid, IsAutomaton, IsGotoTable;
    var ngotos := |m.toState|;
    ghost var rows := ShiftRows(g, a, m);
    readRows := [];
    var rowp := 0;
    for i := 0 to ngotos
      invariant NullableOk(g, nullable) && rowp == Start(i, size)
      invariant |readRows| == i && forall k :: 0 <= k < i ==> EdgesAre(g, a, m, k, readRows[k])
      invariant Rows(F[..], size, ngotos) == rows[..i] + seq(ngotos - i, _ => {})
    {
      ghost var before := Rows(F[..], size, ngotos);
      var edges := InitializeRow(g, a, m, nullable, i, F, rowp, size);
      readRows := readRows + [edges];
      assert before[i := rows[i]] == rows[..i + 1] + seq(ngotos - (i + 1), _ => {});
      rowp := rowp + size;
    }
    assert rows[..ngotos] + seq(0, _ => {}) == rows;
  }

  ghost predicate EdgesAre(g: Grammar, a: Automaton, m: GotoTable, k: nat, edges: seq<nat>)
    requires Valid(g) && k < |m.toState|
  {
    forall l: nat :: l in edges <==> Reads(g, a, m, k, l)
  }

  lemma ReadsAsGraph(g: Grammar, a: Automaton, m: GotoTable, readRows: seq<seq<nat>>)
    requires Valid(g) && IsAutomaton(g, a) && IsGotoTable(g, a, m) && |readRows| == |m.toState|
    requires forall k :: 0 <= k < |readRows| ==> EdgesAre(g, a, m, k, readRows[k])
    ensures GraphOf(readRows) == ReadsGraph(g, a, m) && Closed(GraphOf(readRows))
  {
    hide Valid, IsAutomaton, IsGotoTable;
    TableRows(g, a, m);
    forall k | 0 <= k < |readRows| ensures GraphOf(readRows)[k] == ReadsGraph(g, a, m)[k] {
      forall l: nat ensures l in SetOf(readRows[k]) <==> l in ReadsGraph(g, a, m)[k] {
        assert EdgesAre(g, a, m, k, readRows[k]);
      }
    }
  }
}
