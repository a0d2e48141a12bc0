/** set_goto_map and map_goto of byacc/lalr.c: all transitions on nonterminals, sorted by
    symbol and then by source state, and the search for one of them. */
module Gotos {
  import opened Grammars
  import opened Items
  import opened Automata

  /** The state in `list` whose accessing symbol is x, or -1. */
  ghost function FindIn(states: seq<State>, list: seq<nat>, x: int): int
    requires ListOk(states, list)
  {
    if list == [] then -1
    else if states[list[0]].symbol == x then list[0]
    else FindIn(states, list[1..], x)
  }

  ghost predicate ListOk(states: seq<State>, list: seq<nat>) {
    && (forall j :: 0 <= j < |list| ==> list[j] < |states|)
    && forall i, j :: 0 <= i < j < |list| ==> states[list[i]].symbol < states[list[j]].symbol
  }

  ghost predicate RowsListed(a: Automaton) {
    |a.shifts| == |a.states| && forall q :: 0 <= q < |a.shifts| ==> ListOk(a.states, a.shifts[q])
  }

  lemma AutomatonRowsListed(g: Grammar, a: Automaton)
    requires Valid(g) && IsAutomaton(g, a)
    ensures RowsListed(a)
  {
    forall q | 0 <= q < |a.shifts| ensures ListOk(a.states, a.shifts[q]) {
      assert RowOk(g, a.states, a.shifts[q], a.reductions[q], q);
      forall j | 0 <= j < |a.shifts[q]| ensures a.shifts[q][j] < |a.states| {
        assert MoveOk(g, a.states, ItemsOf(g, a.states[q]), a.shifts[q][j]);
      }
    }
  }

  lemma {:induction false} FindInMember(states: seq<State>, list: seq<nat>, x: int)
    requires ListOk(states, list)
    ensures FindIn(states, list, x) == -1 ==> forall p :: p in list ==> states[p].symbol != x
    ensures FindIn(states, list, x) != -1 ==>
      FindIn(states, list, x) >= 0 && FindIn(states, list, x) in list && states[FindIn(states, list, x)].symbol == x
    ensures forall p :: p in list && states[p].symbol == x ==> FindIn(states, list, x) == p
  {
    if list != [] {
      FindInMember(states, list[1..], x);
      assert list == [list[0]] + list[1..];
      forall p | p in list && states[p].symbol == x ensures FindIn(states, list, x) == p {
        var j :| 0 <= j < |list| && list[j] == p;
        if j > 0 {
          assert states[list[0]].symbol < states[list[j]].symbol;
          assert p in list[1..];
        }
      }
    }
  }

  // ---------- The list of gotos ----------

  /** The gotos on x from the states below n, in ascending order of source state. */
  ghost function GotoList(a: Automaton, x: int, n: nat): seq<(nat, nat)>
    requires RowsListed(a) && n <= |a.shifts|
    decreases n, 0
  {
    if n == 0 then []
    else WithRow(a, x, n - 1, a.shifts[n - 1])
  }

  /** The gotos on x from the states below q, and from q as far as `list` goes. */
  ghost function WithRow(a: Automaton, x: int, q: nat, list: seq<nat>): seq<(nat, nat)>
    requires RowsListed(a) && q < |a.shifts| && ListOk(a.states, list)
    decreases q, 1
  {
    var p := FindIn(a.states, list, x);
    if p >= 0 then GotoList(a, x, q) + [(q, p)] else GotoList(a, x, q)
  }

  /** Where the gotos on the v-th nonterminal start. */
  ghost function GotoStart(g: Grammar, a: Automaton, v: nat): nat
    requires RowsListed(a)
  {
    if v == 0 then 0 else GotoStart(g, a, v - 1) + |GotoList(a, g.ntokens + v - 1, |a.shifts|)|
  }

  /** The arrays from_state and to_state hold the gotos of each nonterminal in its range, and
      goto_map, shifted by ntokens, says where each range starts. */
  ghost predicate IsGotoMap(g: Grammar, a: Automaton, gotoMap: seq<nat>, fromState: seq<nat>, toState: seq<nat>)
    requires Valid(g) && RowsListed(a)
  {
    && |gotoMap| == NVars(g) + 1
    && (forall v :: 0 <= v <= NVars(g) ==> gotoMap[v] == GotoStart(g, a, v))
    && |fromState| == |toState| == GotoStart(g, a, NVars(g))
    && (forall v :: 0 <= v < NVars(g) ==> VarRange(g, a, fromState, toState, v))
  }

  ghost predicate VarRange(g: Grammar, a: Automaton, fromState: seq<nat>, toState: seq<nat>, v: nat)
    requires RowsListed(a)
  {
    RangeHolds(g, a, fromState, toState, v, GotoList(a, g.ntokens + v, |a.shifts|))
  }

  /** The entries from GotoStart(v) on begin with `list`. */
  ghost predicate RangeHolds(g: Grammar, a: Automaton, fromState: seq<nat>, toState: seq<nat>, v: nat,
                             list: seq<(nat, nat)>)
    requires RowsListed(a)
  {
    && |fromState| == |toState| && GotoStart(g, a, v) + |list| <= |fromState|
    && forall m :: 0 <= m < |list| ==>
      fromState[GotoStart(g, a, v) + m] == list[m].0 && toState[GotoStart(g, a, v) + m] == list[m].1
  }

  // ---------- Lemmas about the lists ----------

  lemma {:induction false} ListAscends(a: Automaton, x: int, n: nat, k: nat)
    requires RowsListed(a) && n <= |a.shifts| && k < |GotoList(a, x, n)|
    ensures GotoList(a, x, n)[k].0 < n && Edge(a, GotoList(a, x, n)[k].0, x, GotoList(a, x, n)[k].1)
    ensures forall j :: k < j < |GotoList(a, x, n)| ==> GotoList(a, x, n)[k].0 < GotoList(a, x, n)[j].0
  {
    if n > 0 {
      FindInMember(a.states, a.shifts[n - 1], x);
      if k < |GotoList(a, x, n - 1)| {
        ListAscends(a, x, n - 1, k);
      }
    }
  }

  lemma {:induction false} ListComplete(a: Automaton, x: int, n: nat, q: nat, p: nat)
    requires RowsListed(a) && q < n <= |a.shifts| && Edge(a, q, x, p)
    ensures (q, p) in GotoList(a, x, n)
  {
    FindInMember(a.states, a.shifts[n - 1], x);
    var list := GotoList(a, x, n);
    assert list == WithRow(a, x, n - 1, a.shifts[n - 1]);
    if q < n - 1 {
      ListComplete(a, x, n - 1, q, p);
    } else {
      assert list == GotoList(a, x, q) + [(q, p)];
      assert list[|list| - 1] == (q, p);
    }
  }

  lemma {:induction false} ListGrows(a: Automaton, x: int, m: nat, n: nat)
    requires RowsListed(a) && m <= n <= |a.shifts|
    ensures GotoList(a, x, m) <= GotoList(a, x, n)
  {
    if m < n {
      ListGrows(a, x, m, n - 1);
    }
  }

  lemma {:induction false} StartsInOrder(g: Grammar, a: Automaton, u: nat, v: nat)
    requires RowsListed(a) && u < v
    ensures GotoStart(g, a, u) + |GotoList(a, g.ntokens + u, |a.shifts|)| <= GotoStart(g, a, v)
  {
    if u < v - 1 {
      StartsInOrder(g, a, u, v - 1);
    }
  }

  /** One more successor in front of the part of the row already taken. */
  lemma RowStep(a: Automaton, x: int, q: nat, list: seq<nat>)
    requires RowsListed(a) && q < |a.shifts| && ListOk(a.states, list) && list != []
    ensures ListOk(a.states, list[1..])
    ensures WithRow(a, x, q, list) ==
            if a.states[list[0]].symbol == x then GotoList(a, x, q) + [(q, list[0])] else WithRow(a, x, q, list[1..])
    ensures a.states[list[0]].symbol == x ==> WithRow(a, x, q, list[1..]) == GotoList(a, x, q)
  {
    FindInMember(a.states, list[1..], x);
  }

  /** Once a token is met going down the row, no nonterminal is left. */
  lemma {:induction false} TokensAhead(a: Automaton, x: int, list: seq<nat>, i: nat)
    requires ListOk(a.states, list) && i < |list| && a.states[list[i]].symbol < x
    ensures ListOk(a.states, list[i + 1..])
    ensures FindIn(a.states, list, x) == FindIn(a.states, list[i + 1..], x)
    decreases i
  {
    assert i > 0 ==> a.states[list[0]].symbol < a.states[list[i]].symbol;
    if i > 0 {
      assert list[1..][i..] == list[i + 1..];
      TokensAhead(a, x, list[1..], i - 1);
    }
  }

  // ---------- set_goto_map ----------

  /** counts holds, for each nonterminal, how many of its gotos have been met. */
  ghost predicate Counted(g: Grammar, a: Automaton, counts: seq<nat>, q: nat, list: seq<nat>)
    requires RowsListed(a) && q < |a.shifts| && ListOk(a.states, list)
  {
    forall v :: 0 <= v < |counts| ==> counts[v] == |WithRow(a, g.ntokens + v, q, list)|
  }

  ghost function Sum(counts: seq<nat>): nat {
    if counts == [] then 0 else Sum(counts[..|counts| - 1]) + counts[|counts| - 1]
  }

  lemma {:induction false} SumUpdate(counts: seq<nat>, v: nat)
    requires v < |counts|
    ensures Sum(counts[v := counts[v] + 1]) == Sum(counts) + 1
  {
    var n := |counts| - 1;
    var counts' := counts[v := counts[v] + 1];
    if v < n {
      SumUpdate(counts[..n], v);
      assert counts'[..n] == counts[..n][v := counts[v] + 1];
    } else {
      assert counts'[..n] == counts[..n];
    }
  }

  lemma {:induction false} SumOfZeros(counts: seq<nat>)
    requires forall v :: 0 <= v < |counts| ==> counts[v] == 0
    ensures Sum(counts) == 0
  {
    if counts != [] {
      SumOfZeros(counts[..|counts| - 1]);
    }
  }

  lemma {:induction false} SumIsStart(g: Grammar, a: Automaton, counts: seq<nat>, v: nat)
    requires RowsListed(a) && v <= |counts|
    requires forall u :: 0 <= u < |counts| ==> counts[u] == |GotoList(a, g.ntokens + u, |a.shifts|)|
    ensures Sum(counts[..v]) == GotoStart(g, a, v)
  {
    if v > 0 {
      SumIsStart(g, a, counts, v - 1);
      assert counts[..v][..v - 1] == counts[..v - 1];
    }
  }

  /** One count, and the total, go up when the successor at the front of the row is taken. */
  lemma CountStep(g: Grammar, a: Automaton, counts: seq<nat>, q: nat, list: seq<nat>)
    requires RowsListed(a) && q < |a.shifts| && ListOk(a.states, list) && list != []
    requires ListOk(a.states, list[1..]) && Counted(g, a, counts, q, list[1..])
    requires g.ntokens <= a.states[list[0]].symbol < g.ntokens + |counts|
    ensures var v := a.states[list[0]].symbol - g.ntokens;
      Counted(g, a, counts[v := counts[v] + 1], q, list)
  {
    var v := a.states[list[0]].symbol - g.ntokens;
    var counts' := counts[v := counts[v] + 1];
    forall u | 0 <= u < |counts'| ensures counts'[u] == |WithRow(a, g.ntokens + u, q, list)| {
      RowStep(a, g.ntokens + u, q, list);
    }
  }

  /** Counts the gotos of row q, from its end down to the first token. */
  method CountRow(g: Grammar, a: Automaton, q: nat, gotoMap: array<nat>, ngotos: nat) returns (ngotos': nat)
    requires Valid(g) && IsAutomaton(g, a) && RowsListed(a) && q < |a.shifts|
    requires gotoMap.Length == NVars(g) + 1
    requires Counted(g, a, gotoMap[..NVars(g)], q, []) && ngotos == Sum(gotoMap[..NVars(g)])
    modifies gotoMap
    ensures Counted(g, a, gotoMap[..NVars(g)], q, a.shifts[q]) && ngotos' == Sum(gotoMap[..NVars(g)])
    ensures gotoMap[NVars(g)] == old(gotoMap[NVars(g)])
  {
    hide IsAutomaton, Counted, Sum, Valid;
    ngotos' := ngotos;
    var list := a.shifts[q];
    ghost var nvars := NVars(g);
    var i := |list|;
    assert list[i..] == [];
    while i > 0 && IsVar(g, a.states[list[i - 1]].symbol)
      invariant 0 <= i <= |list| && ListOk(a.states, list[i..])
      invariant Counted(g, a, gotoMap[..nvars], q, list[i..]) && ngotos' == Sum(gotoMap[..nvars])
      invariant gotoMap[nvars] == old(gotoMap[nvars])
    {
      i := i - 1;
      var symbol := a.states[list[i]].symbol;
      EdgeGivesKernel(g, a, q, symbol, list[i]);
      assert list[i..][1..] == list[i + 1..];
      ghost var counts := gotoMap[..nvars];
      CountStep(g, a, counts, q, list[i..]);
      SumUpdate(counts, symbol - g.ntokens);
      ngotos' := ngotos' + 1;
      gotoMap[symbol - g.ntokens] := gotoMap[symbol - g.ntokens] + 1;
      assert gotoMap[..nvars] == counts[symbol - g.ntokens := counts[symbol - g.ntokens] + 1];
    }
    CountedRow(g, a, gotoMap[..nvars], q, i);
  }

  lemma CountedRow(g: Grammar, a: Automaton, counts: seq<nat>, q: nat, i: nat)
    requires RowsListed(a) && q < |a.shifts| && i <= |a.shifts[q]| && ListOk(a.states, a.shifts[q][i..])
    requires i > 0 ==> a.states[a.shifts[q][i - 1]].symbol < g.ntokens
    requires Counted(g, a, counts, q, a.shifts[q][i..])
    ensures Counted(g, a, counts, q, a.shifts[q])
  {
    RowEnds(g, a, q, i);
  }

  /** What is left of a row below a token holds no nonterminal. */
  lemma RowEnds(g: Grammar, a: Automaton, q: nat, i: nat)
    requires RowsListed(a) && q < |a.shifts| && i <= |a.shifts[q]|
    requires i > 0 ==> a.states[a.shifts[q][i - 1]].symbol < g.ntokens
    ensures ListOk(a.states, a.shifts[q][i..])
    ensures forall x :: x >= g.ntokens ==> WithRow(a, x, q, a.shifts[q]) == WithRow(a, x, q, a.shifts[q][i..])
  {
    var list := a.shifts[q];
    if i == 0 {
      assert list[i..] == list;
    } else {
      forall x | x >= g.ntokens ensures WithRow(a, x, q, list) == WithRow(a, x, q, list[i..]) {
        TokensAhead(a, x, list, i - 1);
      }
    }
  }

  /** What has been written for a nonterminal fits in its range. */
  lemma WithRowFits(a: Automaton, x: int, q: nat, i: nat)
    requires RowsListed(a) && q < |a.shifts| && i <= |a.shifts[q]| && ListOk(a.states, a.shifts[q][i..])
    ensures |WithRow(a, x, q, a.shifts[q][i..])| <= |GotoList(a, x, |a.shifts|)|
  {
    FindInMember(a.states, a.shifts[q][i..], x);
    FindInMember(a.states, a.shifts[q], x);
    ListGrows(a, x, q + 1, |a.shifts|);
  }

  /** There is room in the range of a nonterminal for the next of its gotos. */
  lemma RangeRoom(g: Grammar, a: Automaton, v: nat, q: nat, i: nat, nvars: nat)
    requires RowsListed(a) && q < |a.shifts| && i < |a.shifts[q]| && v < nvars
    requires a.states[a.shifts[q][i]].symbol == g.ntokens + v
    ensures |GotoList(a, g.ntokens + v, q)| < |GotoList(a, g.ntokens + v, |a.shifts|)|
    ensures GotoStart(g, a, v) + |GotoList(a, g.ntokens + v, |a.shifts|)| <= GotoStart(g, a, nvars)
  {
    FindInMember(a.states, a.shifts[q], g.ntokens + v);
    ListGrows(a, g.ntokens + v, q + 1, |a.shifts|);
    StartsInOrder(g, a, v, nvars);
  }

  /** The range of v: its end pointer, and its entries so far. */
  ghost predicate FilledFor(g: Grammar, a: Automaton, end: nat, fromState: seq<nat>, toState: seq<nat>, v: nat,
                            list: seq<(nat, nat)>)
    requires RowsListed(a)
  {
    end == GotoStart(g, a, v) + |list| && RangeHolds(g, a, fromState, toState, v, list)
  }

  /** temp_map points, for each nonterminal, past the entries written so far, which are right. */
  ghost predicate Filled(g: Grammar, a: Automaton, temp: seq<nat>, fromState: seq<nat>, toState: seq<nat>, q: nat,
                         list: seq<nat>)
    requires RowsListed(a) && q < |a.shifts| && ListOk(a.states, list)
  {
    forall v :: 0 <= v < |temp| ==> FilledFor(g, a, temp[v], fromState, toState, v, WithRow(a, g.ntokens + v, q, list))
  }

  lemma FillSame(g: Grammar, a: Automaton, fromState: seq<nat>, toState: seq<nat>, v: nat, list: seq<(nat, nat)>,
                 k: nat, q: nat, p: nat)
    requires RowsListed(a) && k < |fromState| && FilledFor(g, a, k, fromState, toState, v, list)
    ensures FilledFor(g, a, k + 1, fromState[k := q], toState[k := p], v, list + [(q, p)])
  {
  }

  lemma FillOther(g: Grammar, a: Automaton, end: nat, fromState: seq<nat>, toState: seq<nat>, v: nat,
                  list: seq<(nat, nat)>, k: nat, q: nat, p: nat)
    requires RowsListed(a) && k < |fromState| == |toState| && FilledFor(g, a, end, fromState, toState, v, list)
    requires k < GotoStart(g, a, v) || GotoStart(g, a, v) + |list| <= k
    ensures FilledFor(g, a, end, fromState[k := q], toState[k := p], v, list)
  {
  }

  lemma FillStep(g: Grammar, a: Automaton, temp: seq<nat>, fromState: seq<nat>, toState: seq<nat>, q: nat, i: nat,
                 nvars: nat)
    requires RowsListed(a) && q < |a.shifts| && i < |a.shifts[q]| && |temp| == nvars
    requires ListOk(a.states, a.shifts[q][i..]) && ListOk(a.states, a.shifts[q][i + 1..])
    requires Filled(g, a, temp, fromState, toState, q, a.shifts[q][i + 1..])
    requires |fromState| == |toState| == GotoStart(g, a, nvars)
    requires g.ntokens <= a.states[a.shifts[q][i]].symbol < g.ntokens + nvars
    ensures var v := a.states[a.shifts[q][i]].symbol - g.ntokens;
      temp[v] < |fromState| &&
      Filled(g, a, temp[v := temp[v] + 1], fromState[temp[v] := q], toState[temp[v] := a.shifts[q][i]], q, a.shifts[q][i..])
  {
    hide FilledFor, RangeHolds, GotoStart, GotoList, WithRow;
    var p := a.shifts[q][i];
    var v: nat := a.states[p].symbol - g.ntokens;
    assert a.shifts[q][i..][1..] == a.shifts[q][i + 1..];
    RowStep(a, g.ntokens + v, q, a.shifts[q][i..]);
    EndOfRange(g, a, temp[v], fromState, toState, v, GotoList(a, g.ntokens + v, q));
    RangeRoom(g, a, v, q, i, nvars);
    var k := temp[v];
    var temp', from', to' := temp[v := k + 1], fromState[k := q], toState[k := p];
    forall u | 0 <= u < |temp'|
      ensures FilledFor(g, a, temp'[u], from', to', u, WithRow(a, g.ntokens + u, q, a.shifts[q][i..]))
    {
      RowStep(a, g.ntokens + u, q, a.shifts[q][i..]);
      if u == v {
        FillSame(g, a, fromState, toState, v, GotoList(a, g.ntokens + v, q), k, q, p);
      } else {
        OtherRange(g, a, u, v, q, i);
        FillOther(g, a, temp[u], fromState, toState, u, WithRow(a, g.ntokens + u, q, a.shifts[q][i + 1..]), k, q, p);
      }
    }
  }

  lemma EndOfRange(g: Grammar, a: Automaton, end: nat, fromState: seq<nat>, toState: seq<nat>, v: nat,
                   list: seq<(nat, nat)>)
    requires RowsListed(a) && FilledFor(g, a, end, fromState, toState, v, list)
    ensures end == GotoStart(g, a, v) + |list|
  {
  }

  /** The next entry for v lies outside the entries written for u. */
  lemma OtherRange(g: Grammar, a: Automaton, u: nat, v: nat, q: nat, i: nat)
    requires RowsListed(a) && q < |a.shifts| && i < |a.shifts[q]| && u != v && ListOk(a.states, a.shifts[q][i + 1..])
    requires a.states[a.shifts[q][i]].symbol == g.ntokens + v
    ensures var k := GotoStart(g, a, v) + |GotoList(a, g.ntokens + v, q)|;
      k < GotoStart(g, a, u) || GotoStart(g, a, u) + |WithRow(a, g.ntokens + u, q, a.shifts[q][i + 1..])| <= k
  {
    hide GotoStart, GotoList, WithRow;
    RangeRoom(g, a, v, q, i, v + 1);
    WithRowFits(a, g.ntokens + u, q, i + 1);
    if v < u {
      StartsInOrder(g, a, v, u);
    } else {
      StartsInOrder(g, a, u, v);
    }
  }

  /** Writes the gotos of row q. */
  method FillRow(g: Grammar, a: Automaton, q: nat, temp: array<nat>, fromState: array<nat>, toState: array<nat>)
    requires Valid(g) && IsAutomaton(g, a) && RowsListed(a) && q < |a.shifts|
    requires temp.Length == NVars(g) && temp != fromState && temp != toState && fromState != toState
    requires fromState.Length == toState.Length == GotoStart(g, a, NVars(g))
    requires Filled(g, a, temp[..], fromState[..], toState[..], q, [])
    modifies temp, fromState, toState
    ensures Filled(g, a, temp[..], fromState[..], toState[..], q, a.shifts[q])
  {
    hide IsAutomaton, Filled, Valid, GotoStart;
    var list := a.shifts[q];
    ghost var nvars := NVars(g);
    var i := |list|;
    assert list[i..] == [];
    while i > 0 && IsVar(g, a.states[list[i - 1]].symbol)
      invariant 0 <= i <= |list| && ListOk(a.states, list[i..])
      invariant Filled(g, a, temp[..], fromState[..], toState[..], q, list[i..])
    {
      i := i - 1;
      var state2 := list[i];
      var symbol := a.states[state2].symbol;
      EdgeGivesKernel(g, a, q, symbol, state2);
      assert ListOk(a.states, list[i..]);
      FillStep(g, a, temp[..], fromState[..], toState[..], q, i, nvars);
      ghost var t, f, o := temp[..], fromState[..], toState[..];
      var k := temp[symbol - g.ntokens];
      temp[symbol - g.ntokens] := k + 1;
      fromState[k] := q;
      toState[k] := state2;
      assert fromState[..] == f[k := q] && toState[..] == o[k := state2] && temp[..] == t[symbol - g.ntokens := k + 1];
    }
    FilledRow(g, a, temp[..], fromState[..], toState[..], q, i);
  }

  lemma FilledRow(g: Grammar, a: Automaton, temp: seq<nat>, fromState: seq<nat>, toState: seq<nat>, q: nat, i: nat)
    requires RowsListed(a) && q < |a.shifts| && i <= |a.shifts[q]| && ListOk(a.states, a.shifts[q][i..])
    requires i > 0 ==> a.states[a.shifts[q][i - 1]].symbol < g.ntokens
    requires Filled(g, a, temp, fromState, toState, q, a.shifts[q][i..])
    ensures Filled(g, a, temp, fromState, toState, q, a.shifts[q])
  {
    RowEnds(g, a, q, i);
  }

  method SetGotoMap(g: Grammar, a: Automaton) returns (gotoMap: array<nat>, fromState: array<nat>, toState: array<nat>)
    requires Valid(g) && IsAutomaton(g, a)
    ensures fresh(gotoMap) && fresh(fromState) && fresh(toState)
    ensures RowsListed(a) && IsGotoMap(g, a, gotoMap[..], fromState[..], toState[..])
  {
    AutomatonRowsListed(g, a);
    hide IsAutomaton;
    var nvars := g.nsyms - g.ntokens;
    var temp;
    gotoMap, temp := CountGotos(g, a);
    var ngotos := gotoMap[nvars];
    fromState := new nat[ngotos];
    toState := new nat[ngotos];
    FillGotos(g, a, temp, fromState, toState);
  }

  /** The first two passes: counting, and turning the counts into starting places. */
  method CountGotos(g: Grammar, a: Automaton) returns (gotoMap: array<nat>, temp: array<nat>)
    requires Valid(g) && IsAutomaton(g, a) && RowsListed(a)
    ensures fresh(gotoMap) && fresh(temp) && gotoMap.Length == NVars(g) + 1 && temp.Length == NVars(g)
    ensures gotoMap != temp
    ensures forall v :: 0 <= v <= NVars(g) ==> gotoMap[v] == GotoStart(g, a, v)
    ensures forall v :: 0 <= v < NVars(g) ==> temp[v] == GotoStart(g, a, v)
  {
    var nvars := g.nsyms - g.ntokens;
    gotoMap := new nat[nvars + 1](_ => 0);
    temp := new nat[nvars];
    var ngotos := CountRows(g, a, gotoMap);
    TakeStarts(g, a, gotoMap, temp, nvars, ngotos);
  }

  method CountRows(g: Grammar, a: Automaton, gotoMap: array<nat>) returns (ngotos: nat)
    requires Valid(g) && IsAutomaton(g, a) && RowsListed(a)
    requires gotoMap.Length == NVars(g) + 1 && forall v :: 0 <= v < gotoMap.Length ==> gotoMap[v] == 0
    modifies gotoMap
    ensures forall v :: 0 <= v < NVars(g) ==> gotoMap[v] == |GotoList(a, g.ntokens + v, |a.shifts|)|
    ensures ngotos == Sum(gotoMap[..NVars(g)])
  {
    hide IsAutomaton, Valid, Sum;
    ghost var nvars := NVars(g);
    ngotos := 0;
    SumOfZeros(gotoMap[..nvars]);
    for q := 0 to |a.shifts|
      invariant forall v :: 0 <= v < nvars ==> gotoMap[v] == |GotoList(a, g.ntokens + v, q)|
      invariant ngotos == Sum(gotoMap[..nvars])
    {
      ngotos := CountRow(g, a, q, gotoMap, ngotos);
      assert forall v :: 0 <= v < nvars ==> gotoMap[..nvars][v] == |WithRow(a, g.ntokens + v, q, a.shifts[q])|;
    }
  }

  method TakeStarts(g: Grammar, a: Automaton, gotoMap: array<nat>, temp: array<nat>, nvars: nat, ngotos: nat)
    requires RowsListed(a) && gotoMap != temp && gotoMap.Length == nvars + 1 && temp.Length == nvars
    requires forall v :: 0 <= v < nvars ==> gotoMap[v] == |GotoList(a, g.ntokens + v, |a.shifts|)|
    requires ngotos == Sum(gotoMap[..nvars])
    modifies gotoMap, temp
    ensures forall v :: 0 <= v <= nvars ==> gotoMap[v] == GotoStart(g, a, v)
    ensures forall v :: 0 <= v < nvars ==> temp[v] == GotoStart(g, a, v)
  {
    hide Sum, GotoList, GotoStart, RowsListed;
    ghost var counts := gotoMap[..nvars];
    SumIsStart(g, a, counts, nvars);
    assert counts[..nvars] == counts;
    AddUp(g, a, gotoMap, temp, nvars);
    for i := 0 to nvars
      invariant forall v :: 0 <= v < i ==> gotoMap[v] == GotoStart(g, a, v)
      invariant forall v :: 0 <= v < nvars ==> temp[v] == GotoStart(g, a, v)
    {
      gotoMap[i] := temp[i];
    }
    gotoMap[nvars] := ngotos;
  }

  method AddUp(g: Grammar, a: Automaton, gotoMap: array<nat>, temp: array<nat>, nvars: nat)
    requires RowsListed(a) && gotoMap != temp && gotoMap.Length == nvars + 1 && temp.Length == nvars
    requires forall v :: 0 <= v < nvars ==> gotoMap[v] == |GotoList(a, g.ntokens + v, |a.shifts|)|
    modifies temp
    ensures forall v :: 0 <= v < nvars ==> temp[v] == GotoStart(g, a, v)
  {
    hide GotoList, RowsListed, GotoStart;
    StartFirst(g, a);
    var k := 0;
    for i := 0 to nvars
      invariant k == GotoStart(g, a, i)
      invariant forall v :: 0 <= v < i ==> temp[v] == GotoStart(g, a, v)
    {
      StartNext(g, a, i);
      temp[i] := k;
      k := k + gotoMap[i];
    }
  }

  /** After the rows below n, every goto of theirs is in its place. */
  ghost predicate FilledUpTo(g: Grammar, a: Automaton, temp: seq<nat>, fromState: seq<nat>, toState: seq<nat>, n: nat)
    requires RowsListed(a) && n <= |a.shifts|
  {
    forall v :: 0 <= v < |temp| ==> FilledFor(g, a, temp[v], fromState, toState, v, GotoList(a, g.ntokens + v, n))
  }

  lemma RowBegins(g: Grammar, a: Automaton, temp: seq<nat>, fromState: seq<nat>, toState: seq<nat>, q: nat)
    requires RowsListed(a) && q < |a.shifts| && FilledUpTo(g, a, temp, fromState, toState, q)
    ensures Filled(g, a, temp, fromState, toState, q, [])
  {
  }

  lemma RowDone(g: Grammar, a: Automaton, temp: seq<nat>, fromState: seq<nat>, toState: seq<nat>, q: nat)
    requires RowsListed(a) && q < |a.shifts| && Filled(g, a, temp, fromState, toState, q, a.shifts[q])
    ensures FilledUpTo(g, a, temp, fromState, toState, q + 1)
  {
  }

  lemma NothingFilled(g: Grammar, a: Automaton, temp: seq<nat>, fromState: seq<nat>, toState: seq<nat>)
    requires RowsListed(a) && |fromState| == |toState| == GotoStart(g, a, |temp|)
    requires forall v :: 0 <= v < |temp| ==> temp[v] == GotoStart(g, a, v)
    ensures FilledUpTo(g, a, temp, fromState, toState, 0)
  {
    forall v | 0 <= v < |temp| ensures GotoStart(g, a, v) <= GotoStart(g, a, |temp|) {
      StartsInOrder(g, a, v, |temp|);
    }
  }

  lemma AllFilled(g: Grammar, a: Automaton, temp: seq<nat>, fromState: seq<nat>, toState: seq<nat>)
    requires RowsListed(a) && FilledUpTo(g, a, temp, fromState, toState, |a.shifts|)
    ensures forall v :: 0 <= v < |temp| ==> VarRange(g, a, fromState, toState, v)
  {
    forall v | 0 <= v < |temp| ensures VarRange(g, a, fromState, toState, v) {
      assert FilledFor(g, a, temp[v], fromState, toState, v, GotoList(a, g.ntokens + v, |a.shifts|));
    }
  }

  /** The third pass: every goto goes to its place. */
  method FillGotos(g: Grammar, a: Automaton, temp: array<nat>, fromState: array<nat>, toState: array<nat>)
    requires Valid(g) && IsAutomaton(g, a) && RowsListed(a)
    requires temp.Length == NVars(g) && temp != fromState && temp != toState && fromState != toState
    requires fromState.Length == toState.Length == GotoStart(g, a, NVars(g))
    requires forall v :: 0 <= v < NVars(g) ==> temp[v] == GotoStart(g, a, v)
    modifies temp, fromState, toState
    ensures forall v :: 0 <= v < NVars(g) ==> VarRange(g, a, fromState[..], toState[..], v)
  {
    hide IsAutomaton, Valid, GotoStart, Filled, FilledUpTo, VarRange;
    NothingFilled(g, a, temp[..], fromState[..], toState[..]);
    for q := 0 to |a.shifts|
      invariant FilledUpTo(g, a, temp[..], fromState[..], toState[..], q)
    {
      RowBegins(g, a, temp[..], fromState[..], toState[..], q);
      FillRow(g, a, q, temp, fromState, toState);
      RowDone(g, a, temp[..], fromState[..], toState[..], q);
    }
    AllFilled(g, a, temp[..], fromState[..], toState[..]);
  }

  // ---------- What the goto arrays say ----------

  datatype GotoTable = GotoTable(gotoMap: seq<nat>, fromState: seq<nat>, toState: seq<nat>)

  ghost predicate IsGotoTable(g: Grammar, a: Automaton, m: GotoTable)
    requires Valid(g)
  {
    RowsListed(a) && IsGotoMap(g, a, m.gotoMap, m.fromState, m.toState)
  }

  /** Goto number k leaves state q over nonterminal x and arrives in state p. */
  ghost predicate GotoIs(a: Automaton, m: GotoTable, k: nat, q: nat, x: int, p: nat) {
    k < |m.fromState| && k < |m.toState| && m.fromState[k] == q && m.toState[k] == p && Edge(a, q, x, p)
  }

  lemma {:induction false} RangeOfGoto(g: Grammar, a: Automaton, k: nat, n: nat) returns (v: nat)
    requires RowsListed(a) && k < GotoStart(g, a, n)
    ensures v < n && GotoStart(g, a, v) <= k < GotoStart(g, a, v) + |GotoList(a, g.ntokens + v, |a.shifts|)|
    decreases n
  {
    if k < GotoStart(g, a, n - 1) {
      v := RangeOfGoto(g, a, k, n - 1);
    } else {
      v := n - 1;
    }
  }

  /** Every entry is a transition on a nonterminal. */
  lemma GotoEntry(g: Grammar, a: Automaton, m: GotoTable, k: nat) returns (v: nat)
    requires Valid(g) && IsAutomaton(g, a) && IsGotoTable(g, a, m) && k < |m.fromState|
    ensures v < NVars(g) && |m.toState| == |m.fromState| && m.fromState[k] < |a.states| && m.toState[k] < |a.states|
    ensures GotoIs(a, m, k, m.fromState[k], g.ntokens + v, m.toState[k])
    ensures |m.gotoMap| == NVars(g) + 1 && m.gotoMap[v] <= k < m.gotoMap[v + 1]
  {
    hide Valid, IsAutomaton, GotoList, GotoStart;
    v := RangeOfGoto(g, a, k, NVars(g));
    assert VarRange(g, a, m.fromState, m.toState, v);
    var list := GotoList(a, g.ntokens + v, |a.shifts|);
    var j := k - GotoStart(g, a, v);
    ListAscends(a, g.ntokens + v, |a.shifts|, j);
    assert m.fromState[GotoStart(g, a, v) + j] == list[j].0 && m.toState[GotoStart(g, a, v) + j] == list[j].1;
    StartNext(g, a, v);
    EdgeGivesKernel(g, a, list[j].0, g.ntokens + v, list[j].1);
  }

  /** Every transition on a nonterminal is an entry. */
  lemma GotoExists(g: Grammar, a: Automaton, m: GotoTable, q: nat, x: int, p: nat) returns (k: nat)
    requires Valid(g) && IsAutomaton(g, a) && IsGotoTable(g, a, m) && Edge(a, q, x, p) && IsVar(g, x)
    ensures GotoIs(a, m, k, q, x, p)
    ensures 0 <= x - g.ntokens < NVars(g) && |m.gotoMap| == NVars(g) + 1
    ensures m.gotoMap[x - g.ntokens] <= k < m.gotoMap[x - g.ntokens + 1]
  {
    hide Valid, IsAutomaton, GotoList, GotoStart;
    EdgeGivesKernel(g, a, q, x, p);
    var v: nat := x - g.ntokens;
    assert VarRange(g, a, m.fromState, m.toState, v);
    ListComplete(a, x, |a.shifts|, q, p);
    var list := GotoList(a, g.ntokens + v, |a.shifts|);
    var j :| 0 <= j < |list| && list[j] == (q, p);
    k := GotoStart(g, a, v) + j;
    StartNext(g, a, v);
    assert list[j].0 == q && list[j].1 == p;
  }

  lemma StartFirst(g: Grammar, a: Automaton)
    requires RowsListed(a)
    ensures GotoStart(g, a, 0) == 0
  {
  }

  lemma StartNext(g: Grammar, a: Automaton, v: nat)
    requires RowsListed(a)
    ensures GotoStart(g, a, v + 1) == GotoStart(g, a, v) + |GotoList(a, g.ntokens + v, |a.shifts|)|
  {
  }

  /** Within the range of one nonterminal the source states ascend strictly. */
  lemma RangeAscends(g: Grammar, a: Automaton, m: GotoTable, v: nat, j: nat, k: nat)
    requires Valid(g) && IsAutomaton(g, a) && IsGotoTable(g, a, m) && v < NVars(g)
    requires |m.gotoMap| == NVars(g) + 1 && m.gotoMap[v] <= j < k < m.gotoMap[v + 1]
    ensures k < |m.fromState| && m.fromState[j] < m.fromState[k]
  {
    hide Valid, IsAutomaton, GotoList, GotoStart;
    assert VarRange(g, a, m.fromState, m.toState, v);
    StartNext(g, a, v);
    var s, list := GotoStart(g, a, v), GotoList(a, g.ntokens + v, |a.shifts|);
    var d, e := j - s, k - s;
    ListAscends(a, g.ntokens + v, |a.shifts|, d);
    assert m.fromState[s + d] == list[d].0 && m.fromState[s + e] == list[e].0;
  }

  /** So a goto is determined by its source state and its symbol. */
  lemma GotoUnique(g: Grammar, a: Automaton, m: GotoTable, j: nat, k: nat, q: nat, x: int, p: nat, p': nat)
    requires Valid(g) && IsAutomaton(g, a) && IsGotoTable(g, a, m)
    requires GotoIs(a, m, j, q, x, p) && GotoIs(a, m, k, q, x, p')
    ensures j == k
  {
    hide Valid, IsAutomaton, IsGotoTable;
    var u := GotoEntry(g, a, m, j);
    var v := GotoEntry(g, a, m, k);
    if j < k {
      RangeAscends(g, a, m, u, j, k);
    } else if k < j {
      RangeAscends(g, a, m, u, k, j);
    }
  }

  /** The binary search. Its upper bound starts one past the range of the symbol, yet the
      probe never falls outside the range, because the pair sought is there. */
  method MapGoto(g: Grammar, a: Automaton, m: GotoTable, state: nat, symbol: int, ghost target: nat) returns (k: nat)
    requires Valid(g) && IsAutomaton(g, a) && IsGotoTable(g, a, m)
    requires Edge(a, state, symbol, target) && IsVar(g, symbol)
    ensures GotoIs(a, m, k, state, symbol, target)
  {
    hide IsAutomaton, IsGotoTable, Valid;
    ghost var sought := GotoExists(g, a, m, state, symbol, target);
    ghost var v: nat := symbol - g.ntokens;
    var low: int := m.gotoMap[symbol - g.ntokens];
    var high: int := m.gotoMap[symbol - g.ntokens + 1];
    k := low;
    var found := false;
    while !found
      invariant m.gotoMap[v] <= low && high <= m.gotoMap[v + 1]
      invariant low <= sought <= high && sought < m.gotoMap[v + 1]
      invariant found ==> k == sought
      decreases high - low, !found
    {
      var middle := (low + high) / 2;
      assert m.gotoMap[v] <= middle < m.gotoMap[v + 1];
      if middle < sought {
        RangeAscends(g, a, m, v, middle, sought);
      } else if sought < middle {
        RangeAscends(g, a, m, v, sought, middle);
      }
      var s := m.fromState[middle];
      if s == state {
        k, found := middle, true;
      } else if s < state {
        low := middle + 1;
      } else {
        high := middle - 1;
      }
    }
  }
}
