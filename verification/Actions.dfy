/** parse_actions of byacc/mkpar.c: for every state, its shifts and reductions in one list,
    sorted by token, then shifts before reductions, then by rule. */
module Actions {
  import opened Bits
  import opened Sequences
  import opened Grammars
  import opened Items
  import opened Automata
  import opened Gotos
  import opened Relations
  import opened Lookaheads
  import opened Lalr

  datatype Code = SHIFT | REDUCE | ERROR

  /** `number` is a state for a shift and a rule for a reduction. */
  datatype Action = Action(symbol: nat, number: nat, prec: int, code: Code, assoc: int, suppressed: nat)

  /** symbol_prec, symbol_assoc, rprec and rassoc. */
  datatype Precedences = Precedences(symbolPrec: seq<int>, symbolAssoc: seq<int>, rulePrec: seq<int>, ruleAssoc: seq<int>)

  predicate Covers(g: Grammar, pr: Precedences) {
    |pr.symbolPrec| == |pr.symbolAssoc| == g.nsyms && |pr.rulePrec| == |pr.ruleAssoc| == |g.rlhs|
  }

  /** The order of the list. */
  predicate Precedes(x: Action, y: Action) {
    || x.symbol < y.symbol
    || (x.symbol == y.symbol && x.code == SHIFT && y.code == REDUCE)
    || (x.symbol == y.symbol && x.code == REDUCE && y.code == REDUCE && x.number < y.number)
  }

  ghost predicate Sorted(row: seq<Action>) {
    forall i, j :: 0 <= i < j < |row| ==> Precedes(row[i], row[j])
  }

  ghost predicate Plain(row: seq<Action>) {
    forall i :: 0 <= i < |row| ==> row[i].code != ERROR && row[i].suppressed == 0
  }

  function ShiftAction(pr: Precedences, t: nat, q: nat): Action
    requires t < |pr.symbolPrec| && t < |pr.symbolAssoc|
  {
    Action(t, q, pr.symbolPrec[t], SHIFT, pr.symbolAssoc[t], 0)
  }

  function ReduceAction(pr: Precedences, r: nat, t: nat): Action
    requires r < |pr.rulePrec| && r < |pr.ruleAssoc|
  {
    Action(t, r, pr.rulePrec[r], REDUCE, pr.ruleAssoc[r], 0)
  }

  /** act shifts a token, going to one of the states of `list`. */
  ghost predicate ShiftsTo(g: Grammar, a: Automaton, pr: Precedences, list: seq<nat>, act: Action)
    requires Covers(g, pr)
  {
    && act.number in list && act.number < |a.states| && act.symbol == a.states[act.number].symbol
    && act.symbol < g.ntokens < g.nsyms && act == ShiftAction(pr, act.symbol, act.number)
  }

  /** act reduces by rule r on a token, at least `low`, of `row`. */
  ghost predicate ReducesOn(g: Grammar, pr: Precedences, row: set<nat>, r: nat, low: nat, act: Action)
    requires Covers(g, pr) && r < |g.rlhs|
  {
    low <= act.symbol < g.ntokens && act.symbol in row && act == ReduceAction(pr, r, act.symbol)
  }

  // ---------- get_shifts ----------

  method GetShifts(g: Grammar, a: Automaton, pr: Precedences, stateno: nat) returns (actions: seq<Action>)
    requires Valid(g) && IsAutomaton(g, a) && Covers(g, pr) && stateno < |a.states|
    ensures Sorted(actions) && Plain(actions)
    ensures forall act :: act in actions <==> ShiftsTo(g, a, pr, a.shifts[stateno], act)
  {
    hide IsAutomaton;
    AutomatonRowsListed(g, a);
    AutomatonSizes(g, a);
    var toState := a.shifts[stateno];
    assert ListOk(a.states, toState);
    actions := [];
    var i := |toState|;
    while i > 0
      invariant 0 <= i <= |toState|
      invariant Sorted(actions) && Plain(actions)
      invariant forall act :: act in actions <==> ShiftsTo(g, a, pr, toState[i..], act)
    {
      i := i - 1;
      ghost var before := actions;
      var k := toState[i];
      var symbol := a.states[k].symbol;
      assert toState[i..] == [k] + toState[i + 1..];
      if !IsVar(g, symbol) {
        var temp := ShiftAction(pr, symbol, k);
        forall c | 0 <= c < |actions| ensures Precedes(temp, actions[c]) {
          assert ShiftsTo(g, a, pr, toState[i + 1..], actions[c]);
        }
        actions := [temp] + actions;
        assert forall act :: act in actions <==> act == temp || act in before;
      }
    }
    assert toState[0..] == toState;
  }

  lemma AutomatonSizes(g: Grammar, a: Automaton)
    requires Valid(g) && IsAutomaton(g, a)
    ensures |a.shifts| == |a.reductions| == |a.states| > 0
  {
  }

  // ---------- add_reduce ----------

  lemma PrecedesTrans(x: Action, y: Action, z: Action)
    requires Precedes(x, y) && Precedes(y, z)
    ensures Precedes(x, z)
  {
  }

  /** Inserting between what precedes the new action and what it precedes keeps the order. */
  lemma InsertSorted(row: seq<Action>, k: nat, x: Action)
    requires Sorted(row) && k <= |row|
    requires forall i :: 0 <= i < k ==> Precedes(row[i], x)
    requires k < |row| ==> Precedes(x, row[k])
    ensures Sorted(row[..k] + [x] + row[k..])
    ensures forall y :: y in row[..k] + [x] + row[k..] <==> y == x || y in row
  {
    hide Precedes;
    var after := row[..k] + [x] + row[k..];
    forall i | k < i < |row| ensures Precedes(x, row[i]) {
      PrecedesTrans(x, row[k], row[i]);
    }
    assert row == row[..k] + row[k..];
    forall i, j | 0 <= i < j < |after| ensures Precedes(after[i], after[j]) {
      if j > k {
        assert after[j] == row[j - 1];
        if i > k {
          assert after[i] == row[i - 1];
        }
      }
    }
  }

  method AddReduce(pr: Precedences, actions: seq<Action>, ruleno: nat, symbol: nat) returns (r: seq<Action>)
    requires ruleno < |pr.rulePrec| && ruleno < |pr.ruleAssoc|
    requires Sorted(actions) && Plain(actions)
    requires forall act :: act in actions && act.code == REDUCE && act.symbol == symbol ==> act.number != ruleno
    ensures Sorted(r) && Plain(r)
    ensures forall act :: act in r <==> act == ReduceAction(pr, ruleno, symbol) || act in actions
  {
    var temp := ReduceAction(pr, ruleno, symbol);
    var next := 0;
    while next < |actions| && actions[next].symbol < symbol
      invariant 0 <= next <= |actions|
      invariant forall i :: 0 <= i < next ==> Precedes(actions[i], temp)
    {
      next := next + 1;
    }
    assert next < |actions| ==> actions[next].symbol >= symbol;
    while next < |actions| && actions[next].symbol == symbol && actions[next].code == SHIFT
      invariant 0 <= next <= |actions|
      invariant next < |actions| ==> actions[next].symbol >= symbol
      invariant forall i :: 0 <= i < next ==> Precedes(actions[i], temp)
    {
      next := next + 1;
      assert next < |actions| ==> Precedes(actions[next - 1], actions[next]);
    }
    assert next < |actions| && actions[next].symbol == symbol ==> actions[next].code == REDUCE;
    while next < |actions| && actions[next].symbol == symbol && actions[next].code == REDUCE &&
      actions[next].number < ruleno
      invariant 0 <= next <= |actions|
      invariant next < |actions| ==> actions[next].symbol >= symbol
      invariant next < |actions| && actions[next].symbol == symbol ==> actions[next].code == REDUCE
      invariant forall i :: 0 <= i < next ==> Precedes(actions[i], temp)
    {
      next := next + 1;
      assert next < |actions| ==> Precedes(actions[next - 1], actions[next]);
    }
    if next < |actions| {
      assert actions[next] in actions;
      assert Precedes(temp, actions[next]);
    }
    InsertSorted(actions, next, temp);
    r := actions[..next] + [temp] + actions[next..];
  }

  // ---------- add_reductions ----------

  /** The inner loop: the reductions by one rule. */
  method AddLookaheads(g: Grammar, pr: Precedences, LA: array<Word>, rowp: nat, actions: seq<Action>, ruleno: nat,
                       ghost x: nat, ghost n: nat)
    returns (r: seq<Action>)
    requires Covers(g, pr) && ruleno < |g.rlhs|
    requires x < n && rowp == Start(x, WordSize(g.ntokens)) && Start(n, WordSize(g.ntokens)) <= LA.Length
    requires Sorted(actions) && Plain(actions)
    requires forall act :: act in actions && act.code == REDUCE ==> act.number != ruleno
    ensures Sorted(r) && Plain(r)
    ensures forall act :: act in r <==>
      act in actions || ReducesOn(g, pr, Rows(LA[..], WordSize(g.ntokens), n)[x], ruleno, 0, act)
  {
    hide RowSet, Row, Mask, Sorted, Precedes;
    ghost var row := Rows(LA[..], WordSize(g.ntokens), n)[x];
    r := actions;
    var j := g.ntokens;
    while j > 0
      invariant 0 <= j <= g.ntokens
      invariant Sorted(r) && Plain(r)
      invariant forall act :: act in r <==> act in actions || ReducesOn(g, pr, row, ruleno, j, act)
    {
      j := j - 1;
      TestedBit(LA[..], WordSize(g.ntokens), n, x, j / 32, j % 32);
      if Bit(LA[rowp + j / 32], j % 32) {
        r := AddReduce(pr, r, ruleno, j);
      }
    }
  }

  /** act reduces by one of the entries m..i of the lookahead table. */
  ghost predicate ReducesBy(g: Grammar, pr: Precedences, la: LaTable, rows: seq<set<nat>>, m: nat, i: nat, act: Action)
    requires Covers(g, pr) && |rows| == |la.laRuleno|
  {
    exists x: nat :: m <= x < i && ReducesByEntry(g, pr, la, rows, x, act)
  }

  ghost predicate ReducesByEntry(g: Grammar, pr: Precedences, la: LaTable, rows: seq<set<nat>>, x: nat, act: Action)
    requires Covers(g, pr) && |rows| == |la.laRuleno|
  {
    x < |rows| && la.laRuleno[x] < |g.rlhs| && ReducesOn(g, pr, rows[x], la.laRuleno[x], 0, act)
  }

  method AddReductions(g: Grammar, a: Automaton, pr: Precedences, la: LaTable, LA: array<Word>, stateno: nat,
                       actions: seq<Action>)
    returns (r: seq<Action>)
    requires Valid(g) && IsAutomaton(g, a) && IsLaTable(a, la) && Covers(g, pr) && stateno < |a.states|
    requires Start(|la.laRuleno|, WordSize(g.ntokens)) <= LA.Length
    requires Sorted(actions) && Plain(actions) && forall act :: act in actions ==> act.code == SHIFT
    ensures Sorted(r) && Plain(r) && |la.lookaheads| == |a.states| + 1
    ensures var rows := Rows(LA[..], WordSize(g.ntokens), |la.laRuleno|);
      forall act :: act in r <==>
        (act in actions || ReducesBy(g, pr, la, rows, la.lookaheads[stateno], la.lookaheads[stateno + 1], act))
  {
    hide RowSet, Row, Rows, Mask, Sorted, Plain, Valid, IsAutomaton, IsLaTable;
    LaRange(g, a, la, stateno);
    ghost var rows := Rows(LA[..], WordSize(g.ntokens), |la.laRuleno|);
    var m, n := la.lookaheads[stateno], la.lookaheads[stateno + 1];
    r := actions;
    for i := m to n
      invariant Sorted(r) && Plain(r)
      invariant forall act :: act in r <==> act in actions || ReducesBy(g, pr, la, rows, m, i, act)
    {
      ghost var before := r;
      var ruleno := la.laRuleno[i];
      assert LaIs(la, i, stateno, ruleno);
      LaRule(g, a, la, i, stateno, ruleno);
      OtherRules(g, a, pr, la, rows, stateno, i);
      var rowp := RowPointer(i, WordSize(g.ntokens));
      r := AddLookaheads(g, pr, LA, rowp, r, ruleno, i, |la.laRuleno|);
      forall act ensures act in r <==> act in actions || ReducesBy(g, pr, la, rows, m, i + 1, act) {
        assert act in r <==> act in before || ReducesByEntry(g, pr, la, rows, i, act);
      }
    }
  }

  lemma LaRange(g: Grammar, a: Automaton, la: LaTable, q: nat)
    requires Valid(g) && IsAutomaton(g, a) && IsLaTable(a, la) && q < |a.states|
    ensures |la.lookaheads| == |a.states| + 1
    ensures la.lookaheads[q] <= la.lookaheads[q + 1] <= |la.laRuleno|
  {
    hide Valid, IsAutomaton, LaRow, LaStart;
    AutomatonSizes(g, a);
    LaStartGrows(a, q, q + 1);
    LaStartGrows(a, q + 1, |a.reductions|);
  }

  /** The rules of the lookahead table are user rules. */
  lemma LaRule(g: Grammar, a: Automaton, la: LaTable, x: nat, q: nat, r: nat)
    requires Valid(g) && IsAutomaton(g, a) && IsLaTable(a, la) && LaIs(la, x, q, r)
    ensures IsRule(g, r) && r > FIRST_RULE
  {
    LaComplete(g, a, la, x, q, r);
    CompleteRule(g, a, q, r);
  }

  /** $accept is never complete: no state is entered over $end. */
  lemma CompleteRule(g: Grammar, a: Automaton, q: nat, r: nat)
    requires Valid(g) && IsAutomaton(g, a) && q < |a.states| && Complete(g, ItemsOf(g, a.states[q]), r)
    ensures IsRule(g, r) && r > FIRST_RULE
  {
    if r == FIRST_RULE {
      var k := SetOf(a.states[q].items);
      if 3 !in k {
        var s: nat :| s < |g.rlhs| && Pulled(g, k, s) && g.rrhs[s] == 3;
        if s > FIRST_RULE + 1 {
          RulesAscend(g, FIRST_RULE + 1, s);
        }
      }
    }
  }

  lemma OtherRules(g: Grammar, a: Automaton, pr: Precedences, la: LaTable, rows: seq<set<nat>>, q: nat, i: nat)
    requires Valid(g) && IsAutomaton(g, a) && IsLaTable(a, la) && Covers(g, pr) && |rows| == |la.laRuleno|
    requires i < |la.laRuleno| && LaIs(la, i, q, la.laRuleno[i])
    ensures forall act :: ReducesBy(g, pr, la, rows, la.lookaheads[q], i, act) ==> act.number != la.laRuleno[i]
  {
    hide Valid, IsAutomaton, IsLaTable;
    forall act | ReducesBy(g, pr, la, rows, la.lookaheads[q], i, act) ensures act.number != la.laRuleno[i] {
      var x: nat :| la.lookaheads[q] <= x < i && ReducesByEntry(g, pr, la, rows, x, act);
      assert LaIs(la, x, q, la.laRuleno[x]);
      LaUnique(g, a, la, x, q, la.laRuleno[x], i, q, la.laRuleno[i]);
    }
  }

  // ---------- parse_actions ----------

  /** Rule r may be reduced in state q on token t. */
  ghost predicate MayReduce(g: Grammar, a: Automaton, m: GotoTable, q: nat, r: nat, t: nat)
    requires Valid(g)
  {
    q < |a.states| && t < g.ntokens && Complete(g, ItemsOf(g, a.states[q]), r) && IsLookahead(g, a, m, q, r, t)
  }

  /** act is one of the actions that the automaton and the lookahead sets allow in state q. */
  ghost predicate Allowed(g: Grammar, a: Automaton, m: GotoTable, pr: Precedences, q: nat, act: Action)
    requires Valid(g) && Covers(g, pr)
  {
    || (act.symbol < g.ntokens && Edge(a, q, act.symbol, act.number) && act == ShiftAction(pr, act.symbol, act.number))
    || (act.number < |g.rlhs| && MayReduce(g, a, m, q, act.number, act.symbol) &&
      act == ReduceAction(pr, act.number, act.symbol))
  }

  /** The list of state q: exactly the allowed actions, in order. */
  ghost predicate IsRow(g: Grammar, a: Automaton, m: GotoTable, pr: Precedences, q: nat, row: seq<Action>)
    requires Valid(g) && Covers(g, pr)
  {
    Sorted(row) && Plain(row) && forall act :: act in row <==> Allowed(g, a, m, pr, q, act)
  }

  lemma EntriesAreReductions(g: Grammar, a: Automaton, m: GotoTable, pr: Precedences, la: LaTable, rows: seq<set<nat>>,
                             q: nat, act: Action)
    requires Valid(g) && IsAutomaton(g, a) && IsLaTable(a, la) && Covers(g, pr) && q < |a.states|
    requires LookaheadsOk(g, a, m, la, rows) && |la.lookaheads| == |a.states| + 1
    ensures ReducesBy(g, pr, la, rows, la.lookaheads[q], la.lookaheads[q + 1], act) <==>
      act.number < |g.rlhs| && MayReduce(g, a, m, q, act.number, act.symbol) &&
        act == ReduceAction(pr, act.number, act.symbol)
  {
    hide Valid, IsAutomaton, IsLaTable, IsLookahead, Complete;
    if ReducesBy(g, pr, la, rows, la.lookaheads[q], la.lookaheads[q + 1], act) {
      var x: nat :| la.lookaheads[q] <= x < la.lookaheads[q + 1] && ReducesByEntry(g, pr, la, rows, x, act);
      assert LaIs(la, x, q, act.number);
      assert LookaheadRow(g, a, m, rows[x], q, act.number);
      LaComplete(g, a, la, x, q, act.number);
    }
    if act.number < |g.rlhs| && MayReduce(g, a, m, q, act.number, act.symbol) &&
      act == ReduceAction(pr, act.number, act.symbol) {
      var x := LaExists(g, a, la, q, act.number);
      assert LookaheadRow(g, a, m, rows[x], q, act.number);
      assert ReducesByEntry(g, pr, la, rows, x, act);
    }
  }

  method ParseActions(g: Grammar, a: Automaton, ghost m: GotoTable, pr: Precedences, la: LaTable, LA: array<Word>,
                      stateno: nat)
    returns (actions: seq<Action>)
    requires Valid(g) && IsAutomaton(g, a) && IsLaTable(a, la) && Covers(g, pr) && stateno < |a.states|
    requires Start(|la.laRuleno|, WordSize(g.ntokens)) <= LA.Length
    requires LookaheadsOk(g, a, m, la, Rows(LA[..], WordSize(g.ntokens), |la.laRuleno|))
    ensures IsRow(g, a, m, pr, stateno, actions)
  {
    hide Valid, IsAutomaton, IsLaTable, LookaheadsOk, RowSet, Row, Rows, Sorted, Plain, MayReduce;
    var shifts := GetShifts(g, a, pr, stateno);
    actions := AddReductions(g, a, pr, la, LA, stateno, shifts);
    AutomatonSizes(g, a);
    ValidSizes(g);
    forall act ensures act in actions <==> Allowed(g, a, m, pr, stateno, act) {
      EntriesAreReductions(g, a, m, pr, la, Rows(LA[..], WordSize(g.ntokens), |la.laRuleno|), stateno, act);
    }
  }

  lemma ValidSizes(g: Grammar)
    requires Valid(g)
    ensures 2 <= g.ntokens < g.nsyms && 3 <= |g.rlhs|
  {
  }
}
