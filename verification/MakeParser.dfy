/** make_parser of byacc/mkpar.c: the action rows of all states, settled, and their default reductions. */
module MakeParser {
  import opened Bits
  import opened Grammars
  import opened Automata
  import opened Gotos
  import opened Lookaheads
  import opened Lalr
  import opened Actions
  import opened Conflicts
  import opened Vectors

  /** The action rows after conflict removal, with their default reductions. */
  datatype Parser = Parser(rows: seq<seq<Action>>, defred: seq<nat>, finalState: nat)

  ghost predicate RowMade(g: Grammar, a: Automaton, m: GotoTable, pr: Precedences, raw: seq<Action>, row: seq<Action>,
                          q: nat, finalState: nat)
    requires Valid(g) && Covers(g, pr)
  {
    IsRow(g, a, m, pr, q, raw) && IsSettled(raw, row, q == finalState)
  }

  ghost predicate DefaultMade(row: seq<Action>, defred: nat) {
    if defred > 0 then IsSole(row, defred) else forall r: nat :: !IsSole(row, r)
  }

  /** p comes from the rows `raw` of allowed actions. */
  ghost predicate IsParser(g: Grammar, a: Automaton, m: GotoTable, pr: Precedences, raw: seq<seq<Action>>, p: Parser)
    requires Valid(g) && Covers(g, pr)
  {
    && |raw| == |p.rows| == |p.defred| == |a.states|
    && Edge(a, 0, Goal(g), p.finalState)
    && (forall q :: 0 <= q < |p.rows| ==> RowMade(g, a, m, pr, raw[q], p.rows[q], q, p.finalState))
    && forall q :: 0 <= q < |p.rows| ==> DefaultMade(p.rows[q], p.defred[q])
  }

  // ---------- What is known of a settled row ----------

  /** Action k of the settled row was allowed and kept. */
  lemma LiveAction(g: Grammar, a: Automaton, m: GotoTable, pr: Precedences, raw: seq<Action>, row: seq<Action>, q: nat,
                   finalState: nat, k: nat)
    requires Valid(g) && Covers(g, pr) && RowMade(g, a, m, pr, raw, row, q, finalState)
    requires k < |row|
    ensures |raw| == |row| && row[k] == Settled(raw[k], FateOf(raw, raw[k], q == finalState))
    ensures Allowed(g, a, m, pr, q, raw[k])
    ensures row[k].suppressed == 0 <==> FateOf(raw, raw[k], q == finalState) == Kept
    ensures row[k].suppressed == 0 ==> row[k] == raw[k]
  {
    hide FateOf, Allowed, Sorted;
    assert SettledAt(raw, row, q == finalState, k);
    assert raw[k] in raw;
  }

  lemma RowIsReady(g: Grammar, a: Automaton, m: GotoTable, pr: Precedences, raw: seq<Action>, row: seq<Action>, q: nat,
                   finalState: nat)
    requires Valid(g) && IsAutomaton(g, a) && Covers(g, pr) && RowMade(g, a, m, pr, raw, row, q, finalState)
    ensures RowReady(g, row)
  {
    hide Valid, IsAutomaton, FateOf, Sorted, Settled, Edge, Complete;
    forall k | 0 <= k < |row| ensures ActionReady(g, row[k]) {
      LiveAction(g, a, m, pr, raw, row, q, finalState, k);
      SettledKeeps(raw[k], FateOf(raw, raw[k], q == finalState));
      if raw[k].code == SHIFT {
        EdgeGivesKernel(g, a, q, raw[k].symbol, raw[k].number);
      } else {
        CompleteRule(g, a, q, raw[k].number);
      }
    }
    forall j, k | 0 <= j < k < |row| && row[j].symbol == row[k].symbol && row[j].suppressed == 0
      ensures row[k].suppressed != 0
    {
      LiveAction(g, a, m, pr, raw, row, q, finalState, j);
      LiveAction(g, a, m, pr, raw, row, q, finalState, k);
      if row[k].suppressed == 0 {
        OneKept(raw, raw[j], raw[k], q == finalState);
        DistinctAt(raw, j, k);
      }
    }
  }

  lemma SettledKeeps(x: Action, fate: Fate)
    ensures var y := Settled(x, fate);
      y.symbol == x.symbol && y.number == x.number && (y.code == x.code || y.code == ERROR)
  {
  }

  // ---------- make_parser ----------

  method AllRows(g: Grammar, a: Automaton, ghost m: GotoTable, pr: Precedences, la: LaTable, LA: array<Word>)
    returns (parser: array<seq<Action>>)
    requires Valid(g) && IsAutomaton(g, a) && IsLaTable(a, la) && Covers(g, pr)
    requires Start(|la.laRuleno|, WordSize(g.ntokens)) <= LA.Length
    requires LookaheadsOk(g, a, m, la, Rows(LA[..], WordSize(g.ntokens), |la.laRuleno|))
    ensures fresh(parser) && parser.Length == |a.states|
    ensures forall q :: 0 <= q < parser.Length ==> IsRow(g, a, m, pr, q, parser[q])
  {
    hide Valid, IsAutomaton, IsLaTable, LookaheadsOk, Rows, IsRow;
    parser := new seq<Action>[|a.states|](_ => []);
    for i := 0 to |a.states|
      invariant forall q :: 0 <= q < i ==> IsRow(g, a, m, pr, q, parser[q])
      invariant LookaheadsOk(g, a, m, la, Rows(LA[..], WordSize(g.ntokens), |la.laRuleno|))
    {
      var row := ParseActions(g, a, m, pr, la, LA, i);
      parser[i] := row;
    }
  }

  lemma RowSorted(g: Grammar, a: Automaton, m: GotoTable, pr: Precedences, q: nat, row: seq<Action>)
    requires Valid(g) && Covers(g, pr) && IsRow(g, a, m, pr, q, row)
    ensures Sorted(row) && Plain(row)
  {
  }

  /** defreds */
  method Defreds(g: Grammar, rows: seq<seq<Action>>) returns (defred: array<nat>)
    requires forall q :: 0 <= q < |rows| ==> RowReady(g, rows[q])
    ensures fresh(defred) && defred.Length == |rows|
    ensures forall q :: 0 <= q < |rows| ==> DefaultMade(rows[q], defred[q])
  {
    hide IsSole, RowReady;
    defred := new nat[|rows|];
    for i := 0 to |rows|
      invariant forall q :: 0 <= q < i ==> DefaultMade(rows[q], defred[q])
    {
      NumbersPositive(g, rows[i]);
      var r := SoleReduction(rows[i]);
      defred[i] := r;
    }
  }

  lemma NumbersPositive(g: Grammar, row: seq<Action>)
    requires RowReady(g, row)
    ensures forall k :: 0 <= k < |row| ==> row[k].number > 0
  {
    forall k | 0 <= k < |row| ensures row[k].number > 0 {
      assert ActionReady(g, row[k]);
    }
  }

  method MakeParser(g: Grammar, a: Automaton, ghost m: GotoTable, pr: Precedences, la: LaTable, LA: array<Word>)
    returns (p: Parser, ghost raw: seq<seq<Action>>, SRtotal: nat, RRtotal: nat)
    requires Valid(g) && IsAutomaton(g, a) && IsLaTable(a, la) && Covers(g, pr)
    requires Start(|la.laRuleno|, WordSize(g.ntokens)) <= LA.Length
    requires LookaheadsOk(g, a, m, la, Rows(LA[..], WordSize(g.ntokens), |la.laRuleno|))
    ensures IsParser(g, a, m, pr, raw, p)
    ensures SRtotal + RRtotal == TotalOnes(p.rows)
  {
    hide Valid, IsAutomaton, IsLaTable, LookaheadsOk, Rows, IsRow, IsSettled, Sorted, Plain, Edge, RowReady,
      DefaultMade;
    var parser := AllRows(g, a, m, pr, la, LA);
    raw := parser[..];
    forall q | 0 <= q < |raw| ensures Sorted(raw[q]) && Plain(raw[q]) {
      RowSorted(g, a, m, pr, q, raw[q]);
    }
    var finalState := FindFinalState(g, a);
    var sr, rr;
    sr, rr, SRtotal, RRtotal := RemoveConflicts(parser, finalState);
    var rows := parser[..];
    forall q | 0 <= q < |rows|
      ensures RowMade(g, a, m, pr, raw[q], rows[q], q, finalState) && RowReady(g, rows[q])
    {
      assert IsRow(g, a, m, pr, q, raw[q]) && IsSettled(raw[q], rows[q], q == finalState);
      RowIsReady(g, a, m, pr, raw[q], rows[q], q, finalState);
    }
    var defred := Defreds(g, rows);
    p := Parser(rows, defred[..], finalState);
  }
}
