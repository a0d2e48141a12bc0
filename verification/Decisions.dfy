/** What the generated parser decides from its packed tables, compared with the action rows
    and the gotos they were packed from. */
module Decisions {
  import opened Grammars
  import opened Automata
  import opened Gotos
  import opened Actions
  import opened Conflicts
  import opened Vectors
  import opened Packing
  import opened MakeParser
  import opened Output

  /** A rule is named by its number in the tables. */
  datatype Decision = ToShift(state: nat) | ToReduce(rule: nat) | ToError

  predicate HasState(t: Tables, q: nat) {
    q < |t.yydefred| && q < |t.yysindex| && q < |t.yyrindex|
  }

  /** The order of the tests at yyloop: default reduction, shift, reduction. */
  function Decide(t: Tables, q: nat, yychar: int): Decision
    requires HasState(t, q)
  {
    if t.yydefred[q] != 0 then
      ToReduce(t.yydefred[q])
    else if Probe(t.yytable, t.yycheck, t.yytablesize, t.yysindex[q], yychar) then
      ToShift(t.yytable[t.yysindex[q] + yychar])
    else if Probe(t.yytable, t.yycheck, t.yytablesize, t.yyrindex[q], yychar) then
      ToReduce(t.yytable[t.yyrindex[q] + yychar])
    else
      ToError
  }

  /** The goto of state q on the nonterminal of value yym. */
  function GotoOf(t: Tables, q: nat, yym: nat): nat
    requires yym < |t.yygindex| && yym < |t.yydgoto|
  {
    if Probe(t.yytable, t.yycheck, t.yytablesize, t.yygindex[yym], q) then t.yytable[t.yygindex[yym] + q]
    else t.yydgoto[yym]
  }

  /** The decision that an action of the uncompressed table stands for. */
  function Meaning(x: Action): Decision {
    if x.code == SHIFT then ToShift(x.number)
    else if x.code == REDUCE && x.number >= 2 then ToReduce(x.number - 2)
    else ToError
  }

  ghost predicate Emitted(g: Grammar, a: Automaton, m: GotoTable, pr: Precedences, values: seq<int>,
                          raw: seq<seq<Action>>, p: Parser, t: Tables) {
    && Valid(g) && IsAutomaton(g, a) && IsGotoTable(g, a, m) && ValuesOk(g, values) && Covers(g, pr)
    && IsParser(g, a, m, pr, raw, p) && IsTables(g, m, values, p, t)
  }

  // ---------- Actions ----------

  /** The facts about one state on which its decisions depend. */
  ghost predicate StateTables(g: Grammar, values: seq<int>, row: seq<Action>, defred: nat, t: Tables, q: nat) {
    && HasState(t, q) && RowReady(g, row) && ValuesOk(g, values) && DefaultMade(row, defred)
    && t.yydefred[q] == (if defred > 0 then defred as int - 2 else 0) && (defred == 0 || defred > FIRST_RULE)
    && ShiftsFound(t, values, row, t.yysindex[q]) && ReductionsFound(t, values, row, defred, t.yyrindex[q])
  }

  lemma EmittedState(g: Grammar, a: Automaton, m: GotoTable, pr: Precedences, values: seq<int>, raw: seq<seq<Action>>,
                     p: Parser, t: Tables, q: nat)
    requires Emitted(g, a, m, pr, values, raw, p, t) && q < |a.states|
    ensures |p.rows| == |p.defred| == |raw| == |a.states|
    ensures StateTables(g, values, p.rows[q], p.defred[q], t, q)
    ensures RowMade(g, a, m, pr, raw[q], p.rows[q], q, p.finalState)
  {
    hide Valid, IsAutomaton, IsGotoTable, ValuesOk, ShiftsFound, ReductionsFound, GotosFound, RuleDataOk, RowMade,
      DefaultMade, RowReady;
    ParserReady(g, a, m, pr, raw, p);
    assert DefaultMade(p.rows[q], p.defred[q]);
    DefaultIsRule(g, p.rows[q], p.defred[q]);
    assert ShiftsFound(t, values, p.rows[q], t.yysindex[q]);
    assert ReductionsFound(t, values, p.rows[q], p.defred[q], t.yyrindex[q]);
  }

  /** Two live actions on tokens of the same value are the same action. */
  lemma OneLive(g: Grammar, values: seq<int>, row: seq<Action>, j: nat, k: nat)
    requires RowReady(g, row) && ValuesOk(g, values) && j < |row| && k < |row|
    requires row[j].suppressed == 0 && row[k].suppressed == 0
    requires row[j].symbol < |values| && row[k].symbol < |values| && values[row[j].symbol] == values[row[k].symbol]
    ensures j == k
  {
    assert ActionReady(g, row[j]) && ActionReady(g, row[k]);
  }

  /** A live action is what the parser does. */
  lemma LiveDecides(g: Grammar, values: seq<int>, row: seq<Action>, defred: nat, t: Tables, q: nat, k: nat)
    requires StateTables(g, values, row, defred, t, q) && k < |row| && row[k].suppressed == 0 && row[k].code != ERROR
    ensures row[k].symbol < |values| && Decide(t, q, values[row[k].symbol]) == Meaning(row[k])
  {
    hide RowReady, ValuesOk, Probe;
    assert ActionReady(g, row[k]) by { ReadyAt(g, row, k); }
    TokenValues(g, values);
    var s := values[row[k].symbol];
    if defred > 0 {
      SoleIsThis(row, defred, k);
    } else if row[k].code == SHIFT {
      assert Shifts(row, k);
      assert ShiftsValue(row, values, s, row[k].number);
      assert Finds(t, t.yysindex[q], s, row[k].number);
    } else {
      assert Reduces(row, k);
      assert ReducesValue(row, defred, values, s, row[k].number - 2);
      assert Finds(t, t.yyrindex[q], s, row[k].number - 2);
      if Probe(t.yytable, t.yycheck, t.yytablesize, t.yysindex[q], s) {
        NoShiftHere(g, values, row, t, q, k);
      }
    }
  }

  lemma ReadyAt(g: Grammar, row: seq<Action>, k: nat)
    requires RowReady(g, row) && k < |row|
    ensures ActionReady(g, row[k])
  {
  }

  lemma SoleIsThis(row: seq<Action>, defred: nat, k: nat)
    requires DefaultMade(row, defred) && defred > 0 && k < |row| && row[k].suppressed == 0 && row[k].code != ERROR
    ensures row[k].code == REDUCE && row[k].number == defred
  {
    assert !Shifts(row, k);
    assert Reduces(row, k) ==> row[k].number == defred;
  }

  lemma NoShiftHere(g: Grammar, values: seq<int>, row: seq<Action>, t: Tables, q: nat, k: nat)
    requires RowReady(g, row) && ValuesOk(g, values) && HasState(t, q) && ShiftsFound(t, values, row, t.yysindex[q])
    requires Reduces(row, k) && row[k].symbol < |values| && values[row[k].symbol] >= 0
    ensures !Probe(t.yytable, t.yycheck, t.yytablesize, t.yysindex[q], values[row[k].symbol])
  {
    hide RowReady, ValuesOk;
    var s := values[row[k].symbol];
    if Probe(t.yytable, t.yycheck, t.yytablesize, t.yysindex[q], s) {
      var v := t.yytable[t.yysindex[q] + s];
      assert Finds(t, t.yysindex[q], s, v);
      var j :| 0 <= j < |row| && Shifts(row, j) && row[j].symbol < |values| && values[row[j].symbol] == s &&
        row[j].number == v;
      OneLive(g, values, row, j, k);
    }
  }

  lemma ProbeFinds(t: Tables, base: int, s: int)
    ensures Probe(t.yytable, t.yycheck, t.yytablesize, base, s) ==> Finds(t, base, s, t.yytable[base + s])
  {
  }

  /** Where no live action answers to the input, the parser does the default reduction if the
      state has one, and otherwise reports an error. */
  lemma DefaultDecides(g: Grammar, values: seq<int>, row: seq<Action>, defred: nat, t: Tables, q: nat, s: int)
    requires StateTables(g, values, row, defred, t, q) && s >= 0
    requires forall k :: 0 <= k < |row| && row[k].suppressed == 0 && row[k].symbol < |values| ==>
      values[row[k].symbol] != s
    ensures Decide(t, q, s) == if defred > 0 then ToReduce(defred - 2) else ToError
  {
    hide RowReady, ValuesOk;
    ProbeFinds(t, t.yysindex[q], s);
    ProbeFinds(t, t.yyrindex[q], s);
  }

  /** The packed tables refine the action rows: an action that conflict removal kept is taken. */
  lemma KeptIsTaken(g: Grammar, a: Automaton, m: GotoTable, pr: Precedences, values: seq<int>, raw: seq<seq<Action>>,
                    p: Parser, t: Tables, q: nat, x: Action)
    requires Emitted(g, a, m, pr, values, raw, p, t) && q < |a.states| == |raw|
    requires x in raw[q] && FateOf(raw[q], x, q == p.finalState) == Kept
    ensures HasState(t, q) && x.symbol < |values| && Decide(t, q, values[x.symbol]) == Meaning(x)
  {
    hide Valid, IsAutomaton, IsGotoTable, ValuesOk, FateOf, IsTables, IsParser, StateTables;
    EmittedState(g, a, m, pr, values, raw, p, t, q);
    var k: nat :| k < |raw[q]| && raw[q][k] == x;
    RowLength(g, a, m, pr, raw[q], p.rows[q], q, p.finalState);
    LiveAction(g, a, m, pr, raw[q], p.rows[q], q, p.finalState, k);
    LiveDecides(g, values, p.rows[q], p.defred[q], t, q, k);
    TablesState(g, values, p.rows[q], p.defred[q], t, q);
  }

  lemma TablesState(g: Grammar, values: seq<int>, row: seq<Action>, defred: nat, t: Tables, q: nat)
    requires StateTables(g, values, row, defred, t, q)
    ensures HasState(t, q) && ValuesOk(g, values) && RowReady(g, row) && (defred == 0 || defred > FIRST_RULE)
  {
  }

  lemma RowLength(g: Grammar, a: Automaton, m: GotoTable, pr: Precedences, raw: seq<Action>, row: seq<Action>, q: nat,
                  finalState: nat)
    requires Valid(g) && Covers(g, pr) && RowMade(g, a, m, pr, raw, row, q, finalState)
    ensures |row| == |raw| && Sorted(raw) && Plain(raw)
  {
  }

  /** ... and where none was kept, the only deviation from an error is the default reduction. */
  lemma OtherwiseDefault(g: Grammar, a: Automaton, m: GotoTable, pr: Precedences, values: seq<int>,
                         raw: seq<seq<Action>>, p: Parser, t: Tables, q: nat, s: int)
    requires Emitted(g, a, m, pr, values, raw, p, t) && q < |a.states| == |raw| && s >= 0
    requires forall x :: x in raw[q] && x.symbol < |values| && values[x.symbol] == s ==>
      FateOf(raw[q], x, q == p.finalState) != Kept
    ensures HasState(t, q) && |p.defred| == |a.states|
    ensures Decide(t, q, s) == if p.defred[q] > 0 then ToReduce(p.defred[q] - 2) else ToError
    ensures p.defred[q] == 0 || p.defred[q] > FIRST_RULE
  {
    hide Valid, IsAutomaton, IsGotoTable, ValuesOk, FateOf, IsTables, IsParser;
    EmittedState(g, a, m, pr, values, raw, p, t, q);
    var row := p.rows[q];
    RowLength(g, a, m, pr, raw[q], row, q, p.finalState);
    forall k | 0 <= k < |row| && row[k].suppressed == 0 && row[k].symbol < |values| ensures values[row[k].symbol] != s {
      LiveAction(g, a, m, pr, raw[q], row, q, p.finalState, k);
      assert raw[q][k] in raw[q];
    }
    DefaultDecides(g, values, row, p.defred[q], t, q, s);
  }

  /** A pair erased by %nonassoc is reported as an error exactly when its state has no default
      reduction. */
  lemma ErasedIsError(g: Grammar, a: Automaton, m: GotoTable, pr: Precedences, values: seq<int>, raw: seq<seq<Action>>,
                      p: Parser, t: Tables, q: nat, x: Action)
    requires Emitted(g, a, m, pr, values, raw, p, t) && q < |a.states| == |raw|
    requires x in raw[q] && FateOf(raw[q], x, q == p.finalState) == Erased
    ensures HasState(t, q) && x.symbol < |values| && |p.defred| == |a.states|
    ensures Decide(t, q, values[x.symbol]) == ToError <==> p.defred[q] == 0
  {
    hide Emitted, FateOf, Decide;
    NoneKept(g, a, m, pr, values, raw, p, t, q, x);
  }

  /** No other action on a token is kept where one is erased. */
  lemma NoneKept(g: Grammar, a: Automaton, m: GotoTable, pr: Precedences, values: seq<int>, raw: seq<seq<Action>>,
                 p: Parser, t: Tables, q: nat, x: Action)
    requires Emitted(g, a, m, pr, values, raw, p, t) && q < |a.states| == |raw|
    requires x in raw[q] && FateOf(raw[q], x, q == p.finalState) == Erased
    ensures HasState(t, q) && x.symbol < |values| && |p.defred| == |a.states|
    ensures Decide(t, q, values[x.symbol]) == if p.defred[q] > 0 then ToReduce(p.defred[q] - 2) else ToError
    ensures p.defred[q] == 0 || p.defred[q] > FIRST_RULE
  {
    hide Valid, IsAutomaton, IsGotoTable, ValuesOk, FateOf, IsTables, IsParser, StateTables, Sorted, Plain;
    EmittedState(g, a, m, pr, values, raw, p, t, q);
    RowLength(g, a, m, pr, raw[q], p.rows[q], q, p.finalState);
    TablesState(g, values, p.rows[q], p.defred[q], t, q);
    var k: nat :| k < |raw[q]| && raw[q][k] == x;
    LiveAction(g, a, m, pr, raw[q], p.rows[q], q, p.finalState, k);
    SettledKeeps(x, Erased);
    ReadyAt(g, p.rows[q], k);
    TokenValues(g, values);
    forall y | y in raw[q] && y.symbol < |values| && values[y.symbol] == values[x.symbol]
      ensures FateOf(raw[q], y, q == p.finalState) != Kept
    {
      var l: nat :| l < |raw[q]| && raw[q][l] == y;
      LiveAction(g, a, m, pr, raw[q], p.rows[q], q, p.finalState, l);
      SettledKeeps(y, FateOf(raw[q], y, q == p.finalState));
      ReadyAt(g, p.rows[q], l);
      SameToken(g, values, x.symbol, y.symbol);
      ErasedTogether(raw[q], x, y, q == p.finalState);
    }
    OtherwiseDefault(g, a, m, pr, values, raw, p, t, q, values[x.symbol]);
  }

  lemma SameToken(g: Grammar, values: seq<int>, x: nat, y: nat)
    requires ValuesOk(g, values) && x < g.ntokens && y < g.ntokens && values[x] == values[y]
    ensures x == y
  {
  }

  /** Actions on one token are erased together. */
  lemma ErasedTogether(row: seq<Action>, x: Action, y: Action, atEnd: bool)
    requires x in row && y in row && x.symbol == y.symbol && FateOf(row, x, atEnd) == Erased
    ensures FateOf(row, y, atEnd) == Erased
  {
    hide Precedes, Sorted;
    var z :| Contested(row, x, z);
    var s, r := if x.code == SHIFT then x else z, if x.code == SHIFT then z else x;
    FateOfPair(row, s, r);
    FateAwayFromEnd(row, y, atEnd);
    FateAwayFromEnd(row, x, atEnd);
  }

  /** Rule r is the only one that state q may reduce by on token u, and q shifts u to state `to`. */
  ghost predicate IsChoice(g: Grammar, a: Automaton, m: GotoTable, q: nat, u: nat, to: nat, r: nat)
    requires Valid(g)
  {
    && q < |a.states| && u < g.ntokens && r < |g.rlhs| && Edge(a, q, u, to) && MayReduce(g, a, m, q, r, u)
    && forall r': nat :: r' < |g.rlhs| && MayReduce(g, a, m, q, r', u) ==> r' == r
  }

  /** What the parser does where it could shift u or reduce by rule r, both having a precedence: the
      higher one decides, and on a tie the associativity of u, 1 for left and 2 for right; otherwise
      it does the default reduction of the state or reports an error. */
  lemma PrecedenceDecides(g: Grammar, a: Automaton, m: GotoTable, pr: Precedences, values: seq<int>,
                          raw: seq<seq<Action>>, p: Parser, t: Tables, q: nat, u: nat, to: nat, r: nat)
    requires Valid(g) && Covers(g, pr) && IsChoice(g, a, m, q, u, to, r)
    requires pr.symbolPrec[u] > 0 && pr.rulePrec[r] > 0 && !(q == p.finalState && u == 0)
    requires Emitted(g, a, m, pr, values, raw, p, t)
    ensures HasState(t, q) && u < |values| && 2 <= r && q < |p.defred|
    ensures p.defred[q] == 0 || p.defred[q] > FIRST_RULE
    ensures Decide(t, q, values[u]) ==
            var s, z := pr.symbolPrec[u], pr.rulePrec[r];
            if s > z || (s == z && pr.symbolAssoc[u] == 2) then ToShift(to)
            else if s < z || (s == z && pr.symbolAssoc[u] == 1) then ToReduce(r - 2)
            else if p.defred[q] > 0 then ToReduce(p.defred[q] - 2)
            else ToError
  {
    hide IsAutomaton, IsGotoTable, ValuesOk, FateOf, IsTables, IsParser, StateTables, Edge, MayReduce, Decide;
    EmittedState(g, a, m, pr, values, raw, p, t, q);
    var row, x, y := raw[q], ShiftAction(pr, u, to), ReduceAction(pr, r, u);
    ChoiceRow(g, a, m, pr, row, p.rows[q], q, p.finalState, u, to, r);
    FateOfPair(row, x, y);
    FateAwayFromEnd(row, x, q == p.finalState);
    FateAwayFromEnd(row, y, q == p.finalState);
    TablesState(g, values, p.rows[q], p.defred[q], t, q);
    if FateOf(row, x, false) == Kept {
      KeptIsTaken(g, a, m, pr, values, raw, p, t, q, x);
    } else if FateOf(row, y, false) == Kept {
      KeptIsTaken(g, a, m, pr, values, raw, p, t, q, y);
    } else {
      NoneKept(g, a, m, pr, values, raw, p, t, q, x);
    }
  }

  lemma ChoiceRow(g: Grammar, a: Automaton, m: GotoTable, pr: Precedences, row: seq<Action>, made: seq<Action>, q: nat,
                  finalState: nat, u: nat, to: nat, r: nat)
    requires Valid(g) && Covers(g, pr) && RowMade(g, a, m, pr, row, made, q, finalState)
    requires IsAutomaton(g, a) && IsChoice(g, a, m, q, u, to, r) && pr.symbolPrec[u] > 0 && pr.rulePrec[r] > 0
    ensures Resolvable(row, ShiftAction(pr, u, to), ReduceAction(pr, r, u)) && r >= 2
  {
    hide IsAutomaton, Edge, ItemsOf, IsSettled;
    assert Allowed(g, a, m, pr, q, ShiftAction(pr, u, to)) && Allowed(g, a, m, pr, q, ReduceAction(pr, r, u));
    forall y | y in row && y.symbol == u ensures y == ShiftAction(pr, u, to) || y == ReduceAction(pr, r, u) {
      assert Allowed(g, a, m, pr, q, y);
      if y.code == SHIFT {
        EdgeUnique(g, a, q, u, to, y.number);
      }
    }
  }

  /** The parser's goto is that of the automaton, for every goto there is. */
  lemma GotoExact(g: Grammar, a: Automaton, m: GotoTable, pr: Precedences, values: seq<int>, raw: seq<seq<Action>>,
                  p: Parser, t: Tables,
                  q: nat, x: nat, to: nat)
    requires Emitted(g, a, m, pr, values, raw, p, t) && Edge(a, q, x, to) && x > g.ntokens
    ensures x < g.nsyms == |values| && 0 <= values[x] < |t.yygindex| == |t.yydgoto|
    ensures GotoOf(t, q, values[x]) == to
  {
    hide Valid, IsAutomaton, IsGotoTable, ValuesOk, IsParser, RuleDataOk, DefredOk, ShiftsFound, ReductionsFound,
      MostFrequent, Rises;
    EdgeGivesKernel(g, a, q, x, to);
    VarValue(g, values, x);
    VarBounds(g);
    var v: nat := x - g.ntokens - 1;
    var k := GotoExists(g, a, m, q, x, to);
    GotoRange(g, a, m, v + 1);
    assert GotosFound(t, m.fromState, m.toState, m.gotoMap[v + 1], m.gotoMap[v + 2], t.yydgoto[v], t.yygindex[v]);
    GotoFound(t, m.fromState, m.toState, m.gotoMap[v + 1], m.gotoMap[v + 2], t.yydgoto[v], v, k);
  }

  lemma GotoFound(t: Tables, fromState: seq<nat>, toState: seq<nat>, lo: nat, hi: nat, d: nat, v: nat, k: nat)
    requires v < |t.yygindex| && v < |t.yydgoto| && d == t.yydgoto[v]
    requires GotosFound(t, fromState, toState, lo, hi, d, t.yygindex[v]) && Rises(fromState, lo, hi)
    requires |fromState| == |toState|
    requires lo <= k < hi
    ensures GotoOf(t, fromState[k], v) == toState[k]
  {
    var q := fromState[k];
    ColumnEntry(fromState, toState, lo, hi, d, k, toState[k]);
    if toState[k] != d {
      assert Finds(t, t.yygindex[v], q, toState[k]);
    }
    if Probe(t.yytable, t.yycheck, t.yytablesize, t.yygindex[v], q) {
      var to := t.yytable[t.yygindex[v] + q];
      assert Finds(t, t.yygindex[v], q, to);
      ColumnEntry(fromState, toState, lo, hi, d, k, to);
    }
  }

  /** A source state occurs once among the gotos of a nonterminal. */
  lemma ColumnEntry(fromState: seq<nat>, toState: seq<nat>, lo: nat, hi: nat, d: nat, k: nat, v: int)
    requires Rises(fromState, lo, hi) && |fromState| == |toState| && lo <= k < hi
    ensures ExceptionIs(fromState, toState, lo, hi, d, fromState[k], v) <==> v == toState[k] && v != d
  {
    if j :| lo <= j < hi && fromState[j] == fromState[k] && toState[j] == v && v != d {
      assert !(j < k) && !(k < j);
    }
  }
}
