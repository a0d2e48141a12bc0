/** output of byacc/output.c: the tables of the generated parser, and what the parser reads
    out of them. */
module Output {
  import opened Sequences
  import opened Grammars
  import opened Items
  import opened Automata
  import opened Gotos
  import opened Actions
  import opened Conflicts
  import opened Vectors
  import opened Placement
  import opened TableGrowth
  import opened Packing
  import opened MakeParser

  /** The arrays and constants written into the generated parser. Rules are numbered from 2 on. */
  datatype Tables = Tables(
    yylhs: seq<int>, yylen: seq<nat>, yydefred: seq<nat>, yydgoto: seq<nat>,
    yysindex: seq<int>, yyrindex: seq<int>, yygindex: seq<int>,
    yytable: seq<nat>, yycheck: seq<int>, yytablesize: nat, yyfinal: nat)

  // ---------- What the tables say ----------

  ghost predicate RuleDataOk(g: Grammar, values: seq<int>, yylhs: seq<int>, yylen: seq<nat>)
    requires Valid(g) && |values| == g.nsyms
  {
    && |yylhs| == |yylen| == |g.rlhs| - 2
    && yylhs[0] == values[StartSymbol(g)] && yylen[0] == 2
    && forall r :: FIRST_RULE < r < |g.rlhs| ==> RuleEntryOk(g, values, yylhs, yylen, r)
  }

  ghost predicate RuleEntryOk(g: Grammar, values: seq<int>, yylhs: seq<int>, yylen: seq<nat>, r: nat)
    requires Valid(g) && FIRST_RULE < r < |g.rlhs| && |values| == g.nsyms && |yylhs| == |yylen| == |g.rlhs| - 2
  {
    IsSymbol(g, g.rlhs[r]) && yylhs[r - 2] == values[g.rlhs[r]] && yylen[r - 2] == |Rhs(g, r)|
  }

  ghost predicate DefredOk(defred: seq<nat>, yydefred: seq<nat>) {
    && |yydefred| == |defred|
    && forall q :: 0 <= q < |defred| ==> yydefred[q] == if defred[q] > 0 then defred[q] as int - 2 else 0
  }

  /** The probe at `base` with key s finds v. */
  ghost predicate Finds(t: Tables, base: int, s: int, v: int) {
    Probe(t.yytable, t.yycheck, t.yytablesize, base, s) && t.yytable[base + s] == v
  }

  ghost predicate ShiftsFound(t: Tables, values: seq<int>, row: seq<Action>, base: int) {
    forall s, v :: s >= 0 ==> (Finds(t, base, s, v) <==> ShiftsValue(row, values, s, v))
  }

  ghost predicate ReductionsFound(t: Tables, values: seq<int>, row: seq<Action>, defred: nat, base: int) {
    forall s, v :: s >= 0 ==> (Finds(t, base, s, v) <==> ReducesValue(row, defred, values, s, v))
  }

  /** The gotos m..n of one nonterminal: the column holds the exceptions from the default. */
  ghost predicate GotosFound(t: Tables, fromState: seq<nat>, toState: seq<nat>, m: nat, n: nat, d: nat, base: int) {
    && m <= n <= |toState|
    && (if m == n then d == 0 else MostFrequent(toState[m..n], d))
    && forall s, v :: s >= 0 ==> (Finds(t, base, s, v) <==> ExceptionIs(fromState, toState, m, n, d, s, v))
  }

  ghost predicate IsTables(g: Grammar, m: GotoTable, values: seq<int>, p: Parser, t: Tables)
    requires Valid(g)
  {
    && |values| == g.nsyms && |m.gotoMap| == NVars(g) + 1
    && RuleDataOk(g, values, t.yylhs, t.yylen)
    && DefredOk(p.defred, t.yydefred) && t.yyfinal == p.finalState
    && |t.yysindex| == |t.yyrindex| == |p.rows| == |p.defred| && |t.yygindex| == |t.yydgoto| == NVars(g) - 1
    && (forall q :: 0 <= q < |p.rows| ==> ShiftsFound(t, values, p.rows[q], t.yysindex[q]))
    && (forall q :: 0 <= q < |p.rows| ==> ReductionsFound(t, values, p.rows[q], p.defred[q], t.yyrindex[q]))
    && forall v :: 0 <= v < NVars(g) - 1 ==>
      GotosFound(t, m.fromState, m.toState, m.gotoMap[v + 1], m.gotoMap[v + 2], t.yydgoto[v], t.yygindex[v])
  }

  // ---------- output_rule_data, output_yydefred ----------

  method OutputRuleData(g: Grammar, values: seq<int>) returns (yylhs: seq<int>, yylen: seq<nat>)
    requires Valid(g) && |values| == g.nsyms
    ensures RuleDataOk(g, values, yylhs, yylen)
  {
    yylhs, yylen := [values[StartSymbol(g)]], [2];
    for i := 3 to NRules(g)
      invariant |yylhs| == |yylen| == i - 2 && yylhs[0] == values[StartSymbol(g)] && yylen[0] == 2
      invariant forall r :: FIRST_RULE < r < i ==>
        IsSymbol(g, g.rlhs[r]) && yylhs[r - 2] == values[g.rlhs[r]] && yylen[r - 2] == |Rhs(g, r)|
    {
      assert ValidRule(g, i);
      yylhs := yylhs + [values[g.rlhs[i]]];
      yylen := yylen + [g.rrhs[i + 1] - g.rrhs[i] - 1];
    }
  }

  method OutputDefred(defred: seq<nat>) returns (yydefred: seq<nat>)
    requires forall q :: 0 <= q < |defred| ==> defred[q] == 0 || defred[q] > FIRST_RULE
    ensures DefredOk(defred, yydefred)
  {
    yydefred := [];
    for i := 0 to |defred|
      invariant |yydefred| == i && forall q :: 0 <= q < i ==> yydefred[q] == if defred[q] > 0 then defred[q] - 2 else 0
    {
      yydefred := yydefred + [if defred[i] > 0 then defred[i] - 2 else 0];
    }
  }

  // ---------- goto_actions ----------

  lemma GotoRange(g: Grammar, a: Automaton, m: GotoTable, v: nat)
    requires Valid(g) && IsAutomaton(g, a) && IsGotoTable(g, a, m) && v < NVars(g)
    ensures |m.gotoMap| == NVars(g) + 1 && |m.fromState| == |m.toState|
    ensures m.gotoMap[v] <= m.gotoMap[v + 1] <= |m.toState|
    ensures Rises(m.fromState, m.gotoMap[v], m.gotoMap[v + 1])
    ensures forall k :: 0 <= k < |m.toState| ==> m.toState[k] < |a.states|
  {
    hide Valid, IsAutomaton, GotoList, GotoStart;
    assert VarRange(g, a, m.fromState, m.toState, v);
    StartNext(g, a, v);
    forall j, k | m.gotoMap[v] <= j < k < m.gotoMap[v + 1] ensures m.fromState[j] < m.fromState[k] {
      RangeAscends(g, a, m, v, j, k);
    }
    forall k | 0 <= k < |m.toState| ensures m.toState[k] < |a.states| {
      var u := GotoEntry(g, a, m, k);
    }
  }

  ghost predicate ColumnMade(m: GotoTable, v: nat, d: nat, x: Vector) {
    && v + 2 < |m.gotoMap| && m.gotoMap[v + 1] <= m.gotoMap[v + 2] <= |m.toState|
    && (if m.gotoMap[v + 1] == m.gotoMap[v + 2] then d == 0 else MostFrequent(m.toState[m.gotoMap[v + 1]..m.gotoMap[v + 2]], d))
    && Column(m.fromState, m.toState, m.gotoMap[v + 1], m.gotoMap[v + 2], d, x) && x.width == ColumnWidth(x.from)
  }

  lemma ColumnIsMade(g: Grammar, m: GotoTable, i: nat, d: nat, x: Vector)
    requires Valid(g) && g.ntokens < i < g.nsyms && |m.gotoMap| == NVars(g) + 1
    requires m.gotoMap[i - g.ntokens] <= m.gotoMap[i - g.ntokens + 1] <= |m.toState|
    requires var lo, hi := m.gotoMap[i - g.ntokens], m.gotoMap[i - g.ntokens + 1];
      (if lo == hi then d == 0 else MostFrequent(m.toState[lo..hi], d)) && Column(m.fromState, m.toState, lo, hi, d, x) &&
        x.width == ColumnWidth(x.from)
    ensures ColumnMade(m, i - g.ntokens - 1, d, x)
  {
  }

  lemma VarBounds(g: Grammar)
    requires Valid(g)
    ensures NVars(g) >= 2 && g.ntokens + NVars(g) == g.nsyms
  {
  }

  lemma VarValue(g: Grammar, values: seq<int>, x: nat)
    requires ValuesOk(g, values) && g.ntokens < x < g.nsyms
    ensures |values| == g.nsyms && values[x] == x - g.ntokens - 1
  {
  }

  /** default_goto and save_column for every nonterminal from the goal on. */
  method GotoActions(g: Grammar, a: Automaton, m: GotoTable, values: seq<int>, vectors: array<Vector>)
    returns (yydgoto: seq<nat>)
    requires Valid(g) && IsAutomaton(g, a) && IsGotoTable(g, a, m) && ValuesOk(g, values)
    requires vectors.Length == 2 * |a.states| + NVars(g)
    requires forall i :: 2 * |a.states| <= i < vectors.Length ==> vectors[i] == NO_VECTOR
    modifies vectors
    ensures |yydgoto| == NVars(g) - 1
    ensures forall v :: 0 <= v < NVars(g) - 1 ==> ColumnMade(m, v, yydgoto[v], vectors[2 * |a.states| + v])
    ensures forall i :: 0 <= i < 2 * |a.states| ==> vectors[i] == old(vectors[i])
    ensures vectors[vectors.Length - 1] == NO_VECTOR
  {
    hide Valid, IsAutomaton, IsGotoTable, ColumnMade, Rises, Column, MostFrequent, ValuesOk;
    VarBounds(g);
    var nstates := |a.states|;
    yydgoto := [];
    for i := g.ntokens + 1 to g.nsyms
      invariant |yydgoto| == i - g.ntokens - 1
      invariant forall v :: 0 <= v < i - g.ntokens - 1 ==> ColumnMade(m, v, yydgoto[v], vectors[2 * nstates + v])
      invariant forall c :: 0 <= c < 2 * nstates ==> vectors[c] == old(vectors[c])
      invariant forall c :: 2 * nstates + (i - g.ntokens - 1) <= c < vectors.Length ==> vectors[c] == NO_VECTOR
    {
      GotoRange(g, a, m, i - g.ntokens);
      VarValue(g, values, i);
      var first, end := m.gotoMap[i - g.ntokens], m.gotoMap[i - g.ntokens + 1];
      var k := DefaultGoto(m.toState, first, end, nstates);
      var x := SaveColumn(m.fromState, m.toState, first, end, k);
      ColumnIsMade(g, m, i, k, x);
      var symno := values[i] + 2 * nstates;
      if x.tally > 0 {
        vectors[symno] := x;
      }
      yydgoto := yydgoto + [k];
    }
  }

  // ---------- output_actions ----------

  ghost predicate VectorsMade(g: Grammar, m: GotoTable, values: seq<int>, p: Parser, yydgoto: seq<nat>,
                              vectors: seq<Vector>)
    requires Valid(g)
  {
    var nstates := |p.rows|;
    && |vectors| == 2 * nstates + NVars(g) && |p.defred| == nstates && |yydgoto| == NVars(g) - 1
    && (forall q :: 0 <= q < nstates ==> ShiftVector(g, p.rows[q], values, vectors[q]))
    && (forall q :: 0 <= q < nstates ==> ReduceVector(g, p.rows[q], p.defred[q], values, vectors[nstates + q]))
    && (forall v :: 0 <= v < NVars(g) - 1 ==> ColumnMade(m, v, yydgoto[v], vectors[2 * nstates + v]))
    && vectors[2 * nstates + NVars(g) - 1] == NO_VECTOR
  }

  lemma MadeAreWellFormed(g: Grammar, m: GotoTable, values: seq<int>, p: Parser, yydgoto: seq<nat>,
                          vectors: seq<Vector>, i: nat)
    requires Valid(g) && VectorsMade(g, m, values, p, yydgoto, vectors) && i < |vectors|
    ensures WellFormed(vectors[i])
  {
    hide Valid, NoRepeats, MostFrequent;
    var nstates := |p.rows|;
    if i < nstates {
      assert ShiftVector(g, p.rows[i], values, vectors[i]);
    } else if i < 2 * nstates {
      assert ReduceVector(g, p.rows[i - nstates], p.defred[i - nstates], values, vectors[nstates + (i - nstates)]);
    } else if i < 2 * nstates + NVars(g) - 1 {
      assert ColumnMade(m, i - 2 * nstates, yydgoto[i - 2 * nstates], vectors[2 * nstates + (i - 2 * nstates)]);
    } else {
      assert NoRepeats(NO_VECTOR.from) by { NothingRepeats(); }
    }
  }

  lemma NothingRepeats()
    ensures NoRepeats([])
  {
  }

  method MakeVectors(g: Grammar, a: Automaton, m: GotoTable, values: seq<int>, p: Parser)
    returns (vectors: seq<Vector>, yydgoto: seq<nat>)
    requires Valid(g) && IsAutomaton(g, a) && IsGotoTable(g, a, m) && ValuesOk(g, values)
    requires |p.rows| == |p.defred| == |a.states| && forall q :: 0 <= q < |p.rows| ==> RowReady(g, p.rows[q])
    ensures VectorsMade(g, m, values, p, yydgoto, vectors)
  {
    hide Valid, IsAutomaton, IsGotoTable, ColumnMade, ValuesOk, RowReady, ShiftVector, ReduceVector;
    VarBounds(g);
    var nstates := |a.states|;
    var list := new Vector[2 * nstates + (g.nsyms - g.ntokens)](_ => NO_VECTOR);
    TokenActions(g, p.rows, p.defred, values, list);
    yydgoto := GotoActions(g, a, m, values, list);
    vectors := list[..];
  }

  /** What packing leaves: a probe at the base of a vector finds the entries of the vector. */
  ghost predicate AllFound(t: Tables, vectors: seq<Vector>, base: seq<int>) {
    && |base| == |vectors|
    && forall i, s, v :: 0 <= i < |vectors| && s >= 0 ==>
      (Finds(t, base[i], s, v) <==> Pairs(vectors[i].from, vectors[i].to, s, v))
  }

  lemma TablesFound(g: Grammar, m: GotoTable, values: seq<int>, p: Parser, vectors: seq<Vector>, base: seq<int>,
                    t: Tables)
    requires Valid(g) && VectorsMade(g, m, values, p, t.yydgoto, vectors) && AllFound(t, vectors, base)
    requires t.yysindex == base[..|p.rows|] && t.yyrindex == base[|p.rows|..2 * |p.rows|]
    requires t.yygindex == base[2 * |p.rows|..|base| - 1]
    requires |values| == g.nsyms && |m.gotoMap| == NVars(g) + 1
    requires RuleDataOk(g, values, t.yylhs, t.yylen) && DefredOk(p.defred, t.yydefred) && t.yyfinal == p.finalState
    ensures IsTables(g, m, values, p, t)
  {
    hide Valid, RuleDataOk, DefredOk, MostFrequent, Finds, Pairs, ShiftsValue, ReducesValue, ExceptionIs, WellFormed,
      RowWidth;
    var nstates := |p.rows|;
    forall q | 0 <= q < nstates ensures ShiftsFound(t, values, p.rows[q], t.yysindex[q]) {
      assert ShiftVector(g, p.rows[q], values, vectors[q]);
    }
    forall q | 0 <= q < nstates ensures ReductionsFound(t, values, p.rows[q], p.defred[q], t.yyrindex[q]) {
      assert ReduceVector(g, p.rows[q], p.defred[q], values, vectors[nstates + q]);
      assert t.yyrindex[q] == base[nstates + q];
    }
    VarBounds(g);
    forall v | 0 <= v < NVars(g) - 1
      ensures GotosFound(t, m.fromState, m.toState, m.gotoMap[v + 1], m.gotoMap[v + 2], t.yydgoto[v], t.yygindex[v])
    {
      assert ColumnMade(m, v, t.yydgoto[v], vectors[2 * nstates + v]);
      assert t.yygindex[v] == base[2 * nstates + v];
    }
  }

  /** First-fit packing of the vectors of this parser, which are determined, comes to one that has no room below
      the maximum size. */
  ghost predicate TooBig(g: Grammar, m: GotoTable, values: seq<int>, p: Parser)
    requires Valid(g)
  {
    exists vectors, yydgoto, order ::
      VectorsMade(g, m, values, p, yydgoto, vectors) && IsOrder(vectors, |vectors|, order) &&
        Overflows(vectors, order, 2 * |p.rows|)
  }

  lemma OneColumn(m: GotoTable, v: nat, d: nat, x: Vector, d': nat, x': Vector)
    requires ColumnMade(m, v, d, x) && ColumnMade(m, v, d', x')
    ensures d == d' && x == x'
  {
    hide MostFrequent, ExceptionIs, ColumnKeys, Pairs, WellFormed;
    var lo, hi := m.gotoMap[v + 1], m.gotoMap[v + 2];
    if lo < hi {
      OneMostFrequent(m.toState[lo..hi], d, d');
    }
    OneVector(x, x');
  }

  /** The vectors and their order are determined by the parser. */
  lemma VectorsAreUnique(g: Grammar, m: GotoTable, values: seq<int>, p: Parser, yydgoto: seq<nat>,
                         vectors: seq<Vector>, order: seq<nat>, yydgoto': seq<nat>, vectors': seq<Vector>,
                         order': seq<nat>)
    requires Valid(g) && VectorsMade(g, m, values, p, yydgoto, vectors) && IsOrder(vectors, |vectors|, order)
    requires VectorsMade(g, m, values, p, yydgoto', vectors') && IsOrder(vectors', |vectors'|, order')
    ensures vectors == vectors' && order == order'
  {
    hide Valid, WellFormed, Pairs, ShiftsValue, ReducesValue, RowWidth, InOrder, ColumnMade, Ranked;
    var nstates := |p.rows|;
    forall i | 0 <= i < |vectors| ensures vectors[i] == vectors'[i] {
      if i < nstates {
        OneShiftVector(g, p.rows[i], values, vectors[i], vectors'[i]);
      } else if i < 2 * nstates {
        var q := i - nstates;
        OneReduceVector(g, p.rows[q], p.defred[q], values, vectors[nstates + q], vectors'[nstates + q]);
      } else if i < |vectors| - 1 {
        var v := i - 2 * nstates;
        OneColumn(m, v, yydgoto[v], vectors[2 * nstates + v], yydgoto'[v], vectors'[2 * nstates + v]);
      }
    }
    assert vectors == vectors';
    assert forall i: nat :: i in order <==> i < |vectors| && vectors[i].tally > 0;
    OneOrder(vectors, order, order');
  }

  lemma OneShiftVector(g: Grammar, row: seq<Action>, values: seq<int>, x: Vector, y: Vector)
    requires ShiftVector(g, row, values, x) && ShiftVector(g, row, values, y)
    ensures x == y
  {
    hide WellFormed, Pairs, ShiftsValue, RowWidth;
    OneVector(x, y);
  }

  lemma OneReduceVector(g: Grammar, row: seq<Action>, defred: nat, values: seq<int>, x: Vector, y: Vector)
    requires ReduceVector(g, row, defred, values, x) && ReduceVector(g, row, defred, values, y)
    ensures x == y
  {
    hide WellFormed, Pairs, ReducesValue, RowWidth;
    OneVector(x, y);
  }

  lemma KeyHasPair(x: Vector, s: nat) returns (v: nat)
    requires WellFormed(x) && s in x.from
    ensures Pairs(x.from, x.to, s, v)
  {
    var e :| 0 <= e < |x.from| && x.from[e] == s;
    v := x.to[e];
  }

  /** The keys are token values and states. */
  lemma KeysAreSmall(g: Grammar, m: GotoTable, values: seq<int>, p: Parser, yydgoto: seq<nat>, vectors: seq<Vector>,
                     i: nat, s: nat, key: nat)
    requires Valid(g) && VectorsMade(g, m, values, p, yydgoto, vectors) && i < |vectors| && s in vectors[i].from
    requires forall x :: 0 <= x < |values| ==> values[x] <= key
    requires forall k :: 0 <= k < |m.fromState| ==> m.fromState[k] <= key
    ensures s <= key
  {
    hide WellFormed, Pairs;
    var nstates := |p.rows|;
    MadeAreWellFormed(g, m, values, p, yydgoto, vectors, i);
    var v := KeyHasPair(vectors[i], s);
    if i < nstates {
      assert ShiftsValue(p.rows[i], values, s, v);
    } else if i < 2 * nstates {
      assert ReduceVector(g, p.rows[i - nstates], p.defred[i - nstates], values, vectors[nstates + (i - nstates)]);
      assert ReducesValue(p.rows[i - nstates], p.defred[i - nstates], values, s, v);
    } else if i < |vectors| - 1 {
      var u := i - 2 * nstates;
      assert ColumnMade(m, u, yydgoto[u], vectors[2 * nstates + u]);
      assert ExceptionIs(m.fromState, m.toState, m.gotoMap[u + 1], m.gotoMap[u + 2], yydgoto[u], s, v);
    }
  }

  /** A parser with few states and small token values has tables. */
  lemma SmallParserFits(g: Grammar, m: GotoTable, values: seq<int>, p: Parser, key: nat)
    requires Valid(g) && (2 * |p.rows| + NVars(g)) * (key + 1) < 32500
    requires forall x :: 0 <= x < |values| ==> values[x] <= key
    requires forall k :: 0 <= k < |m.fromState| ==> m.fromState[k] <= key
    ensures !TooBig(g, m, values, p)
  {
    hide VectorsMade, Overflows, WellFormed;
    forall vectors: seq<Vector>, yydgoto, order: seq<nat> | VectorsMade(g, m, values, p, yydgoto, vectors) &&
      IsOrder(vectors, |vectors|, order)
      ensures !Overflows(vectors, order, 2 * |p.rows|)
    {
      forall i | 0 <= i < |vectors| ensures WellFormed(vectors[i]) {
        MadeAreWellFormed(g, m, values, p, yydgoto, vectors, i);
      }
      OrderIsFit(vectors, order);
      forall n, s: nat | 0 <= n < |order| && s in vectors[order[n]].from ensures s <= key {
        KeysAreSmall(g, m, values, p, yydgoto, vectors, order[n], s, key);
      }
      ExtentBound(vectors, order, |order|, key);
      DistinctBound(order, |vectors|);
      VectorsLength(g, m, values, p, yydgoto, vectors);
      Monotone(|order|, |vectors|, key + 1);
      SmallTablesFit(vectors, order, 2 * |p.rows|);
    }
  }

  lemma Monotone(a: nat, b: nat, c: nat)
    requires a <= b
    ensures a * c <= b * c
  {
  }

  /** output_actions; there are no tables when they would exceed the maximum size. */
  method OutputTables(g: Grammar, a: Automaton, m: GotoTable, ghost pr: Precedences, values: seq<int>,
                      ghost raw: seq<seq<Action>>, p: Parser)
    returns (ok: bool, t: Tables)
    requires Valid(g) && IsAutomaton(g, a) && IsGotoTable(g, a, m) && ValuesOk(g, values) && Covers(g, pr)
    requires IsParser(g, a, m, pr, raw, p)
    ensures ok <==> !TooBig(g, m, values, p)
    ensures ok ==> IsTables(g, m, values, p, t)
  {
    hide Valid, IsAutomaton, IsGotoTable, IsParser, ValuesOk, RuleDataOk, DefredOk, VectorsMade, OrderFits, Packed,
      RowReady, NoRepeats, Ranked,
      FirstFit, StuckAt, Overflows, IsOrder;
    ParserReady(g, a, m, pr, raw, p);
    ValuesLength(g, values);
    VarBounds(g);
    GotoRange(g, a, m, 0);
    var yylhs, yylen := OutputRuleData(g, values);
    var yydefred := OutputDefred(p.defred);
    var vectors, yydgoto := MakeVectors(g, a, m, values, p);
    forall i | 0 <= i < |vectors| ensures WellFormed(vectors[i]) {
      MadeAreWellFormed(g, m, values, p, yydgoto, vectors, i);
    }
    var order, nentries := SortActions(vectors);
    var nstates := |a.states|;
    OrderIsFit(vectors, order[..nentries]);
    VectorsDecide(g, m, values, p, yydgoto, vectors, order[..nentries]);
    var packer := new Packer(vectors, order[..nentries], 2 * nstates);
    ok := packer.PackTable();
    if ok {
      VectorsLength(g, m, values, p, yydgoto, vectors);
      t := MadeTables(packer, yylhs, yylen, yydefred, yydgoto, p, g.nsyms - g.ntokens);
      TablesFound(g, m, values, p, vectors, packer.base[..], t);
    } else {
      t := Tables([], [], [], [], [], [], [], [], [], 0, 0);
    }
  }

  lemma VectorsDecide(g: Grammar, m: GotoTable, values: seq<int>, p: Parser, yydgoto: seq<nat>,
                      vectors: seq<Vector>, order: seq<nat>)
    requires Valid(g) && VectorsMade(g, m, values, p, yydgoto, vectors) && IsOrder(vectors, |vectors|, order)
    ensures TooBig(g, m, values, p) <==> Overflows(vectors, order, 2 * |p.rows|)
  {
    hide Valid, VectorsMade, IsOrder, Overflows;
    if TooBig(g, m, values, p) {
      var vectors', yydgoto', order' :| VectorsMade(g, m, values, p, yydgoto', vectors') &&
        IsOrder(vectors', |vectors'|, order') && Overflows(vectors', order', 2 * |p.rows|);
      VectorsAreUnique(g, m, values, p, yydgoto, vectors, order, yydgoto', vectors', order');
    }
  }

  lemma VectorsLength(g: Grammar, m: GotoTable, values: seq<int>, p: Parser, yydgoto: seq<nat>, vectors: seq<Vector>)
    requires Valid(g) && VectorsMade(g, m, values, p, yydgoto, vectors)
    ensures |vectors| == 2 * |p.rows| + (g.nsyms - g.ntokens) && g.nsyms - g.ntokens >= 2
  {
  }

  method MadeTables(packer: Packer, yylhs: seq<int>, yylen: seq<nat>, yydefred: seq<nat>, yydgoto: seq<nat>, p: Parser,
                    nvars: nat)
    returns (t: Tables)
    requires packer.Valid(|packer.order|) && IsOrder(packer.vectors, |packer.vectors|, packer.order)
    requires forall i :: 0 <= i < |packer.vectors| ==> WellFormed(packer.vectors[i])
    requires |packer.vectors| == 2 * |p.rows| + nvars && nvars >= 2
    ensures AllFound(t, packer.vectors, packer.base[..]) && packer.base.Length == |packer.vectors|
    ensures t.yysindex == packer.base[..|p.rows|] && t.yyrindex == packer.base[|p.rows|..2 * |p.rows|]
    ensures t.yygindex == packer.base[2 * |p.rows|..packer.base.Length - 1]
    ensures t.yylhs == yylhs && t.yylen == yylen && t.yydefred == yydefred && t.yydgoto == yydgoto
    ensures t.yyfinal == p.finalState
  {
    hide WellFormed, IsOrder, Packed, Pairs, OrderFits, NoRepeats;
    var nstates := |p.rows|;
    PackedBounds(packer.vectors, packer.order, packer.pos[..], packer.table[..], packer.check[..], packer.high, |packer.order|);
    t := Tables(yylhs, yylen, yydefred, yydgoto,
                packer.base[..nstates], packer.base[nstates..2 * nstates],
                  packer.base[2 * nstates..packer.base.Length - 1],
                packer.table[..packer.high + 1], packer.check[..packer.high + 1], packer.high, p.finalState);
    forall i, s, v | 0 <= i < |packer.vectors| && s >= 0
      ensures Finds(t, packer.base[..][i], s, v) <==> Pairs(packer.vectors[i].from, packer.vectors[i].to, s, v)
    {
      packer.ProbeExact(i, s, v);
    }
  }

  lemma OrderIsFit(vectors: seq<Vector>, order: seq<nat>)
    requires IsOrder(vectors, |vectors|, order) && forall i :: 0 <= i < |vectors| ==> WellFormed(vectors[i])
    ensures OrderFits(vectors, order) && NoRepeats(order) && Ranked(vectors, order)
  {
    hide WellFormed;
    assert forall k :: 0 <= k < |order| ==> order[k] in order;
    OrderLength(vectors, |vectors|, order);
  }

  lemma ValuesLength(g: Grammar, values: seq<int>)
    requires ValuesOk(g, values)
    ensures |values| == g.nsyms
  {
  }

  lemma ParserReady(g: Grammar, a: Automaton, m: GotoTable, pr: Precedences, raw: seq<seq<Action>>, p: Parser)
    requires Valid(g) && IsAutomaton(g, a) && Covers(g, pr) && IsParser(g, a, m, pr, raw, p)
    ensures |p.rows| == |p.defred| == |a.states|
    ensures forall q :: 0 <= q < |p.rows| ==> RowReady(g, p.rows[q])
    ensures forall q :: 0 <= q < |p.defred| ==> p.defred[q] == 0 || p.defred[q] > FIRST_RULE
  {
    hide Valid, IsAutomaton, RowMade;
    forall q | 0 <= q < |p.rows| ensures RowReady(g, p.rows[q]) && (p.defred[q] == 0 || p.defred[q] > FIRST_RULE) {
      assert RowMade(g, a, m, pr, raw[q], p.rows[q], q, p.finalState);
      RowIsReady(g, a, m, pr, raw[q], p.rows[q], q, p.finalState);
      assert DefaultMade(p.rows[q], p.defred[q]);
      DefaultIsRule(g, p.rows[q], p.defred[q]);
    }
  }

  lemma DefaultIsRule(g: Grammar, row: seq<Action>, defred: nat)
    requires RowReady(g, row) && DefaultMade(row, defred)
    ensures defred == 0 || (IsRule(g, defred) && defred > FIRST_RULE)
  {
    if defred > 0 {
      var k :| 0 <= k < |row| && Reduces(row, k) && row[k].symbol != 1;
      assert ActionReady(g, row[k]);
    }
  }
}
