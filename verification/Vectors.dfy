/** The vectors that byacc/output.c packs into one table: for every state a row of shifts and
    a row of reductions, for every nonterminal a column of gotos; and their sorting. */
module Vectors {
  import opened Sequences
  import opened Grammars
  import opened Actions
  import opened Conflicts

  const MAXSHORT := 32767

  /** froms[i], tos[i], tally[i] and width[i]; an absent vector has tally 0. */
  datatype Vector = Vector(from: seq<nat>, to: seq<nat>, tally: nat, width: int)

  const NO_VECTOR := Vector([], [], 0, 0)

  /** Key s of a vector stands for value v. */
  ghost predicate Pairs(from: seq<nat>, to: seq<nat>, s: int, v: int) {
    exists e :: 0 <= e < |from| && e < |to| && from[e] == s && to[e] == v
  }

  ghost predicate WellFormed(x: Vector) {
    |x.from| == |x.to| == x.tally && NoRepeats(x.from)
  }

  /** symbol_value: distinct numbers for the tokens, 0 for $end; nonterminals are numbered
      through from the goal, and the start symbol is -1. */
  ghost predicate ValuesOk(g: Grammar, values: seq<int>) {
    && |values| == g.nsyms && 0 < g.ntokens < g.nsyms && values[END] == 0
    && (forall t :: 0 <= t < g.ntokens ==> values[t] >= 0)
    && (forall t, u :: 0 <= t < u < g.ntokens ==> values[t] != values[u])
    && forall x :: g.ntokens <= x < g.nsyms ==> values[x] == x - g.ntokens - 1
  }

  /** A row after conflict removal: at most one action is left on each token, shifts go to
      states other than 0, and reductions are by user rules. */
  ghost predicate RowReady(g: Grammar, row: seq<Action>) {
    && (forall k :: 0 <= k < |row| ==> ActionReady(g, row[k]))
    && forall j, k :: 0 <= j < k < |row| && row[j].symbol == row[k].symbol ==>
      row[j].suppressed != 0 || row[k].suppressed != 0
  }

  ghost predicate ActionReady(g: Grammar, x: Action) {
    && x.symbol < g.ntokens && x.number > 0
    && (x.code == REDUCE ==> IsRule(g, x.number) && x.number > FIRST_RULE)
  }

  // ---------- token_actions ----------

  /** Where the row shifts token t to, or 0, as far as its first n actions tell. */
  ghost function ShiftOn(row: seq<Action>, n: nat, t: nat): nat
    requires n <= |row|
  {
    if n == 0 then 0
    else if Shifts(row, n - 1) && row[n - 1].symbol == t then row[n - 1].number
    else ShiftOn(row, n - 1, t)
  }

  /** By which rule, other than the default, the row reduces on token t, or 0. */
  ghost function ReduceOn(row: seq<Action>, n: nat, t: nat, defred: nat): nat
    requires n <= |row|
  {
    if n == 0 then 0
    else if Reduces(row, n - 1) && row[n - 1].number != defred && row[n - 1].symbol == t then row[n - 1].number
    else ReduceOn(row, n - 1, t, defred)
  }

  lemma {:induction false} ShiftOnMeans(g: Grammar, row: seq<Action>, n: nat, t: nat, p: nat)
    requires RowReady(g, row) && n <= |row| && p > 0
    ensures ShiftOn(row, n, t) == p <==>
      exists k :: 0 <= k < n && Shifts(row, k) && row[k].symbol == t && row[k].number == p
  {
    if n > 0 {
      ShiftOnMeans(g, row, n - 1, t, p);
    }
  }

  lemma {:induction false} ReduceOnMeans(g: Grammar, row: seq<Action>, n: nat, t: nat, defred: nat, r: nat)
    requires RowReady(g, row) && n <= |row| && r > 0
    ensures ReduceOn(row, n, t, defred) == r <==>
            exists k :: 0 <= k < n && Reduces(row, k) && row[k].number == r != defred && row[k].symbol == t
  {
    if n > 0 {
      ReduceOnMeans(g, row, n - 1, t, defred, r);
    }
  }

  /** Before the n-th action nothing has been entered for its token. */
  lemma {:induction false} NothingYet(g: Grammar, row: seq<Action>, n: nat, m: nat, defred: nat)
    requires RowReady(g, row) && m <= n < |row|
    ensures Shifts(row, n) ==> ShiftOn(row, m, row[n].symbol) == 0
    ensures Reduces(row, n) ==> ReduceOn(row, m, row[n].symbol, defred) == 0
  {
    if m > 0 {
      NothingYet(g, row, n, m - 1, defred);
    }
  }

  /** How many entries are not zero. */
  ghost function Entries(s: seq<nat>): nat {
    if s == [] then 0 else Entries(s[..|s| - 1]) + if s[|s| - 1] != 0 then 1 else 0
  }

  lemma {:induction false} EntriesUpdate(s: seq<nat>, t: nat, v: nat)
    requires t < |s| && s[t] == 0 && v != 0
    ensures Entries(s[t := v]) == Entries(s) + 1
  {
    var n := |s| - 1;
    var s' := s[t := v];
    if t < n {
      EntriesUpdate(s[..n], t, v);
      assert s'[..n] == s[..n][t := v];
    } else {
      assert s'[..n] == s[..n];
    }
  }

  lemma {:induction false} EntriesZero(s: seq<nat>)
    requires forall t :: 0 <= t < |s| ==> s[t] == 0
    ensures Entries(s) == 0
  {
    if s != [] {
      EntriesZero(s[..|s| - 1]);
    }
  }

  ghost predicate IsActionRow(g: Grammar, row: seq<Action>, n: nat, defred: nat, shifts: seq<nat>, reductions: seq<nat>)
    requires n <= |row|
  {
    && |shifts| == |reductions| == g.ntokens
    && (forall t :: 0 <= t < g.ntokens ==> shifts[t] == ShiftOn(row, n, t))
    && forall t :: 0 <= t < g.ntokens ==> reductions[t] == ReduceOn(row, n, t, defred)
  }

  /** Enters the remaining actions of a row: shifts in the lower half of actionrow, reductions
      in the upper half. */
  method EnterActions(g: Grammar, row: seq<Action>, defred: nat)
    returns (actionrow: array<nat>, shiftcount: nat, reducecount: nat)
    requires RowReady(g, row)
    ensures actionrow.Length == 2 * g.ntokens && fresh(actionrow)
    ensures IsActionRow(g, row, |row|, defred, actionrow[..g.ntokens], actionrow[g.ntokens..])
    ensures shiftcount == Entries(actionrow[..g.ntokens]) && reducecount == Entries(actionrow[g.ntokens..])
  {
    hide Entries;
    actionrow := new nat[2 * g.ntokens](_ => 0);
    shiftcount, reducecount := 0, 0;
    EntriesZero(actionrow[..g.ntokens]);
    EntriesZero(actionrow[g.ntokens..]);
    for p := 0 to |row|
      invariant IsActionRow(g, row, p, defred, actionrow[..g.ntokens], actionrow[g.ntokens..])
      invariant shiftcount == Entries(actionrow[..g.ntokens]) && reducecount == Entries(actionrow[g.ntokens..])
    {
      ghost var shifts, reductions := actionrow[..g.ntokens], actionrow[g.ntokens..];
      var x := row[p];
      assert ActionReady(g, x);
      NothingYet(g, row, p, p, defred);
      if x.suppressed == 0 {
        if x.code == SHIFT {
          shiftcount := shiftcount + 1;
          EntriesUpdate(shifts, x.symbol, x.number);
          actionrow[x.symbol] := x.number;
          assert actionrow[..g.ntokens] == shifts[x.symbol := x.number];
          assert actionrow[g.ntokens..] == reductions;
        } else if x.code == REDUCE && x.number != defred {
          reducecount := reducecount + 1;
          EntriesUpdate(reductions, x.symbol, x.number);
          actionrow[x.symbol + g.ntokens] := x.number;
          assert actionrow[g.ntokens..] == reductions[x.symbol := x.number];
          assert actionrow[..g.ntokens] == shifts;
        }
      }
    }
  }

  /** The widths of rows: one more than the distance of the largest from the smallest key,
      with the bounds that the search for them starts from. */
  ghost function Largest(keys: seq<nat>): nat {
    if keys == [] then 0
    else if Largest(keys[..|keys| - 1]) < keys[|keys| - 1] then keys[|keys| - 1]
    else Largest(keys[..|keys| - 1])
  }

  ghost function Smallest(keys: seq<nat>): nat {
    if keys == [] then MAXSHORT
    else if Smallest(keys[..|keys| - 1]) > keys[|keys| - 1] then keys[|keys| - 1]
    else Smallest(keys[..|keys| - 1])
  }

  ghost function RowWidth(keys: seq<nat>): int {
    if keys == [] then 0 else Largest(keys) - Smallest(keys) + 1
  }

  /** The keys are the values of the tokens with an entry, their values the entries less `drop`. */
  ghost predicate Lists(values: seq<int>, actions: seq<nat>, drop: nat, n: nat, from: seq<nat>, to: seq<nat>) {
    forall s, v :: Pairs(from, to, s, v) <==> EntryIs(values, actions, drop, n, s, v)
  }

  ghost predicate EntryIs(values: seq<int>, actions: seq<nat>, drop: nat, n: nat, s: int, v: int) {
    exists j :: 0 <= j < n && j < |actions| && j < |values| && actions[j] != 0 && values[j] == s &&
      v == actions[j] - drop
  }

  /** The values of the first n symbols with an entry, in the order of the symbols. */
  ghost function Keys(values: seq<int>, actions: seq<nat>, n: nat): seq<int>
    requires n <= |values| && n <= |actions|
  {
    if n == 0 then [] else Keys(values, actions, n - 1) + if actions[n - 1] != 0 then [values[n - 1]] else []
  }

  /** The keys of the vector come in the order of the tokens. */
  ghost predicate InOrder(values: seq<int>, actions: seq<nat>, x: Vector) {
    |actions| <= |values| && x.from == Keys(values, actions, |actions|)
  }

  lemma {:induction false} NoKeysAtAll(values: seq<int>, actions: seq<nat>, n: nat)
    requires n <= |values| && n <= |actions| && forall j :: 0 <= j < |actions| ==> actions[j] == 0
    ensures Keys(values, actions, n) == []
  {
    if n > 0 {
      NoKeysAtAll(values, actions, n - 1);
    }
  }

  /** One vector from one half of actionrow: exactly `count` slots are filled. */
  method BuildVector(g: Grammar, values: seq<int>, actions: seq<nat>, drop: nat, count: nat) returns (x: Vector)
    requires ValuesOk(g, values) && |actions| == g.ntokens && count == Entries(actions)
    requires forall j :: 0 <= j < |actions| ==> actions[j] == 0 || actions[j] >= drop
    ensures WellFormed(x) && x.tally == count && x.width == RowWidth(x.from)
    ensures Lists(values, actions, drop, g.ntokens, x.from, x.to) && InOrder(values, actions, x)
  {
    hide Entries, Largest, Smallest, Lists, NoRepeats, ValuesOk;
    TokenValues(g, values);
    if count == 0 {
      x := NO_VECTOR;
      NoEntries(actions);
      NoKeys(values, actions, drop, g.ntokens);
      NoKeysAtAll(values, actions, g.ntokens);
      return;
    }
    var r: seq<nat>, s: seq<nat> := [], [];
    var min: nat, max: nat := MAXSHORT, 0;
    assert Entries(actions[..0]) == 0 by { EntriesZero(actions[..0]); }
    NoKeys(values, actions, drop, 0);
    for j := 0 to g.ntokens
      invariant |r| == |s| == Entries(actions[..j]) && NoRepeats(r)
      invariant max == Largest(r) && min == Smallest(r)
      invariant Lists(values, actions, drop, j, r, s) && r == Keys(values, actions, j)
    {
      EntriesNext(actions, j);
      if actions[j] != 0 {
        var value: nat := values[j];
        if min > value {
          min := value;
        }
        if max < value {
          max := value;
        }
        ListNext(g, values, actions, drop, j, r, s);
        LargestNext(r, value);
        r, s := r + [value], s + [actions[j] - drop];
      } else {
        ListSame(values, actions, drop, j, r, s);
      }
    }
    assert actions[..g.ntokens] == actions;
    x := Vector(r, s, count, max - min + 1);
  }

  lemma TokenValues(g: Grammar, values: seq<int>)
    requires ValuesOk(g, values)
    ensures g.ntokens < |values| && forall t :: 0 <= t < g.ntokens ==> values[t] >= 0
  {
  }

  lemma NoKeys(values: seq<int>, actions: seq<nat>, drop: nat, n: nat)
    requires forall j :: 0 <= j < n && j < |actions| ==> actions[j] == 0
    ensures Lists(values, actions, drop, n, [], []) && NoRepeats([]) && Largest([]) == 0 && Smallest([]) == MAXSHORT
  {
  }

  lemma LargestNext(r: seq<nat>, value: nat)
    ensures Largest(r + [value]) == (if Largest(r) < value then value else Largest(r))
    ensures Smallest(r + [value]) == (if Smallest(r) > value then value else Smallest(r))
  {
    assert (r + [value])[..|r|] == r;
  }

  lemma ListSame(values: seq<int>, actions: seq<nat>, drop: nat, j: nat, r: seq<nat>, s: seq<nat>)
    requires j < |actions| && actions[j] == 0 && Lists(values, actions, drop, j, r, s)
    ensures Lists(values, actions, drop, j + 1, r, s)
  {
    hide Pairs;
    forall k, v ensures EntryIs(values, actions, drop, j + 1, k, v) <==> EntryIs(values, actions, drop, j, k, v) {
    }
  }

  lemma ListNext(g: Grammar, values: seq<int>, actions: seq<nat>, drop: nat, j: nat, r: seq<nat>, s: seq<nat>)
    requires ValuesOk(g, values) && j < g.ntokens == |actions| && actions[j] != 0 && actions[j] >= drop && |r| == |s|
    requires Lists(values, actions, drop, j, r, s) && NoRepeats(r)
    ensures values[j] >= 0 && NoRepeats(r + [values[j]])
    ensures Lists(values, actions, drop, j + 1, r + [values[j]], s + [actions[j] - drop])
  {
    var r', s' := r + [values[j]], s + [actions[j] - drop];
    forall k, v ensures Pairs(r', s', k, v) <==> EntryIs(values, actions, drop, j + 1, k, v) {
      if e :| 0 <= e < |r| && r[e] == k && s[e] == v {
        assert r'[e] == k && s'[e] == v;
      }
      assert r'[|r|] == values[j] && s'[|r|] == actions[j] - drop;
      assert Pairs(r', s', k, v) <==> Pairs(r, s, k, v) || (k == values[j] && v == actions[j] - drop);
      assert EntryIs(values, actions, drop, j + 1, k, v) <==>
        EntryIs(values, actions, drop, j, k, v) || (k == values[j] && v == actions[j] - drop);
    }
    forall e | 0 <= e < |r| ensures r[e] != values[j] {
      assert Pairs(r, s, r[e], s[e]);
      assert EntryIs(values, actions, drop, j, r[e], s[e]);
    }
  }

  lemma EntriesNext(s: seq<nat>, j: nat)
    requires j < |s|
    ensures Entries(s[..j + 1]) == Entries(s[..j]) + if s[j] != 0 then 1 else 0
  {
    assert s[..j + 1][..j] == s[..j];
  }

  lemma {:induction false} NoEntries(s: seq<nat>)
    requires Entries(s) == 0
    ensures forall t :: 0 <= t < |s| ==> s[t] == 0
  {
    if s != [] {
      NoEntries(s[..|s| - 1]);
      assert forall t :: 0 <= t < |s| - 1 ==> s[t] == s[..|s| - 1][t];
    }
  }

  /** The row, with its default reduction set aside, shifts the token of value s to v. */
  ghost predicate ShiftsValue(row: seq<Action>, values: seq<int>, s: int, v: int) {
    exists k :: 0 <= k < |row| && Shifts(row, k) && row[k].symbol < |values| && values[row[k].symbol] == s &&
      row[k].number == v
  }

  /** The row reduces, other than by default, on the token of value s by the rule emitted as v. */
  ghost predicate ReducesValue(row: seq<Action>, defred: nat, values: seq<int>, s: int, v: int) {
    exists k :: 0 <= k < |row| && Reduces(row, k) && row[k].number != defred && row[k].number == v + 2
      && row[k].symbol < |values| && values[row[k].symbol] == s
  }

  /** What the row shifts, and what it reduces by rules other than the default, on tokens 0..n. */
  ghost function ShiftsOf(row: seq<Action>, n: nat): (s: seq<nat>)
    ensures |s| == n
  {
    seq(n, t requires 0 <= t < n => ShiftOn(row, |row|, t))
  }

  ghost function ReductionsOf(row: seq<Action>, defred: nat, n: nat): (s: seq<nat>)
    ensures |s| == n
  {
    seq(n, t requires 0 <= t < n => ReduceOn(row, |row|, t, defred))
  }

  ghost predicate ShiftVector(g: Grammar, row: seq<Action>, values: seq<int>, x: Vector) {
    && WellFormed(x) && x.width == RowWidth(x.from) && InOrder(values, ShiftsOf(row, g.ntokens), x)
    && forall s, v :: Pairs(x.from, x.to, s, v) <==> ShiftsValue(row, values, s, v)
  }

  ghost predicate ReduceVector(g: Grammar, row: seq<Action>, defred: nat, values: seq<int>, x: Vector) {
    && WellFormed(x) && x.width == RowWidth(x.from) && InOrder(values, ReductionsOf(row, defred, g.ntokens), x)
    && forall s, v :: Pairs(x.from, x.to, s, v) <==> ReducesValue(row, defred, values, s, v)
  }

  lemma ShiftEntries(g: Grammar, row: seq<Action>, values: seq<int>, defred: nat, shifts: seq<nat>,
                     reductions: seq<nat>, s: int, v: int)
    requires RowReady(g, row) && ValuesOk(g, values) && IsActionRow(g, row, |row|, defred, shifts, reductions)
    ensures EntryIs(values, shifts, 0, g.ntokens, s, v) <==> ShiftsValue(row, values, s, v)
  {
    hide ValuesOk, ShiftOn, ReduceOn;
    TokenValues(g, values);
    if EntryIs(values, shifts, 0, g.ntokens, s, v) {
      var j: nat :| j < g.ntokens && shifts[j] != 0 && values[j] == s && v == shifts[j];
      ShiftOnMeans(g, row, |row|, j, v);
    }
    if ShiftsValue(row, values, s, v) {
      var k :| 0 <= k < |row| && Shifts(row, k) && row[k].symbol < |values| && values[row[k].symbol] == s &&
        row[k].number == v;
      assert ActionReady(g, row[k]);
      ShiftOnMeans(g, row, |row|, row[k].symbol, v);
      assert shifts[row[k].symbol] == v;
    }
  }

  lemma ReduceEntries(g: Grammar, row: seq<Action>, values: seq<int>, defred: nat, shifts: seq<nat>,
                      reductions: seq<nat>, s: int, v: int)
    requires RowReady(g, row) && ValuesOk(g, values) && IsActionRow(g, row, |row|, defred, shifts, reductions)
    ensures EntryIs(values, reductions, 2, g.ntokens, s, v) <==> ReducesValue(row, defred, values, s, v)
  {
    hide ValuesOk, ShiftOn, ReduceOn;
    TokenValues(g, values);
    if EntryIs(values, reductions, 2, g.ntokens, s, v) {
      var j: nat :| j < g.ntokens && reductions[j] != 0 && values[j] == s && reductions[j] == v + 2;
      ReduceOnMeans(g, row, |row|, j, defred, v + 2);
    }
    if ReducesValue(row, defred, values, s, v) {
      var k :| 0 <= k < |row| && Reduces(row, k) && row[k].number != defred && row[k].number == v + 2
        && row[k].symbol < |values| && values[row[k].symbol] == s;
      assert ActionReady(g, row[k]);
      ReduceOnMeans(g, row, |row|, row[k].symbol, defred, v + 2);
      assert reductions[row[k].symbol] == v + 2;
    }
  }

  lemma EnoughToDrop(g: Grammar, row: seq<Action>, defred: nat, shifts: seq<nat>, reductions: seq<nat>)
    requires RowReady(g, row) && IsActionRow(g, row, |row|, defred, shifts, reductions)
    ensures forall j :: 0 <= j < |reductions| ==> reductions[j] == 0 || reductions[j] >= 2
  {
    hide ShiftOn, ReduceOn;
    forall j | 0 <= j < |reductions| ensures reductions[j] == 0 || reductions[j] >= 2 {
      if reductions[j] != 0 {
        ReduceOnMeans(g, row, |row|, j, defred, reductions[j]);
        var k :| 0 <= k < |row| && Reduces(row, k) && row[k].number == reductions[j] != defred && row[k].symbol == j;
        assert ActionReady(g, row[k]);
      }
    }
  }

  /** One state of token_actions. */
  method RowVectors(g: Grammar, row: seq<Action>, defred: nat, values: seq<int>) returns (shift: Vector, reduce: Vector)
    requires RowReady(g, row) && ValuesOk(g, values)
    ensures ShiftVector(g, row, values, shift) && ReduceVector(g, row, defred, values, reduce)
  {
    hide ValuesOk, RowReady, ShiftsValue, ReducesValue, RowWidth, EntryIs, Entries, ShiftOn, ReduceOn;
    if |row| == 0 {
      NoActions(g, values, defred);
      return NO_VECTOR, NO_VECTOR;
    }
    var actionrow, shiftcount, reducecount := EnterActions(g, row, defred);
    var lower, upper := actionrow[..g.ntokens], actionrow[g.ntokens..];
    assert lower == ShiftsOf(row, g.ntokens) && upper == ReductionsOf(row, defred, g.ntokens);
    EnoughToDrop(g, row, defred, lower, upper);
    shift := BuildVector(g, values, lower, 0, shiftcount);
    reduce := BuildVector(g, values, upper, 2, reducecount);
    forall s, v
      ensures Pairs(shift.from, shift.to, s, v) <==> ShiftsValue(row, values, s, v)
      ensures Pairs(reduce.from, reduce.to, s, v) <==> ReducesValue(row, defred, values, s, v)
    {
      ShiftEntries(g, row, values, defred, lower, upper, s, v);
      ReduceEntries(g, row, values, defred, lower, upper, s, v);
    }
  }

  lemma NoActions(g: Grammar, values: seq<int>, defred: nat)
    requires ValuesOk(g, values)
    ensures ShiftVector(g, [], values, NO_VECTOR) && ReduceVector(g, [], defred, values, NO_VECTOR)
  {
    NoKeysAtAll(values, ShiftsOf([], g.ntokens), g.ntokens);
    NoKeysAtAll(values, ReductionsOf([], defred, g.ntokens), g.ntokens);
  }

  method TokenActions(g: Grammar, parser: seq<seq<Action>>, defred: seq<nat>, values: seq<int>, vectors: array<Vector>)
    requires ValuesOk(g, values) && |defred| == |parser| && 2 * |parser| <= vectors.Length
    requires forall q :: 0 <= q < |parser| ==> RowReady(g, parser[q])
    modifies vectors
    ensures forall q :: 0 <= q < |parser| ==> ShiftVector(g, parser[q], values, vectors[q])
    ensures forall q :: 0 <= q < |parser| ==> ReduceVector(g, parser[q], defred[q], values, vectors[|parser| + q])
    ensures forall i :: 2 * |parser| <= i < vectors.Length ==> vectors[i] == old(vectors[i])
  {
    hide ValuesOk, RowReady, ShiftVector, ReduceVector;
    var nstates := |parser|;
    for i := 0 to nstates
      invariant forall q :: 0 <= q < i ==> ShiftVector(g, parser[q], values, vectors[q])
      invariant forall q :: 0 <= q < i ==> ReduceVector(g, parser[q], defred[q], values, vectors[nstates + q])
      invariant forall i :: 2 * nstates <= i < vectors.Length ==> vectors[i] == old(vectors[i])
    {
      var shift, reduce := RowVectors(g, parser[i], defred[i], values);
      vectors[i] := shift;
      vectors[nstates + i] := reduce;
    }
  }

  // ---------- goto_actions ----------

  ghost function Times(list: seq<nat>, s: nat): nat {
    multiset(list)[s]
  }

  /** d is the state that occurs most often in the list, the lowest of those that do. */
  ghost predicate MostFrequent(list: seq<nat>, d: nat) {
    && d in list
    && forall s: nat :: Times(list, s) <= Times(list, d) && (s < d ==> Times(list, s) < Times(list, d))
  }

  method CountStates(toState: seq<nat>, m: nat, n: nat, nstates: nat) returns (stateCount: array<nat>)
    requires m <= n <= |toState| && forall i :: m <= i < n ==> toState[i] < nstates
    ensures fresh(stateCount) && stateCount.Length == nstates
    ensures forall s :: 0 <= s < nstates ==> stateCount[s] == Times(toState[m..n], s)
  {
    stateCount := new nat[nstates](_ => 0);
    for i := m to n
      invariant forall s :: 0 <= s < nstates ==> stateCount[s] == Times(toState[m..i], s)
    {
      assert toState[m..i + 1] == toState[m..i] + [toState[i]];
      stateCount[toState[i]] := stateCount[toState[i]] + 1;
    }
  }

  method DefaultGoto(toState: seq<nat>, m: nat, n: nat, nstates: nat) returns (defaultState: nat)
    requires m <= n <= |toState| && forall i :: m <= i < n ==> toState[i] < nstates
    ensures if m == n then defaultState == 0 else MostFrequent(toState[m..n], defaultState)
  {
    hide Times;
    if m == n {
      return 0;
    }
    var stateCount := CountStates(toState, m, n, nstates);
    ghost var list := toState[m..n];
    var max: nat := 0;
    defaultState := 0;
    for i := 0 to nstates
      invariant max > 0 ==> defaultState < i && Times(list, defaultState) == max
      invariant max == 0 ==> defaultState == 0
      invariant forall s :: 0 <= s < i ==> Times(list, s) <= max
      invariant forall s :: 0 <= s < defaultState ==> Times(list, s) < max
    {
      if stateCount[i] > max {
        max := stateCount[i];
        defaultState := i;
      }
    }
    SomeCounted(list, nstates);
    forall s: nat ensures Times(list, s) <= Times(list, defaultState) {
      if s >= nstates {
        assert Times(list, s) == 0;
      }
    }
  }

  lemma SomeCounted(list: seq<nat>, n: nat)
    requires list != [] && forall i :: 0 <= i < |list| ==> list[i] < n
    ensures list[0] < n && Times(list, list[0]) > 0
    ensures forall s: nat :: Times(list, s) > 0 ==> s in list && s < n
  {
    assert list[0] in multiset(list);
    forall s: nat | Times(list, s) > 0 ensures s in list && s < n {
      assert s in multiset(list);
    }
  }

  /** How many of the gotos m..n do not go to the default. */
  ghost function Exceptions(toState: seq<nat>, m: nat, n: nat, d: nat): nat
    requires m <= n <= |toState|
  {
    if n == m then 0 else Exceptions(toState, m, n - 1, d) + if toState[n - 1] != d then 1 else 0
  }

  /** Goto number k, one of m..n, is an exception from the default and goes from s to v. */
  ghost predicate ExceptionIs(fromState: seq<nat>, toState: seq<nat>, m: nat, n: nat, d: nat, s: int, v: int) {
    exists k :: m <= k < n && k < |fromState| && k < |toState| && fromState[k] == s && toState[k] == v && v != d
  }

  /** The source states of those exceptions. */
  ghost function ColumnKeys(fromState: seq<nat>, toState: seq<nat>, m: nat, n: nat, d: nat): seq<nat>
    requires m <= n <= |toState| && n <= |fromState|
  {
    if n == m then []
    else ColumnKeys(fromState, toState, m, n - 1, d) + if toState[n - 1] != d then [fromState[n - 1]] else []
  }

  function ColumnWidth(from: seq<nat>): int {
    if from == [] then 0 else from[|from| - 1] as int - from[0] as int + 1
  }

  ghost predicate Column(fromState: seq<nat>, toState: seq<nat>, m: nat, n: nat, d: nat, x: Vector) {
    && WellFormed(x) && m <= n <= |toState| && n <= |fromState| && x.from == ColumnKeys(fromState, toState, m, n, d)
    && forall s, v :: Pairs(x.from, x.to, s, v) <==> ExceptionIs(fromState, toState, m, n, d, s, v)
  }

  ghost predicate Rises(s: seq<nat>, m: nat, n: nat) {
    n <= |s| && forall j, k :: m <= j < k < n ==> s[j] < s[k]
  }

  /** The column of one nonterminal: exactly `count` slots are filled. */
  method SaveColumn(fromState: seq<nat>, toState: seq<nat>, m: nat, n: nat, defaultState: nat) returns (x: Vector)
    requires m <= n <= |toState| == |fromState| && Rises(fromState, m, n)
    ensures Column(fromState, toState, m, n, defaultState, x)
    ensures x.tally == 0 ==> x == NO_VECTOR
    ensures x.width == ColumnWidth(x.from)
  {
    hide Rises, Pairs, ExceptionIs;
    var count := 0;
    for i := m to n
      invariant count == Exceptions(toState, m, i, defaultState)
    {
      if toState[i] != defaultState {
        count := count + 1;
      }
    }
    var sp: seq<nat>, sp2: seq<nat> := [], [];
    NoExceptions(fromState, toState, m, defaultState);
    for i := m to n
      invariant |sp| == |sp2| == Exceptions(toState, m, i, defaultState)
      invariant Column(fromState, toState, m, i, defaultState, Vector(sp, sp2, |sp|, 0))
    {
      NextException(fromState, toState, m, i, n, defaultState, sp, sp2);
      if toState[i] != defaultState {
        sp, sp2 := sp + [fromState[i]], sp2 + [toState[i]];
      }
    }
    x := if count == 0 then NO_VECTOR else Vector(sp, sp2, count, sp[|sp| - 1] as int - sp[0] as int + 1);
  }

  lemma NoExceptions(fromState: seq<nat>, toState: seq<nat>, m: nat, d: nat)
    requires m <= |toState| && m <= |fromState|
    ensures Column(fromState, toState, m, m, d, NO_VECTOR)
  {
  }

  lemma NextException(fromState: seq<nat>, toState: seq<nat>, m: nat, i: nat, n: nat, d: nat,
                      sp: seq<nat>, sp2: seq<nat>)
    requires m <= i < n <= |toState| == |fromState| && Rises(fromState, m, n)
    requires Column(fromState, toState, m, i, d, Vector(sp, sp2, |sp|, 0))
    ensures toState[i] == d ==> Column(fromState, toState, m, i + 1, d, Vector(sp, sp2, |sp|, 0))
    ensures toState[i] != d ==>
      Column(fromState, toState, m, i + 1, d, Vector(sp + [fromState[i]], sp2 + [toState[i]], |sp| + 1, 0))
  {
    forall s, v ensures ExceptionIs(fromState, toState, m, i + 1, d, s, v) <==>
        ExceptionIs(fromState, toState, m, i, d, s, v) || (s == fromState[i] && v == toState[i] && v != d) {
    }
    forall e | 0 <= e < |sp| ensures sp[e] != fromState[i] {
      assert Pairs(sp, sp2, sp[e], sp2[e]);
      assert ExceptionIs(fromState, toState, m, i, d, sp[e], sp2[e]);
    }
    forall s, v ensures Pairs(sp + [fromState[i]], sp2 + [toState[i]], s, v) <==>
        Pairs(sp, sp2, s, v) || (s == fromState[i] && v == toState[i]) {
      var from, to := sp + [fromState[i]], sp2 + [toState[i]];
      if e :| 0 <= e < |sp| && sp[e] == s && sp2[e] == v {
        assert from[e] == s && to[e] == v;
      }
      assert from[|sp|] == fromState[i] && to[|sp|] == toState[i];
    }
  }

  // ---------- The vectors are determined ----------

  /** A vector is determined by its keys and pairs and its width. */
  lemma OneVector(x: Vector, y: Vector)
    requires WellFormed(x) && WellFormed(y) && x.from == y.from && x.width == y.width
    requires forall s, v :: Pairs(x.from, x.to, s, v) <==> Pairs(y.from, y.to, s, v)
    ensures x == y
  {
    forall e | 0 <= e < |x.from| ensures x.to[e] == y.to[e] {
      assert Pairs(x.from, x.to, x.from[e], x.to[e]);
      assert Pairs(y.from, y.to, x.from[e], x.to[e]);
    }
  }

  lemma OneMostFrequent(list: seq<nat>, d: nat, d': nat)
    requires MostFrequent(list, d) && MostFrequent(list, d')
    ensures d == d'
  {
    hide Times;
    assert Times(list, d) <= Times(list, d') && Times(list, d') <= Times(list, d);
  }

  /** There is one order of the vectors by rank. */
  lemma {:induction false} OneOrder(vectors: seq<Vector>, order: seq<nat>, order': seq<nat>)
    requires Ranked(vectors, order) && Ranked(vectors, order') && forall i :: i in order <==> i in order'
    ensures order == order'
    decreases |order|
  {
    hide Outranks;
    NoneOfThem(order, order');
    if order != [] {
      SameFirst(vectors, order, order');
      forall i ensures i in order[1..] <==> i in order'[1..] {
        AfterFirst(vectors, order, i);
        AfterFirst(vectors, order', i);
      }
      OneOrder(vectors, order[1..], order'[1..]);
      assert order == [order[0]] + order[1..] && order' == [order'[0]] + order'[1..];
    }
  }

  lemma NoneOfThem(order: seq<nat>, order': seq<nat>)
    requires forall i :: i in order <==> i in order'
    ensures order == [] <==> order' == []
  {
    if order != [] {
      assert order[0] in order;
    }
    if order' != [] {
      assert order'[0] in order';
    }
  }

  lemma SameFirst(vectors: seq<Vector>, order: seq<nat>, order': seq<nat>)
    requires Ranked(vectors, order) && Ranked(vectors, order') && forall i :: i in order <==> i in order'
    requires order != [] && order' != []
    ensures order[0] == order'[0]
  {
    hide Outranks;
    assert order[0] in order' && order'[0] in order;
    var a :| 0 <= a < |order'| && order'[a] == order[0];
    var b :| 0 <= b < |order| && order[b] == order'[0];
    if a > 0 && b > 0 && order[0] != order'[0] {
      RankTotal(vectors, order[0], order'[0]);
    }
  }

  lemma AfterFirst(vectors: seq<Vector>, order: seq<nat>, i: nat)
    requires Ranked(vectors, order) && order != []
    ensures i in order[1..] <==> i in order && i != order[0]
  {
    assert forall a :: 1 <= a < |order| ==> order[1..][a - 1] == order[a] && !Outranks(vectors, order[a], order[a]);
    if i in order && i != order[0] {
      var a :| 0 <= a < |order| && order[a] == i;
      assert order[1..][a - 1] == i;
    }
  }

  // ---------- sort_actions ----------

  /** Wider vectors first, among equally wide ones those with more entries, then by number. */
  predicate Outranks(vectors: seq<Vector>, i: nat, j: nat)
    requires i < |vectors| && j < |vectors|
  {
    || vectors[i].width > vectors[j].width
    || (vectors[i].width == vectors[j].width && vectors[i].tally > vectors[j].tally)
    || (vectors[i].width == vectors[j].width && vectors[i].tally == vectors[j].tally && i < j)
  }

  ghost predicate Ranked(vectors: seq<Vector>, order: seq<nat>) {
    && (forall a :: 0 <= a < |order| ==> order[a] < |vectors|)
    && forall a, b :: 0 <= a < b < |order| ==> Outranks(vectors, order[a], order[b])
  }

  /** order lists the vectors below n that have entries, by rank. */
  ghost predicate IsOrder(vectors: seq<Vector>, n: nat, order: seq<nat>)
    requires n <= |vectors|
  {
    Ranked(vectors, order) && forall i: nat :: i in order <==> i < n && vectors[i].tally > 0
  }

  lemma InsertRanked(vectors: seq<Vector>, order: seq<nat>, i: nat, p: nat)
    requires i < |vectors| && Ranked(vectors, order) && p <= |order|
    requires p > 0 ==> Outranks(vectors, order[p - 1], i)
    requires p < |order| ==> Outranks(vectors, i, order[p])
    ensures Ranked(vectors, order[..p] + [i] + order[p..])
  {
    hide Outranks;
    var after := order[..p] + [i] + order[p..];
    assert forall a :: 0 <= a < p ==> after[a] == order[a];
    assert forall a :: p < a < |after| ==> after[a] == order[a - 1];
    forall a, b | 0 <= a < b < |after| ensures Outranks(vectors, after[a], after[b]) {
      if b == p && a < p - 1 {
        RankTrans(vectors, order[a], order[p - 1], i);
      } else if a == p && b > p + 1 {
        RankTrans(vectors, i, order[p], order[b - 1]);
      }
    }
  }

  lemma InsertListed(vectors: seq<Vector>, order: seq<nat>, i: nat, p: nat)
    requires i < |vectors| && vectors[i].tally > 0 && IsOrder(vectors, i, order) && p <= |order|
    requires p > 0 ==> Outranks(vectors, order[p - 1], i)
    requires p < |order| ==> !Outranks(vectors, order[p], i)
    ensures IsOrder(vectors, i + 1, order[..p] + [i] + order[p..])
  {
    hide Outranks, Ranked;
    assert order == order[..p] + order[p..];
    if p < |order| {
      assert order[p] in order;
      RankTotal(vectors, order[p], i);
    }
    InsertRanked(vectors, order, i, p);
    var after := order[..p] + [i] + order[p..];
    forall x: nat ensures x in after <==> x == i || x in order {
      assert x in order <==> x in order[..p] + order[p..];
    }
  }

  lemma RankTrans(vectors: seq<Vector>, i: nat, j: nat, k: nat)
    requires i < |vectors| && j < |vectors| && k < |vectors| && Outranks(vectors, i, j) && Outranks(vectors, j, k)
    ensures Outranks(vectors, i, k)
  {
  }

  lemma RankTotal(vectors: seq<Vector>, i: nat, j: nat)
    requires i < |vectors| && j < |vectors| && i != j
    ensures Outranks(vectors, i, j) <==> !Outranks(vectors, j, i)
  {
  }

  lemma NothingRanked(vectors: seq<Vector>, order: seq<nat>)
    requires order == []
    ensures IsOrder(vectors, 0, order)
  {
  }

  lemma NotRanked(vectors: seq<Vector>, order: seq<nat>, i: nat)
    requires i < |vectors| && vectors[i].tally == 0 && IsOrder(vectors, i, order)
    ensures IsOrder(vectors, i + 1, order)
  {
  }

  lemma OrderLength(vectors: seq<Vector>, n: nat, order: seq<nat>)
    requires n <= |vectors| && IsOrder(vectors, n, order)
    ensures NoRepeats(order) && |order| <= n
  {
    assert forall a :: 0 <= a < |order| ==> order[a] in order;
    DistinctBound(order, n);
  }

  /** An insertion sort of the vectors that are present. */
  method SortActions(vectors: seq<Vector>) returns (order: array<nat>, nentries: nat)
    ensures fresh(order) && nentries <= order.Length && IsOrder(vectors, |vectors|, order[..nentries])
  {
    hide Outranks, IsOrder;
    order := new nat[|vectors|];
    nentries := 0;
    assert IsOrder(vectors, 0, order[..nentries]) by { NothingRanked(vectors, order[..0]); }
    for i := 0 to |vectors|
      invariant nentries <= i && IsOrder(vectors, i, order[..nentries])
    {
      if vectors[i].tally > 0 {
        ghost var before := order[..nentries];
        var j := FindRank(vectors, order, nentries, i);
        InsertListed(vectors, before, i, j + 1);
        OrderLength(vectors, i + 1, before[..j + 1] + [i] + before[j + 1..]);
        assert order[..j + 1] == before[..j + 1] && order[j + 1..nentries] == before[j + 1..];
        Shift(order, nentries, j + 1, i);
        nentries := nentries + 1;
      } else {
        NotRanked(vectors, order[..nentries], i);
      }
    }
  }

  method FindRank(vectors: seq<Vector>, order: array<nat>, nentries: nat, i: nat) returns (j: int)
    requires i < |vectors| && nentries <= order.Length && IsOrder(vectors, i, order[..nentries])
    ensures -1 <= j < nentries
    ensures j >= 0 ==> order[j] < |vectors| && Outranks(vectors, order[j], i)
    ensures j + 1 < nentries ==> order[j + 1] < |vectors| && !Outranks(vectors, order[j + 1], i)
  {
    var t, w := vectors[i].tally, vectors[i].width;
    j := nentries - 1;
    assert forall a :: 0 <= a < nentries ==> order[a] == order[..nentries][a];
    while j >= 0 && vectors[order[j]].width < w
      invariant -1 <= j < nentries
      invariant j + 1 < nentries ==> vectors[order[j + 1]].width < w
    {
      j := j - 1;
    }
    while j >= 0 && vectors[order[j]].width == w && vectors[order[j]].tally < t
      invariant -1 <= j < nentries
      invariant j >= 0 ==> vectors[order[j]].width >= w
      invariant j + 1 < nentries ==>
        vectors[order[j + 1]].width < w || (vectors[order[j + 1]].width == w && vectors[order[j + 1]].tally < t)
    {
      j := j - 1;
      if j >= 0 {
        assert Outranks(vectors, order[..nentries][j], order[..nentries][j + 1]);
      }
    }
  }

  /** Moves the entries from p on up by one and writes i into the gap. */
  method Shift(order: array<nat>, nentries: nat, p: nat, i: nat)
    requires p <= nentries < order.Length
    modifies order
    ensures order[..nentries + 1] == old(order[..p]) + [i] + old(order[p..nentries])
  {
    var k := nentries;
    while k > p
      invariant p <= k <= nentries
      invariant forall l :: 0 <= l < k ==> order[l] == old(order[l])
      invariant forall l :: k < l <= nentries ==> order[l] == old(order[l - 1])
    {
      order[k] := order[k - 1];
      k := k - 1;
    }
    order[p] := i;
  }
}
