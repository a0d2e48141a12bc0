/** Conflict resolution and default reductions of byacc/mkpar.c. */
module Conflicts {
  import opened Grammars
  import opened Automata
  import opened Lookaheads
  import opened Actions

  const LEFT := 1
  const RIGHT := 2

  // ---------- What should become of each action ----------

  /** Suppressed as 1, suppressed as 2, or suppressed as 2 and made an error action. */
  datatype Fate = Kept | Conflicting | Overruled | Erased

  /** Shift s and reduction r are the only actions on their token, and both have a precedence. */
  ghost predicate Resolvable(row: seq<Action>, s: Action, r: Action) {
    && s in row && r in row && s.code == SHIFT && r.code == REDUCE && s.symbol == r.symbol
    && s.prec > 0 && r.prec > 0
    && forall y :: y in row && y.symbol == s.symbol ==> y == s || y == r
  }

  /** Which of the two precedence favours; on a tie the associativity of the token decides. */
  function PairFate(s: Action, r: Action, x: Action): Fate {
    if s.prec == r.prec then
      if s.assoc == LEFT then (if x == s then Overruled else Kept)
      else if s.assoc == RIGHT then (if x == s then Kept else Overruled)
      else Erased
    else if s.prec < r.prec then (if x == s then Overruled else Kept)
    else (if x == s then Kept else Overruled)
  }

  ghost predicate Contested(row: seq<Action>, x: Action, y: Action) {
    Resolvable(row, x, y) || Resolvable(row, y, x)
  }

  /** x comes first among the actions on its token: the shift, or else the lowest rule. */
  ghost predicate First(row: seq<Action>, x: Action) {
    forall y :: y in row && y.symbol == x.symbol && y != x ==> Precedes(x, y)
  }

  /** What becomes of action x; atEnd marks the final state, where $end means acceptance. */
  ghost function FateOf(row: seq<Action>, x: Action, atEnd: bool): Fate {
    if atEnd && x.symbol == END then Conflicting
    else if exists y :: Contested(row, x, y) then
      var y :| Contested(row, x, y);
      if x.code == SHIFT then PairFate(x, y, x) else PairFate(y, x, x)
    else if First(row, x) then Kept
    else Conflicting
  }

  function Settled(x: Action, fate: Fate): Action {
    match fate
    case Kept => x
    case Conflicting => x.(suppressed := 1)
    case Overruled => x.(suppressed := 2)
    case Erased => x.(suppressed := 2, code := ERROR)
  }

  ghost predicate SettledAt(before: seq<Action>, after: seq<Action>, atEnd: bool, k: nat)
    requires k < |before| && k < |after|
  {
    after[k] == Settled(before[k], FateOf(before, before[k], atEnd))
  }

  ghost predicate IsSettled(before: seq<Action>, after: seq<Action>, atEnd: bool) {
    |after| == |before| && forall k :: 0 <= k < |before| ==> SettledAt(before, after, atEnd, k)
  }

  // ---------- What the fates amount to ----------

  lemma PairIsUnique(row: seq<Action>, x: Action, y: Action, z: Action)
    requires Contested(row, x, y) && Contested(row, x, z)
    ensures y == z
  {
  }

  lemma FateOfPair(row: seq<Action>, s: Action, r: Action)
    requires Resolvable(row, s, r)
    ensures FateOf(row, s, false) == PairFate(s, r, s) && FateOf(row, r, false) == PairFate(s, r, r)
  {
    assert Contested(row, s, r) && Contested(row, r, s);
    forall z | Contested(row, s, z) ensures z == r {
      PairIsUnique(row, s, r, z);
    }
    forall z | Contested(row, r, z) ensures z == s {
      PairIsUnique(row, r, s, z);
    }
  }

  lemma FateAwayFromEnd(row: seq<Action>, x: Action, atEnd: bool)
    requires !(atEnd && x.symbol == END)
    ensures FateOf(row, x, atEnd) == FateOf(row, x, false)
  {
  }

  /** At most one action on each token is kept. */
  lemma OneKept(row: seq<Action>, x: Action, y: Action, atEnd: bool)
    requires x in row && y in row && x.symbol == y.symbol
    requires FateOf(row, x, atEnd) == Kept && FateOf(row, y, atEnd) == Kept
    ensures x == y
  {
    hide Precedes, First, Resolvable;
    if x != y {
      if z :| Contested(row, x, z) {
        SameContest(row, x, z, y);
        FateOfPair(row, if x.code == SHIFT then x else y, if x.code == SHIFT then y else x);
      } else if z :| Contested(row, y, z) {
        SameContest(row, y, z, x);
        assert false;
      } else {
        BothFirst(row, x, y);
        assert false;
      }
    }
  }

  lemma SameContest(row: seq<Action>, x: Action, z: Action, y: Action)
    requires Contested(row, x, z) && y in row && y.symbol == x.symbol && y != x
    ensures y == z && Contested(row, y, x)
    ensures if x.code == SHIFT then Resolvable(row, x, y) else Resolvable(row, y, x)
  {
  }

  lemma BothFirst(row: seq<Action>, x: Action, y: Action)
    requires x in row && y in row && x.symbol == y.symbol && x != y && First(row, x)
    ensures !First(row, y)
  {
  }

  /** Without a decision by precedence, the kept action is the shift if there is one, and
      otherwise the reduction by the lowest rule. */
  lemma KeptByDefault(row: seq<Action>, x: Action, y: Action, atEnd: bool)
    requires Sorted(row) && Plain(row) && x in row && y in row && x.symbol == y.symbol
    requires FateOf(row, x, atEnd) == Kept && !exists z :: Contested(row, x, z)
    ensures y.code == SHIFT ==> x == y
    ensures x.code == REDUCE && y.code == REDUCE ==> x.number <= y.number
  {
  }

  /** A token that has actions keeps one, unless the state accepts on it or precedence erased the pair. */
  lemma SomeKept(row: seq<Action>, x: Action, atEnd: bool) returns (y: Action)
    requires Sorted(row) && x in row && !(atEnd && x.symbol == END)
    ensures y in row && y.symbol == x.symbol
    ensures FateOf(row, y, atEnd) == Kept || (FateOf(row, x, atEnd) == Erased && FateOf(row, y, atEnd) == Erased)
  {
    hide Precedes, Sorted, Contested;
    FateAwayFromEnd(row, x, atEnd);
    if z :| Contested(row, x, z) {
      y := PairKept(row, x, z);
      FateAwayFromEnd(row, y, atEnd);
    } else {
      var k: nat :| k < |row| && row[k] == x;
      var f := FirstOf(row, k);
      y := row[f];
      if z :| Contested(row, y, z) {
        if x != y {
          ContestReaches(row, y, z, x);
          assert false;
        } else {
          assert false;
        }
      }
      FateAwayFromEnd(row, y, atEnd);
    }
  }

  lemma ContestReaches(row: seq<Action>, y: Action, z: Action, x: Action)
    requires Contested(row, y, z) && x in row && x.symbol == y.symbol && x != y
    ensures Contested(row, x, y)
  {
  }

  lemma PairKept(row: seq<Action>, x: Action, z: Action) returns (y: Action)
    requires Contested(row, x, z)
    ensures y in row && y.symbol == x.symbol
    ensures FateOf(row, y, false) == Kept || (FateOf(row, x, false) == Erased && FateOf(row, y, false) == Erased)
  {
    var s, r := if Resolvable(row, x, z) then x else z, if Resolvable(row, x, z) then z else x;
    FateOfPair(row, s, r);
    y := if FateOf(row, s, false) == Kept then s else if FateOf(row, r, false) == Kept then r else x;
  }

  lemma {:induction false} FirstOf(row: seq<Action>, k: nat) returns (f: nat)
    requires Sorted(row) && k < |row|
    ensures f <= k && row[f].symbol == row[k].symbol && First(row, row[f])
  {
    hide Precedes;
    if k > 0 && row[k - 1].symbol == row[k].symbol {
      f := FirstOf(row, k - 1);
    } else {
      f := k;
      forall y | y in row && y.symbol == row[k].symbol && y != row[k] ensures Precedes(row[k], y) {
        var j: nat :| j < |row| && row[j] == y;
        if j < k {
          PrecedesSymbols(row[j], row[k - 1], row, j, k - 1);
          assert Precedes(row[k - 1], row[k]);
          SymbolsGrow(row[k - 1], row[k]);
          assert false;
        }
      }
    }
  }

  lemma SymbolsGrow(x: Action, y: Action)
    requires Precedes(x, y)
    ensures x.symbol <= y.symbol
  {
  }

  lemma PrecedesSymbols(x: Action, y: Action, row: seq<Action>, i: nat, j: nat)
    requires Sorted(row) && i <= j < |row| && row[i] == x && row[j] == y
    ensures x.symbol <= y.symbol
  {
    if i < j {
      SymbolsGrow(x, y);
    }
  }

  // ---------- One group ----------

  /** Positions first..last hold all the actions on one token. */
  ghost predicate IsGroup(row: seq<Action>, first: nat, last: nat) {
    && first <= last < |row|
    && (forall k :: first <= k <= last ==> row[k].symbol == row[first].symbol)
    && (first > 0 ==> row[first - 1].symbol != row[first].symbol)
    && (last + 1 < |row| ==> row[last + 1].symbol != row[first].symbol)
  }

  lemma GroupMember(row: seq<Action>, first: nat, last: nat, y: Action) returns (k: nat)
    requires Sorted(row) && IsGroup(row, first, last) && y in row && y.symbol == row[first].symbol
    ensures first <= k <= last && row[k] == y
  {
    k :| 0 <= k < |row| && row[k] == y;
  }

  ghost predicate PairAt(row: seq<Action>, first: nat, last: nat)
    requires first <= last < |row|
  {
    last == first + 1 && row[first].code == SHIFT && row[first].prec > 0 && row[last].prec > 0
  }

  lemma GroupOfPair(row: seq<Action>, first: nat, last: nat)
    requires Sorted(row) && Plain(row) && IsGroup(row, first, last) && PairAt(row, first, last)
    ensures Resolvable(row, row[first], row[last]) && row[first] != row[last]
    ensures FateOf(row, row[first], false) == PairFate(row[first], row[last], row[first])
    ensures FateOf(row, row[last], false) == PairFate(row[first], row[last], row[last])
  {
    assert Precedes(row[first], row[last]);
    forall y | y in row && y.symbol == row[first].symbol ensures y == row[first] || y == row[last] {
      var k := GroupMember(row, first, last, y);
    }
    FateOfPair(row, row[first], row[last]);
  }

  lemma DistinctAt(row: seq<Action>, i: nat, j: nat)
    requires Sorted(row) && i < |row| && j < |row| && row[i] == row[j]
    ensures i == j
  {
  }

  /** The two actions of a resolvable pair are a group of their own, the shift first. */
  lemma PairFillsGroup(row: seq<Action>, first: nat, last: nat, i: nat, j: nat)
    requires Sorted(row) && IsGroup(row, first, last) && first <= i <= last && first <= j <= last
    requires Resolvable(row, row[i], row[j])
    ensures PairAt(row, first, last)
  {
    OneOfPair(row, first, last, i, j, first);
    OneOfPair(row, first, last, i, j, last);
    OneOfPair(row, first, last, i, j, if first < last then first + 1 else first);
    assert j < i ==> Precedes(row[j], row[i]);
  }

  lemma OneOfPair(row: seq<Action>, first: nat, last: nat, i: nat, j: nat, k: nat)
    requires Sorted(row) && IsGroup(row, first, last) && first <= i <= last && first <= j <= last && first <= k <= last
    requires Resolvable(row, row[i], row[j])
    ensures i != j && (k == i || k == j)
  {
    assert row[k] in row;
    if row[k] == row[i] {
      DistinctAt(row, k, i);
    } else {
      DistinctAt(row, k, j);
    }
  }

  lemma GroupUncontested(row: seq<Action>, first: nat, last: nat, k: nat, y: Action)
    requires Sorted(row) && IsGroup(row, first, last) && !PairAt(row, first, last) && first <= k <= last
    ensures !Contested(row, row[k], y)
  {
    hide Precedes, Sorted;
    if Contested(row, row[k], y) {
      var j := GroupMember(row, first, last, y);
      if Resolvable(row, row[k], y) {
        PairFillsGroup(row, first, last, k, j);
      } else {
        PairFillsGroup(row, first, last, j, k);
      }
    }
  }

  lemma GroupOfConflict(row: seq<Action>, first: nat, last: nat, k: nat)
    requires Sorted(row) && IsGroup(row, first, last) && !PairAt(row, first, last) && first <= k <= last
    ensures FateOf(row, row[k], false) == if k == first then Kept else Conflicting
  {
    hide Precedes, Contested;
    forall y ensures !Contested(row, row[k], y) {
      GroupUncontested(row, first, last, k, y);
    }
    if k == first {
      forall y | y in row && y.symbol == row[k].symbol && y != row[k] ensures Precedes(row[k], y) {
        var j := GroupMember(row, first, last, y);
      }
    } else {
      assert Precedes(row[first], row[k]);
      assert row[first] in row;
      NotBothWays(row[first], row[k]);
    }
  }

  lemma NotBothWays(x: Action, y: Action)
    requires Precedes(x, y)
    ensures !Precedes(y, x) && x != y
  {
  }

  /** An action on x's token is a shift, or x stands at acceptance: such a conflict is counted
      as shift/reduce, any other as reduce/reduce. */
  ghost predicate ShiftReduce(row: seq<Action>, x: Action, atEnd: bool) {
    (atEnd && x.symbol == END) || exists s :: s in row && s.symbol == x.symbol && s.code == SHIFT
  }

  /** How many of the first n actions become conflicting, of one kind or the other. */
  ghost function Count(row: seq<Action>, atEnd: bool, n: nat, sr: bool): nat
    requires n <= |row|
  {
    if n == 0 then 0
    else Count(row, atEnd, n - 1, sr) +
         (if FateOf(row, row[n - 1], atEnd) == Conflicting && ShiftReduce(row, row[n - 1], atEnd) == sr then 1 else 0)
  }

  lemma GroupKind(row: seq<Action>, first: nat, last: nat, k: nat, atEnd: bool)
    requires Sorted(row) && IsGroup(row, first, last) && first <= k <= last && !(atEnd && row[first].symbol == END)
    ensures ShiftReduce(row, row[k], atEnd) <==> row[first].code == SHIFT
  {
    assert row[first] in row;
    if s :| s in row && s.symbol == row[k].symbol && s.code == SHIFT {
      var j := GroupMember(row, first, last, s);
      if j > first {
        assert Precedes(row[first], row[j]);
      }
    }
  }

  /** The count over a group in which all but the first `skip` become conflicting. */
  lemma {:induction false} CountGroup(row: seq<Action>, atEnd: bool, first: nat, n: nat, skip: nat, kind: bool)
    requires first + skip <= n <= |row|
    requires forall k :: first <= k < n ==> (FateOf(row, row[k], atEnd) == Conflicting <==> first + skip <= k)
    requires forall k :: first <= k < n ==> ShiftReduce(row, row[k], atEnd) == kind
    ensures Count(row, atEnd, n, kind) == Count(row, atEnd, first, kind) + (n - first - skip)
    ensures Count(row, atEnd, n, !kind) == Count(row, atEnd, first, !kind)
    decreases n
  {
    hide FateOf, ShiftReduce;
    if n > first + skip {
      CountGroup(row, atEnd, first, n - 1, skip, kind);
    } else if skip > 0 {
      CountGroup(row, atEnd, first, n - 1, skip - 1, kind);
    }
  }

  // ---------- end_conflicts, resolve_conflicts ----------

  /** Positions below n are settled, the others as before. */
  ghost predicate SettledUpTo(before: seq<Action>, row: seq<Action>, atEnd: bool, n: nat) {
    && |row| == |before| && n <= |before|
    && (forall k :: 0 <= k < n ==> SettledAt(before, row, atEnd, k))
    && forall k :: n <= k < |before| ==> row[k] == before[k]
  }

  lemma SettledStep(before: seq<Action>, row: seq<Action>, r: seq<Action>, atEnd: bool, n: nat)
    requires SettledUpTo(before, row, atEnd, n) && n < |before| && |r| == |row| && SettledAt(before, r, atEnd, n)
    requires forall k :: 0 <= k < |row| && k != n ==> r[k] == row[k]
    ensures SettledUpTo(before, r, atEnd, n + 1)
  {
    hide FateOf, Settled;
    forall k | 0 <= k < n ensures SettledAt(before, r, atEnd, k) {
      assert SettledAt(before, row, atEnd, k);
    }
  }

  method EndConflicts(ghost before: seq<Action>, row: seq<Action>, first: nat, last: nat, SRcount: nat)
    returns (r: seq<Action>, SRcount': nat)
    requires Sorted(before) && IsGroup(before, first, last) && before[first].symbol == END
    requires SettledUpTo(before, row, true, first)
    ensures SettledUpTo(before, r, true, last + 1)
    ensures SRcount' == SRcount + (last + 1 - first)
  {
    hide Sorted;
    r, SRcount' := row, SRcount;
    var p := first;
    while true
      invariant first <= p <= last && SRcount' == SRcount + (p - first)
      invariant SettledUpTo(before, r, true, p)
      decreases last - p
    {
      SRcount' := SRcount' + 1;
      SettledStep(before, r, r[p := r[p].(suppressed := 1)], true, p);
      r := r[p := r[p].(suppressed := 1)];
      if p == last { break; }
      p := p + 1;
    }
  }

  method ResolveConflicts(ghost before: seq<Action>, row: seq<Action>, first: nat, last: nat, ghost atEnd: bool,
                          SRcount: nat, RRcount: nat)
    returns (r: seq<Action>, SRcount': nat, RRcount': nat)
    requires Sorted(before) && Plain(before) && IsGroup(before, first, last) && first < last
    requires !(atEnd && before[first].symbol == END)
    requires SettledUpTo(before, row, atEnd, first)
    ensures SettledUpTo(before, r, atEnd, last + 1)
    ensures if PairAt(before, first, last) then SRcount' == SRcount && RRcount' == RRcount
            else if before[first].code == SHIFT then SRcount' == SRcount + (last - first) && RRcount' == RRcount
            else SRcount' == SRcount && RRcount' == RRcount + (last - first)
  {
    hide Sorted, FateOf, IsGroup, Plain, ShiftReduce;
    r, SRcount', RRcount' := row, SRcount, RRcount;
    GroupBounds(before, first, last);
    var count := 1;
    var p := first;
    while p != last
      invariant first <= p <= last && count == 1 + (p - first)
    {
      count := count + 1;
      p := p + 1;
    }
    var shift, other := row[first], row[last];
    if shift.code == SHIFT && count == 2 && shift.prec > 0 && other.prec > 0 {
      GroupOfPair(before, first, last);
      if shift.prec == other.prec {
        if shift.assoc == LEFT {
          r := r[first := shift.(suppressed := 2)];
        } else if shift.assoc == RIGHT {
          r := r[last := other.(suppressed := 2)];
        } else {
          r := r[first := shift.(suppressed := 2)];
          r := r[last := other.(suppressed := 2)];
          r := r[first := r[first].(code := ERROR)];
          r := r[last := r[last].(code := ERROR)];
        }
      } else if shift.prec < other.prec {
        r := r[first := shift.(suppressed := 2)];
      } else {
        r := r[last := other.(suppressed := 2)];
      }
      PairSettled(before, row, r, first, last, atEnd);
    } else {
      if shift.code == SHIFT {
        SRcount' := SRcount' + (count - 1);
      } else {
        RRcount' := RRcount' + (count - 1);
      }
      SettleAt(before, r, atEnd, first, first, last);
      SettledStep(before, row, r, atEnd, first);
      p := first;
      while p != last
        invariant first <= p <= last
        invariant SettledUpTo(before, r, atEnd, p + 1)
        decreases last - p
      {
        p := p + 1;
        SettleAt(before, r[p := r[p].(suppressed := 1)], atEnd, p, first, last);
        SettledStep(before, r, r[p := r[p].(suppressed := 1)], atEnd, p);
        r := r[p := r[p].(suppressed := 1)];
      }
    }
  }

  lemma GroupBounds(row: seq<Action>, first: nat, last: nat)
    requires IsGroup(row, first, last)
    ensures first <= last < |row| && row[last].symbol == row[first].symbol
  {
  }

  lemma SettleAt(before: seq<Action>, row: seq<Action>, atEnd: bool, k: nat, first: nat, last: nat)
    requires Sorted(before) && IsGroup(before, first, last) && !PairAt(before, first, last) && first <= k <= last
    requires |row| == |before| && !(atEnd && before[first].symbol == END)
    requires row[k] == if k == first then before[k] else before[k].(suppressed := 1)
    ensures SettledAt(before, row, atEnd, k)
  {
    hide FateOf, Sorted;
    FateAwayFromEnd(before, before[k], atEnd);
    GroupOfConflict(before, first, last, k);
  }

  lemma PairSettled(before: seq<Action>, row: seq<Action>, r: seq<Action>, first: nat, last: nat, atEnd: bool)
    requires Sorted(before) && Plain(before) && IsGroup(before, first, last) && PairAt(before, first, last)
    requires !(atEnd && before[first].symbol == END) && SettledUpTo(before, row, atEnd, first)
    requires |r| == |row| && r[first] == Settled(before[first], PairFate(before[first], before[last], before[first]))
    requires r[last] == Settled(before[last], PairFate(before[first], before[last], before[last]))
    requires forall k :: 0 <= k < |r| && k != first && k != last ==> r[k] == row[k]
    ensures SettledUpTo(before, r, atEnd, last + 1)
  {
    hide FateOf, Sorted, PairFate;
    GroupOfPair(before, first, last);
    FateAwayFromEnd(before, before[first], atEnd);
    FateAwayFromEnd(before, before[last], atEnd);
    SettledStep(before, row, row[first := r[first]], atEnd, first);
    assert SettledAt(before, r, atEnd, last);
    SettledStep(before, row[first := r[first]], r, atEnd, last);
  }

  // ---------- remove_conflicts ----------

  /** The end of the group that starts at p. */
  method GroupEnd(row: seq<Action>, p: nat, ghost before: seq<Action>, ghost atEnd: bool) returns (q: nat)
    requires SettledUpTo(before, row, atEnd, p) && p < |row| && Sorted(before)
    requires p > 0 ==> before[p - 1].symbol != before[p].symbol
    ensures IsGroup(before, p, q)
  {
    hide Sorted, FateOf;
    q := p;
    while q + 1 < |row| && row[q + 1].symbol == row[p].symbol
      invariant p <= q < |row|
      invariant forall k :: p <= k <= q ==> before[k].symbol == before[p].symbol
    {
      q := q + 1;
    }
  }

  /** One state: every group of actions on one token is settled. */
  method SettleRow(row: seq<Action>, atEnd: bool) returns (r: seq<Action>, SRcount: nat, RRcount: nat)
    requires Sorted(row) && Plain(row)
    ensures IsSettled(row, r, atEnd)
    ensures SRcount == Count(row, atEnd, |row|, true) && RRcount == Count(row, atEnd, |row|, false)
  {
    hide Sorted, Plain, FateOf, ShiftReduce, SettledAt, IsGroup, PairAt;
    SRcount, RRcount, r := 0, 0, row;
    var p := 0;
    while p < |r|
      invariant 0 <= p <= |row| && SettledUpTo(row, r, atEnd, p)
      invariant 0 < p < |row| ==> row[p - 1].symbol != row[p].symbol
      invariant SRcount == Count(row, atEnd, p, true) && RRcount == Count(row, atEnd, p, false)
    {
      var symbol := r[p].symbol;
      var q := GroupEnd(r, p, row, atEnd);
      GroupBounds(row, p, q);
      GroupCounted(row, p, q, atEnd);
      if atEnd && symbol == END {
        r, SRcount := EndConflicts(row, r, p, q, SRcount);
      } else if p != q {
        r, SRcount, RRcount := ResolveConflicts(row, r, p, q, atEnd, SRcount, RRcount);
      } else {
        SettleAlone(row, r, atEnd, p);
      }
      p := q + 1;
    }
  }

  lemma SettleAlone(before: seq<Action>, row: seq<Action>, atEnd: bool, p: nat)
    requires Sorted(before) && IsGroup(before, p, p) && SettledUpTo(before, row, atEnd, p)
    requires !(atEnd && before[p].symbol == END)
    ensures SettledUpTo(before, row, atEnd, p + 1)
  {
    hide FateOf, Sorted;
    SettleAt(before, row, atEnd, p, p, p);
  }

  /** What settling a group adds to the two counts. */
  lemma GroupCounted(row: seq<Action>, first: nat, last: nat, atEnd: bool)
    requires Sorted(row) && Plain(row) && IsGroup(row, first, last)
    ensures last + 1 < |row| ==> row[last].symbol != row[last + 1].symbol
    ensures var sr := Count(row, atEnd, last + 1, true) - Count(row, atEnd, first, true);
      var rr := Count(row, atEnd, last + 1, false) - Count(row, atEnd, first, false);
      if atEnd && row[first].symbol == END then sr == last + 1 - first && rr == 0
      else if first == last || PairAt(row, first, last) then sr == rr == 0
      else if row[first].code == SHIFT then sr == last - first && rr == 0
      else sr == 0 && rr == last - first
  {
    hide Sorted, Plain, FateOf, ShiftReduce, PairFate, Count;
    if atEnd && row[first].symbol == END {
      assert forall k :: first <= k <= last ==> FateOf(row, row[k], atEnd) == Conflicting by { FatesAtEnd(row); }
      assert forall k :: first <= k <= last ==> ShiftReduce(row, row[k], atEnd) by { FatesAtEnd(row); }
      CountGroup(row, atEnd, first, last + 1, 0, true);
    } else {
      forall k | first <= k <= last
        ensures ShiftReduce(row, row[k], atEnd) == (row[first].code == SHIFT)
        ensures FateOf(row, row[k], atEnd) == FateOf(row, row[k], false)
      {
        GroupKind(row, first, last, k, atEnd);
        FateAwayFromEnd(row, row[k], atEnd);
      }
      if PairAt(row, first, last) {
        GroupOfPair(row, first, last);
        PairNeverConflicts(row[first], row[last]);
        CountGroup(row, atEnd, first, last + 1, 2, row[first].code == SHIFT);
      } else {
        forall k | first <= k <= last ensures FateOf(row, row[k], atEnd) == Conflicting <==> first + 1 <= k {
          GroupOfConflict(row, first, last, k);
        }
        CountGroup(row, atEnd, first, last + 1, 1, row[first].code == SHIFT);
      }
    }
  }

  lemma FatesAtEnd(row: seq<Action>)
    ensures forall x: Action :: x.symbol == END ==> FateOf(row, x, true) == Conflicting && ShiftReduce(row, x, true)
  {
  }

  lemma PairNeverConflicts(s: Action, r: Action)
    ensures PairFate(s, r, s) != Conflicting && PairFate(s, r, r) != Conflicting
  {
  }

  /** How many of the first n actions carry suppressed == 1. */
  ghost function Ones(row: seq<Action>, n: nat): nat
    requires n <= |row|
  {
    if n == 0 then 0 else Ones(row, n - 1) + if row[n - 1].suppressed == 1 then 1 else 0
  }

  lemma {:induction false} OnesAreCounted(before: seq<Action>, after: seq<Action>, atEnd: bool, n: nat)
    requires Plain(before) && IsSettled(before, after, atEnd) && n <= |before|
    ensures Ones(after, n) == Count(before, atEnd, n, true) + Count(before, atEnd, n, false)
  {
    hide FateOf, ShiftReduce;
    if n > 0 {
      OnesAreCounted(before, after, atEnd, n - 1);
      assert SettledAt(before, after, atEnd, n - 1);
    }
  }

  ghost function TotalOnes(rows: seq<seq<Action>>): nat {
    if rows == [] then 0 else TotalOnes(rows[..|rows| - 1]) + Ones(rows[|rows| - 1], |rows[|rows| - 1]|)
  }

  ghost function Total(counts: seq<nat>): nat {
    if counts == [] then 0 else Total(counts[..|counts| - 1]) + counts[|counts| - 1]
  }

  /** SRtotal and RRtotal together count exactly the actions marked suppressed == 1. */
  method RemoveConflicts(parser: array<seq<Action>>, finalState: nat)
    returns (SRconflicts: array<nat>, RRconflicts: array<nat>, SRtotal: nat, RRtotal: nat)
    requires forall i :: 0 <= i < parser.Length ==> Sorted(parser[i]) && Plain(parser[i])
    modifies parser
    ensures forall i :: 0 <= i < parser.Length ==> IsSettled(old(parser[i]), parser[i], i == finalState)
    ensures fresh(SRconflicts) && fresh(RRconflicts) && SRconflicts.Length == RRconflicts.Length == parser.Length
    ensures forall i :: 0 <= i < parser.Length ==>
      SRconflicts[i] == Count(old(parser[i]), i == finalState, |old(parser[i])|, true) &&
      RRconflicts[i] == Count(old(parser[i]), i == finalState, |old(parser[i])|, false)
    ensures SRtotal == Total(SRconflicts[..]) && RRtotal == Total(RRconflicts[..])
    ensures SRtotal + RRtotal == TotalOnes(parser[..])
  {
    hide Sorted, Plain, IsSettled, Count, Ones;
    hide Total, TotalOnes;
    SRtotal, RRtotal := 0, 0;
    var nstates := parser.Length;
    SRconflicts, RRconflicts := new nat[nstates], new nat[nstates];
    ghost var before := parser[..];
    NoTotals(SRconflicts[..0], RRconflicts[..0], parser[..0]);
    for i := 0 to nstates
      invariant forall k :: i <= k < nstates ==> parser[k] == before[k]
      invariant forall k :: 0 <= k < i ==> IsSettled(before[k], parser[k], k == finalState)
      invariant forall k :: 0 <= k < i ==>
        SRconflicts[k] == Count(before[k], k == finalState, |before[k]|, true) &&
        RRconflicts[k] == Count(before[k], k == finalState, |before[k]|, false)
      invariant SRtotal == Total(SRconflicts[..i]) && RRtotal == Total(RRconflicts[..i])
      invariant SRtotal + RRtotal == TotalOnes(parser[..i])
    {
      var row, SRcount, RRcount := SettleRow(parser[i], i == finalState);
      RowOnes(parser[i], row, i == finalState);
      SRtotal, RRtotal := SRtotal + SRcount, RRtotal + RRcount;
      parser[i], SRconflicts[i], RRconflicts[i] := row, SRcount, RRcount;
      assert parser[..i + 1] == parser[..i] + [row];
      assert SRconflicts[..i + 1] == SRconflicts[..i] + [SRcount] &&
        RRconflicts[..i + 1] == RRconflicts[..i] + [RRcount];
      NextTotals(SRconflicts[..i], SRcount, RRconflicts[..i], RRcount, parser[..i], row);
    }
    assert parser[..nstates] == parser[..] && SRconflicts[..nstates] == SRconflicts[..] &&
      RRconflicts[..nstates] == RRconflicts[..];
  }

  lemma NoTotals(sr: seq<nat>, rr: seq<nat>, rows: seq<seq<Action>>)
    requires |sr| == |rr| == |rows| == 0
    ensures Total(sr) == Total(rr) == TotalOnes(rows) == 0
  {
  }

  lemma NextTotals(sr: seq<nat>, s: nat, rr: seq<nat>, r: nat, rows: seq<seq<Action>>, row: seq<Action>)
    ensures Total(sr + [s]) == Total(sr) + s && Total(rr + [r]) == Total(rr) + r
    ensures TotalOnes(rows + [row]) == TotalOnes(rows) + Ones(row, |row|)
  {
    assert (sr + [s])[..|sr|] == sr && (rr + [r])[..|rr|] == rr && (rows + [row])[..|rows|] == rows;
  }

  lemma RowOnes(before: seq<Action>, after: seq<Action>, atEnd: bool)
    requires Plain(before) && IsSettled(before, after, atEnd)
    ensures Ones(after, |after|) == Count(before, atEnd, |before|, true) + Count(before, atEnd, |before|, false)
  {
    OnesAreCounted(before, after, atEnd, |before|);
  }

  // ---------- What the row holds afterwards ----------

  /** The shift at i and the reduction at j are the only actions on their token. */
  ghost predicate AlonePair(row: seq<Action>, i: nat, j: nat)
    requires i < |row| && j < |row|
  {
    && row[i].code == SHIFT && row[j].code == REDUCE && row[i].symbol == row[j].symbol
    && forall k :: 0 <= k < |row| && row[k].symbol == row[i].symbol ==> k == i || k == j
  }

  /** Precedence decides between such a pair: the higher one stays. On a tie the reduction stays
      with a left associative token (1), the shift with a right associative one (2), and with any
      other neither, both becoming errors. */
  lemma PrecedenceRemoves(before: seq<Action>, after: seq<Action>, atEnd: bool, i: nat, j: nat)
    requires IsSettled(before, after, atEnd) && Plain(before) && i < |before| && j < |before|
    requires AlonePair(before, i, j) && before[i].prec > 0 && before[j].prec > 0
    requires !(atEnd && before[i].symbol == 0)
    ensures var s, r := before[i], before[j];
      && (after[i].suppressed == 0 <==> s.prec > r.prec || (s.prec == r.prec && s.assoc == 2))
      && (after[j].suppressed == 0 <==> s.prec < r.prec || (s.prec == r.prec && s.assoc == 1))
      && (after[i].code == ERROR <==> s.prec == r.prec && s.assoc != 1 && s.assoc != 2)
      && (after[j].code == ERROR <==> s.prec == r.prec && s.assoc != 1 && s.assoc != 2)
      && after[i].(suppressed := 0, code := SHIFT) == s && after[j].(suppressed := 0, code := REDUCE) == r
    ensures after[i].suppressed in {0, 2} && after[j].suppressed in {0, 2}
    ensures after[i].code in {SHIFT, ERROR} && after[j].code in {REDUCE, ERROR}
  {
    hide FateOf;
    assert Resolvable(before, before[i], before[j]) by {
      assert before[i] in before && before[j] in before;
    }
    FateOfPair(before, before[i], before[j]);
    FateAwayFromEnd(before, before[i], atEnd);
    FateAwayFromEnd(before, before[j], atEnd);
    assert SettledAt(before, after, atEnd, i) && SettledAt(before, after, atEnd, j);
  }

  /** Precedence has no say about the action at k. */
  ghost predicate NoPrecedence(row: seq<Action>, k: nat)
    requires k < |row|
  {
    forall i: nat, j: nat :: i < |row| && j < |row| && (k == i || k == j) && AlonePair(row, i, j) ==>
      row[i].prec <= 0 || row[j].prec <= 0
  }

  /** The action at k is the shift of its token, or there is none and it has the lowest rule. */
  ghost predicate Favourite(row: seq<Action>, k: nat)
    requires k < |row|
  {
    || row[k].code == SHIFT
    || forall l :: 0 <= l < |row| && row[l].symbol == row[k].symbol ==>
        row[l].code == REDUCE && row[k].number <= row[l].number
  }

  /** Where precedence has no say, the shift is left alone, or else the reduction by the lowest
      rule, and every other action on the token is marked as a conflict. */
  lemma DefaultRemoves(before: seq<Action>, after: seq<Action>, atEnd: bool, k: nat)
    requires IsSettled(before, after, atEnd) && Sorted(before) && Plain(before) && k < |before|
    requires NoPrecedence(before, k) && !(atEnd && before[k].symbol == 0)
    ensures after[k] == if Favourite(before, k) then before[k] else before[k].(suppressed := 1)
  {
    hide FateOf;
    var x := before[k];
    forall y ensures !Contested(before, x, y) {
      if Contested(before, x, y) {
        var l: nat :| l < |before| && before[l] == y;
        ContestIsPair(before, k, l);
        assert false;
      }
    }
    FateUncontested(before, x, atEnd);
    FavouriteIsFirst(before, k);
    assert SettledAt(before, after, atEnd, k);
  }

  lemma ContestIsPair(row: seq<Action>, k: nat, l: nat)
    requires Sorted(row) && k < |row| && l < |row| && Contested(row, row[k], row[l])
    ensures (AlonePair(row, k, l) || AlonePair(row, l, k)) && row[k].prec > 0 && row[l].prec > 0
  {
    hide Precedes, Sorted;
    forall i: nat | i < |row| && row[i].symbol == row[k].symbol ensures i == k || i == l {
      assert row[i] in row;
      if row[i] == row[k] {
        DistinctAt(row, i, k);
      } else {
        DistinctAt(row, i, l);
      }
    }
  }

  lemma FateUncontested(row: seq<Action>, x: Action, atEnd: bool)
    requires (forall y :: !Contested(row, x, y)) && !(atEnd && x.symbol == END)
    ensures FateOf(row, x, atEnd) == if First(row, x) then Kept else Conflicting
  {
  }

  lemma FavouriteIsFirst(row: seq<Action>, k: nat)
    requires Sorted(row) && Plain(row) && k < |row|
    ensures Favourite(row, k) <==> First(row, row[k])
  {
    var x := row[k];
    if First(row, x) && x.code != SHIFT {
      forall l: nat | l < |row| && row[l].symbol == x.symbol
        ensures row[l].code == REDUCE && x.number <= row[l].number
      {
        assert row[l] in row && (row[l] == x || Precedes(x, row[l]));
      }
    }
    if Favourite(row, k) {
      forall y | y in row && y.symbol == x.symbol && y != x ensures Precedes(x, y) {
        var l: nat :| l < |row| && row[l] == y;
        assert l < k ==> Precedes(y, x);
        assert k < l ==> Precedes(x, y);
      }
    }
  }

  /** In the final state every action on $end, which is token 0, gives way to acceptance. */
  lemma AcceptanceRemoves(before: seq<Action>, after: seq<Action>, k: nat)
    requires IsSettled(before, after, true) && k < |before| && before[k].symbol == 0
    ensures after[k] == before[k].(suppressed := 1)
  {
    FatesAtEnd(before);
    assert SettledAt(before, after, true, k);
  }

  // ---------- find_final_state ----------

  /** The successor of the start state on the goal. */
  method FindFinalState(g: Grammar, a: Automaton) returns (finalState: nat)
    requires Valid(g) && IsAutomaton(g, a)
    ensures Edge(a, 0, Goal(g), finalState)
  {
    hide IsAutomaton;
    AutomatonSizes(g, a);
    var toState, goal := a.shifts[0], g.ritem[1];
    ghost var p := StartEdge(g, a);
    ghost var j: nat :| j < |toState| && toState[j] == p;
    RowBound(g, a, 0);
    var i := |toState| - 1;
    finalState := toState[i];
    while a.states[finalState].symbol != goal
      invariant j <= i < |toState| && finalState == toState[i]
      decreases i
    {
      i := i - 1;
      finalState := toState[i];
    }
  }

  lemma RowBound(g: Grammar, a: Automaton, q: nat)
    requires Valid(g) && IsAutomaton(g, a) && q < |a.states|
    ensures |a.shifts| == |a.states| && forall j :: 0 <= j < |a.shifts[q]| ==> a.shifts[q][j] < |a.states|
  {
    assert RowOk(g, a.states, a.shifts[q], a.reductions[q], q);
    forall j | 0 <= j < |a.shifts[q]| ensures a.shifts[q][j] < |a.states| {
      assert MoveOk(g, a.states, ItemsOf(g, a.states[q]), a.shifts[q][j]);
    }
  }

  // ---------- sole_reduction ----------

  /** Action k is a reduction that was not suppressed. */
  predicate Reduces(row: seq<Action>, k: nat) {
    k < |row| && row[k].code == REDUCE && row[k].suppressed == 0
  }

  predicate Shifts(row: seq<Action>, k: nat) {
    k < |row| && row[k].code == SHIFT && row[k].suppressed == 0
  }

  /** Nothing but reductions by rule r is left in the row, and not only on the error token. */
  ghost predicate IsSole(row: seq<Action>, r: nat) {
    && (forall k :: 0 <= k < |row| ==> !Shifts(row, k))
    && (forall k :: 0 <= k < |row| && Reduces(row, k) ==> row[k].number == r)
    && exists k :: 0 <= k < |row| && Reduces(row, k) && row[k].symbol != 1
  }

  /** A shift is left, or reductions by two rules. */
  ghost predicate MixedRow(row: seq<Action>) {
    || (exists k :: 0 <= k < |row| && Shifts(row, k))
    || exists j, k :: 0 <= j < k < |row| && Reduces(row, j) && Reduces(row, k) && row[j].number != row[k].number
  }

  method SoleReduction(row: seq<Action>) returns (ruleno: nat)
    requires forall k :: 0 <= k < |row| && row[k].code == REDUCE ==> row[k].number > 0
    ensures if ruleno > 0 then IsSole(row, ruleno) else forall r: nat :: !IsSole(row, r)
    ensures ruleno > 0 ==> forall k :: 0 <= k < |row| && row[k].suppressed == 0 ==>
      row[k].code != SHIFT && (row[k].code == REDUCE ==> row[k].number == ruleno)
    ensures ruleno > 0 ==> exists k :: 0 <= k < |row| && Reduces(row, k) && row[k].symbol != 1
    ensures ruleno == 0 ==> MixedRow(row) || forall k :: 0 <= k < |row| && Reduces(row, k) ==> row[k].symbol == 1
  {
    var count := 0;
    ruleno := 0;
    for p := 0 to |row|
      invariant forall k :: 0 <= k < p ==> !Shifts(row, k)
      invariant forall k :: 0 <= k < p && Reduces(row, k) ==> row[k].number == ruleno
      invariant ruleno > 0 <==> exists k :: 0 <= k < p && Reduces(row, k)
      invariant count > 0 <==> exists k :: 0 <= k < p && Reduces(row, k) && row[k].symbol != 1
      invariant count >= 0
    {
      if row[p].code == SHIFT && row[p].suppressed == 0 {
        assert Shifts(row, p);
        return 0;
      } else if row[p].code == REDUCE && row[p].suppressed == 0 {
        assert Reduces(row, p);
        if ruleno > 0 && row[p].number != ruleno {
          ghost var j :| 0 <= j < p && Reduces(row, j);
          assert row[j].number != row[p].number;
          return 0;
        }
        if row[p].symbol != 1 {
          count := count + 1;
        }
        ruleno := row[p].number;
      }
    }
    if count == 0 {
      return 0;
    }
    forall k | 0 <= k < |row| && row[k].suppressed == 0
      ensures row[k].code != SHIFT && (row[k].code == REDUCE ==> row[k].number == ruleno)
    {
      assert !Shifts(row, k) && (Reduces(row, k) ==> row[k].number == ruleno);
    }
  }
}
