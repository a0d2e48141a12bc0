/** How long the table of byacc/output.c gets while bases are tried, and where the limit on its size
    is met. */
module TableGrowth {

  const MAXTABLE := 32500

  /** The length to which the table is brought for cell c; lengths are multiples of 200. */
  function LengthFor(c: nat): nat {
    (c / 200 + 1) * 200
  }

  /** Not all cells up to c are taken: c is not below lowzero. */
  ghost predicate IsAbove(taken: iset<int>, c: int) {
    exists z :: 0 <= z <= c && z !in taken
  }

  /** Base j is among those tried, provided that none before it is usable. */
  ghost predicate IsTried(taken: iset<int>, from: seq<nat>, j: int) {
    j != 0 && forall d :: 0 <= d < |from| ==> IsAbove(taken, j + from[d])
  }

  /** With base j entry e is looked at: the cells of the entries before it are free. */
  ghost predicate LooksAt(taken: iset<int>, from: seq<nat>, j: int, e: nat) {
    e < |from| && IsTried(taken, from, j) && forall d :: 0 <= d < e ==> j + from[d] !in taken
  }

  /** What comes first: entry d with base i, or entry e with base j. */
  predicate Earlier(i: int, d: nat, j: int, e: nat) {
    i < j || (i == j && d < e)
  }

  /** Entry d with base i, looked at before entry e with base j, brings the table to length l. */
  ghost predicate Demands(taken: iset<int>, from: seq<nat>, j: int, e: nat, i: int, d: nat, l: nat) {
    Earlier(i, d, j, e) && LooksAt(taken, from, i, d) && 0 <= i + from[d] < MAXTABLE && l == LengthFor(i + from[d])
  }

  /** The table, len long at first, is `now` long before entry e with base j is looked at. */
  ghost predicate Grows(taken: iset<int>, from: seq<nat>, len: nat, j: int, e: nat, now: nat) {
    && len <= now
    && (forall i, d: nat, l: nat :: Demands(taken, from, j, e, i, d, l) ==> l <= now)
    && (now == len || exists i, d: nat :: Demands(taken, from, j, e, i, d, now))
  }

  /** Entry e with base j comes to lie at MAXTABLE or beyond, outside the table as it is then. */
  ghost predicate MeetsLimit(taken: iset<int>, from: seq<nat>, len: nat, j: int, e: nat) {
    && LooksAt(taken, from, j, e) && j + from[e] >= MAXTABLE
    && exists now :: Grows(taken, from, len, j, e, now) && j + from[e] >= now
  }

  /** None of the bases below j meets the limit. */
  ghost predicate NoLimit(taken: iset<int>, from: seq<nat>, len: nat, j: int) {
    forall i, e :: i < j ==> !MeetsLimit(taken, from, len, i, e)
  }

  lemma GrowsUnique(taken: iset<int>, from: seq<nat>, len: nat, j: int, e: nat, x: nat, y: nat)
    requires Grows(taken, from, len, j, e, x) && Grows(taken, from, len, j, e, y)
    ensures x == y
  {
    hide Demands;
  }

  lemma GrowsInSteps(taken: iset<int>, from: seq<nat>, len: nat, j: int, e: nat, now: nat)
    requires Grows(taken, from, len, j, e, now) && len % 200 == 0
    ensures now % 200 == 0
  {
    hide LooksAt;
  }

  /** Looking at entry e, in cell c. */
  lemma GrowsNext(taken: iset<int>, from: seq<nat>, len: nat, j: int, e: nat, c: nat, now: nat, next: nat)
    requires Grows(taken, from, len, j, e, now) && e < |from| && LooksAt(taken, from, j, e) && len % 200 == 0
    requires c == j + from[e]
    requires (c < now || c < MAXTABLE) && next == if c < now then now else LengthFor(c)
    ensures Grows(taken, from, len, j, e + 1, next) && !MeetsLimit(taken, from, len, j, e)
  {
    hide LooksAt;
    var n: nat := e + 1;
    GrowsInSteps(taken, from, len, j, e, now);
    assert c < now ==> LengthFor(c) <= now;
    assert c < LengthFor(c);
    forall i, d: nat, l: nat | Demands(taken, from, j, n, i, d, l) ensures l <= next {
      if !(i == j && d == e) {
        assert Demands(taken, from, j, e, i, d, l);
      }
    }
    if c < now {
      if i: int, d: nat :| Demands(taken, from, j, e, i, d, now) {
        assert Demands(taken, from, j, n, i, d, now);
      }
    } else {
      assert Demands(taken, from, j, n, j, e, next);
    }
    NotAtLimit(taken, from, len, j, e, now);
  }

  lemma NotAtLimit(taken: iset<int>, from: seq<nat>, len: nat, j: int, e: nat, now: nat)
    requires Grows(taken, from, len, j, e, now) && e < |from| && (j + from[e] < now || j + from[e] < MAXTABLE)
    ensures !MeetsLimit(taken, from, len, j, e)
  {
    hide LooksAt, Grows;
    if MeetsLimit(taken, from, len, j, e) {
      var x: nat :| Grows(taken, from, len, j, e, x) && j + from[e] >= x;
      GrowsUnique(taken, from, len, j, e, x, now);
    }
  }

  /** Nothing is looked at with base j from entry e on. */
  lemma GrowsPast(taken: iset<int>, from: seq<nat>, len: nat, j: int, e: nat, now: nat)
    requires Grows(taken, from, len, j, e, now) && forall d: nat :: d >= e ==> !LooksAt(taken, from, j, d)
    ensures Grows(taken, from, len, j + 1, 0, now)
  {
    hide LooksAt;
    var k := j + 1;
    forall i, d: nat, l: nat ensures Demands(taken, from, k, 0, i, d, l) <==> Demands(taken, from, j, e, i, d, l) {
      if i == j && d >= e {
        assert !LooksAt(taken, from, j, d);
      }
    }
  }

  /** Below the first base tried nothing is looked at. */
  lemma NothingTried(taken: iset<int>, from: seq<nat>, len: nat, j: int)
    requires forall i :: i < j ==> !IsTried(taken, from, i)
    ensures Grows(taken, from, len, j, 0, len) && NoLimit(taken, from, len, j)
  {
    forall i, e: nat | i < j ensures !LooksAt(taken, from, i, e) {
      assert !IsTried(taken, from, i);
    }
  }
}
