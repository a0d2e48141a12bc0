/** pack_table of byacc/output.c: all vectors laid over each other in one table, so that the
    base of a vector and a key tell whether, and where, the vector has an entry. */
module Packing {
  import opened Sequences
  import opened Vectors
  import opened Placement
  import opened TableGrowth

  // ---------- What a packed table means ----------

  /** The driver's probe of the table at a base with a key. */
  predicate Probe(table: seq<nat>, check: seq<int>, high: nat, base: int, s: int) {
    base != 0 && 0 <= base + s <= high && high < |check| == |table| && check[base + s] == s
  }

  ghost predicate Same(x: Vector, y: Vector) {
    x.from == y.from && x.to == y.to
  }

  ghost predicate CellHolds(table: seq<nat>, check: seq<int>, high: nat, base: int, s: int, v: nat) {
    0 <= base + s <= high && base + s < |check| == |table| && check[base + s] == s && table[base + s] == v
  }

  /** Every entry of x is in its place above base. */
  ghost predicate Holds(table: seq<nat>, check: seq<int>, high: nat, base: int, x: Vector) {
    |x.from| == |x.to| && forall e :: 0 <= e < |x.from| ==> CellHolds(table, check, high, base, x.from[e], x.to[e])
  }

  /** Key s in cell c belongs to one of the first n vectors. */
  ghost predicate Owned(vectors: seq<Vector>, order: seq<nat>, pos: seq<int>, n: nat, c: nat, s: int) {
    exists k :: 0 <= k < n && k < |pos| && k < |order| && OwnedBy(vectors, order, pos, k, c, s)
  }

  ghost predicate OwnedBy(vectors: seq<Vector>, order: seq<nat>, pos: seq<int>, k: nat, c: nat, s: int)
    requires k < |pos| && k < |order|
  {
    order[k] < |vectors| && pos[k] + s == c && exists e ::
      0 <= e < |vectors[order[k]].from| && vectors[order[k]].from[e] == s
  }

  ghost predicate CellOk(vectors: seq<Vector>, order: seq<nat>, pos: seq<int>, n: nat, check: seq<int>, high: nat,
                         c: nat)
    requires c < |check|
  {
    check[c] == -1 || (check[c] >= 0 && c <= high && Owned(vectors, order, pos, n, c, check[c]))
  }

  ghost predicate VectorPacked(vectors: seq<Vector>, order: seq<nat>, pos: seq<int>, table: seq<nat>, check: seq<int>,
                               high: nat, k: nat)
    requires k < |order| && k < |pos| && order[k] < |vectors|
  {
    pos[k] != 0 && Holds(table, check, high, pos[k], vectors[order[k]])
  }

  /** The first n vectors are packed: each is in place, nothing else is in the table, and only
      equal vectors have the same base. */
  ghost predicate Packed(vectors: seq<Vector>, order: seq<nat>, pos: seq<int>, table: seq<nat>, check: seq<int>,
                         high: nat, n: nat)
    requires OrderFits(vectors, order)
  {
    && |table| == |check| && high < |check| && n <= |pos| && n <= |order|
    && (forall k :: 0 <= k < n ==> VectorPacked(vectors, order, pos, table, check, high, k))
    && (forall c :: 0 <= c < |check| ==> CellOk(vectors, order, pos, n, check, high, c))
    && forall j, k :: 0 <= j < k < n && pos[j] == pos[k] ==> Same(vectors[order[j]], vectors[order[k]])
  }

  /** Probing the packed table finds exactly the entries of the vector. */
  lemma PackedProbe(vectors: seq<Vector>, order: seq<nat>, pos: seq<int>, table: seq<nat>, check: seq<int>, high: nat,
                    k: nat, s: int, v: int)
    requires OrderFits(vectors, order) && Packed(vectors, order, pos, table, check, high, |order|)
    requires k < |order| && s >= 0
    ensures Probe(table, check, high, pos[k], s) && table[pos[k] + s] == v <==>
      Pairs(vectors[order[k]].from, vectors[order[k]].to, s, v)
  {
    var x := vectors[order[k]];
    assert VectorPacked(vectors, order, pos, table, check, high, k);
    if Pairs(x.from, x.to, s, v) {
      var e :| 0 <= e < |x.from| && e < |x.to| && x.from[e] == s && x.to[e] == v;
      assert CellHolds(table, check, high, pos[k], x.from[e], x.to[e]);
    }
    if Probe(table, check, high, pos[k], s) && table[pos[k] + s] == v {
      var c := pos[k] + s;
      assert CellOk(vectors, order, pos, |order|, check, high, c);
      var j: nat :| j < |order| && OwnedBy(vectors, order, pos, j, c, s);
      assert pos[j] == pos[k];
      assert Same(vectors[order[j]], x) by { SameBase(vectors, order, pos, table, check, high, j, k); }
      var e :| 0 <= e < |x.from| && x.from[e] == s;
      assert CellHolds(table, check, high, pos[k], x.from[e], x.to[e]);
    }
  }

  lemma SameBase(vectors: seq<Vector>, order: seq<nat>, pos: seq<int>, table: seq<nat>, check: seq<int>, high: nat,
                 j: nat, k: nat)
    requires OrderFits(vectors, order) && Packed(vectors, order, pos, table, check, high, |order|)
    requires j < |order| && k < |order| && pos[j] == pos[k]
    ensures Same(vectors[order[j]], vectors[order[k]])
  {
  }

  // ---------- Steps that keep the table packed ----------

  ghost function Repeat<T>(x: T, n: nat): seq<T> {
    seq(n, _ => x)
  }

  lemma PackedGrows(vectors: seq<Vector>, order: seq<nat>, pos: seq<int>, table: seq<nat>, check: seq<int>, high: nat,
                    n: nat, d: nat)
    requires OrderFits(vectors, order) && Packed(vectors, order, pos, table, check, high, n)
    ensures Packed(vectors, order, pos, table + Repeat(0, d), check + Repeat(-1, d), high, n)
  {
    hide Owned, Pairs;
    var table', check' := table + Repeat(0, d), check + Repeat(-1, d);
    forall k | 0 <= k < n ensures VectorPacked(vectors, order, pos, table', check', high, k) {
      assert VectorPacked(vectors, order, pos, table, check, high, k);
      var x := vectors[order[k]];
      forall e | 0 <= e < |x.from| ensures CellHolds(table', check', high, pos[k], x.from[e], x.to[e]) {
        assert CellHolds(table, check, high, pos[k], x.from[e], x.to[e]);
      }
    }
    forall c | 0 <= c < |check'| ensures CellOk(vectors, order, pos, n, check', high, c) {
      if c < |check| {
        assert CellOk(vectors, order, pos, n, check, high, c);
      }
    }
  }

  /** An equal vector takes over the base of an earlier one. */
  lemma PackedShared(vectors: seq<Vector>, order: seq<nat>, pos: seq<int>, table: seq<nat>, check: seq<int>, high: nat,
                     n: nat, j: nat)
    requires OrderFits(vectors, order) && Packed(vectors, order, pos, table, check, high, n)
    requires j < n < |order| && n < |pos| && Same(vectors[order[j]], vectors[order[n]])
    ensures Packed(vectors, order, pos[n := pos[j]], table, check, high, n + 1)
  {
    var pos', m := pos[n := pos[j]], n + 1;
    forall k | 0 <= k < n + 1 ensures VectorPacked(vectors, order, pos', table, check, high, k) {
      assert VectorPacked(vectors, order, pos, table, check, high, if k < n then k else j);
    }
    forall c | 0 <= c < |check| ensures CellOk(vectors, order, pos', m, check, high, c) {
      assert CellOk(vectors, order, pos, n, check, high, c);
      if check[c] != -1 {
        OwnedStays(vectors, order, pos, n, c, check[c], pos[j]);
      }
    }
    forall i, k | 0 <= i < k < n + 1 && pos'[i] == pos'[k] ensures Same(vectors[order[i]], vectors[order[k]]) {
      if k == n && i != j {
        if i < j {
          assert Same(vectors[order[i]], vectors[order[j]]);
        } else {
          assert Same(vectors[order[j]], vectors[order[i]]);
        }
      }
    }
  }

  lemma OwnedStays(vectors: seq<Vector>, order: seq<nat>, pos: seq<int>, n: nat, c: nat, s: int, p: int)
    requires n < |pos| && n < |order| && Owned(vectors, order, pos, n, c, s)
    ensures Owned(vectors, order, pos[n := p], n + 1, c, s)
  {
    var k :| 0 <= k < n && k < |pos| && k < |order| && OwnedBy(vectors, order, pos, k, c, s);
    assert OwnedBy(vectors, order, pos[n := p], k, c, s);
  }

  /** All cells of the keys above base j are free; cells past the end of the table count as free. */
  predicate Fits(check: seq<int>, keys: seq<nat>, j: int) {
    forall e :: 0 <= e < |keys| ==> 0 <= j + keys[e] && (j + keys[e] < |check| ==> check[j + keys[e]] == -1)
  }

  /** j may serve as base for the next vector. */
  ghost predicate Usable(check: seq<int>, pos: seq<int>, n: nat, keys: seq<nat>, j: int)
    requires n <= |pos|
  {
    j != 0 && Fits(check, keys, j) && forall k :: 0 <= k < n ==> pos[k] != j
  }

  ghost predicate NoneUsableBelow(check: seq<int>, pos: seq<int>, n: nat, keys: seq<nat>, j: int)
    requires n <= |pos|
  {
    forall i :: Usable(check, pos, n, keys, i) ==> j <= i
  }

  /** The cells in use. */
  ghost function Marked(check: seq<int>): iset<int> {
    iset c: int | 0 <= c < |check| && check[c] != -1
  }

  /** table' and check' have the entries of x written above j, and are otherwise as before. */
  ghost predicate Written(table: seq<nat>, check: seq<int>, table': seq<nat>, check': seq<int>, j: int, x: Vector,
                          m: nat) {
    && |table| == |check| == |table'| == |check'| && m <= |x.from| == |x.to|
    && (forall e :: 0 <= e < m ==>
      0 <= j + x.from[e] < |check| && check'[j + x.from[e]] == x.from[e] && table'[j + x.from[e]] == x.to[e])
    && forall c :: 0 <= c < |check| ==> (check'[c] == check[c] && table'[c] == table[c]) || WrittenCell(x, j, m, c)
  }

  ghost predicate WrittenCell(x: Vector, j: int, m: nat, c: nat) {
    exists e :: 0 <= e < m && e < |x.from| && c == j + x.from[e]
  }

  lemma PackedPlaced(vectors: seq<Vector>, order: seq<nat>, pos: seq<int>, table: seq<nat>, check: seq<int>, high: nat,
                     n: nat, j: int,
                     table': seq<nat>, check': seq<int>, high': nat)
    requires OrderFits(vectors, order) && Packed(vectors, order, pos, table, check, high, n) && n < |order| && n < |pos|
    requires Usable(check, pos, n, vectors[order[n]].from, j)
    requires Written(table, check, table', check', j, vectors[order[n]], |vectors[order[n]].from|)
    requires high <= high' < |check|
    requires forall e :: 0 <= e < |vectors[order[n]].from| ==> j + vectors[order[n]].from[e] <= high'
    ensures Packed(vectors, order, pos[n := j], table', check', high', n + 1)
  {
    hide Owned, Written, Holds, Pairs;
    var pos', x, m := pos[n := j], vectors[order[n]], n + 1;
    forall k | 0 <= k < n + 1 ensures VectorPacked(vectors, order, pos', table', check', high', k) {
      if k < n {
        assert VectorPacked(vectors, order, pos, table, check, high, k);
        HeldStays(table, check, high, pos[k], vectors[order[k]], table', check', high', j, x);
      } else {
        NewlyHeld(table, check, table', check', high', j, x);
      }
    }
    WrittenLengths(table, check, table', check', j, x, |x.from|);
    forall c | 0 <= c < |check'| ensures CellOk(vectors, order, pos', m, check', high', c) {
      assert CellOk(vectors, order, pos, n, check, high, c);
      PlacedCell(vectors, order, pos, table, check, high, n, j, table', check', high', c);
    }
  }

  lemma WrittenLengths(table: seq<nat>, check: seq<int>, table': seq<nat>, check': seq<int>, j: int, x: Vector, m: nat)
    requires Written(table, check, table', check', j, x, m)
    ensures |table| == |check| == |table'| == |check'|
  {
  }

  lemma NewlyHeld(table: seq<nat>, check: seq<int>, table': seq<nat>, check': seq<int>, high': nat, j: int, x: Vector)
    requires Written(table, check, table', check', j, x, |x.from|) && high' < |check|
    requires forall e :: 0 <= e < |x.from| ==> j + x.from[e] <= high'
    ensures Holds(table', check', high', j, x)
  {
  }

  lemma HeldStays(table: seq<nat>, check: seq<int>, high: nat, base: int, y: Vector,
                  table': seq<nat>, check': seq<int>, high': nat, j: int, x: Vector)
    requires Holds(table, check, high, base, y) && Written(table, check, table', check', j, x, |x.from|)
    requires Fits(check, x.from, j) && high <= high'
    ensures Holds(table', check', high', base, y)
  {
    hide WrittenCell, Fits;
    forall e | 0 <= e < |y.from| ensures CellHolds(table', check', high', base, y.from[e], y.to[e]) {
      assert CellHolds(table, check, high, base, y.from[e], y.to[e]);
      var c: nat := base + y.from[e];
      NotWritten(check, x, j, c);
    }
  }

  lemma NotWritten(check: seq<int>, x: Vector, j: int, c: nat)
    requires Fits(check, x.from, j) && c < |check| && check[c] != -1
    ensures !WrittenCell(x, j, |x.from|, c)
  {
  }

  lemma PlacedCell(vectors: seq<Vector>, order: seq<nat>, pos: seq<int>, table: seq<nat>, check: seq<int>, high: nat,
                   n: nat, j: int,
                   table': seq<nat>, check': seq<int>, high': nat, c: nat)
    requires OrderFits(vectors, order) && n < |order| && n < |pos| && c < |check| && high <= high' < |check|
    requires CellOk(vectors, order, pos, n, check, high, c)
    requires Written(table, check, table', check', j, vectors[order[n]], |vectors[order[n]].from|)
    requires forall e :: 0 <= e < |vectors[order[n]].from| ==> j + vectors[order[n]].from[e] <= high'
    ensures CellOk(vectors, order, pos[n := j], n + 1, check', high', c)
  {
    var x := vectors[order[n]];
    if WrittenCell(x, j, |x.from|, c) {
      var e :| 0 <= e < |x.from| && c == j + x.from[e];
      assert check'[j + x.from[e]] == x.from[e];
      assert OwnedBy(vectors, order, pos[n := j], n, c, x.from[e]);
    } else if check[c] != -1 {
      OwnedStays(vectors, order, pos, n, c, check[c], j);
    }
  }

  // ---------- First fit ----------

  /** In a packed table the usable bases are the free ones. */
  lemma UsableIsFree(vectors: seq<Vector>, order: seq<nat>, pos: seq<int>, table: seq<nat>, check: seq<int>, high: nat,
                     n: nat, j: int)
    requires OrderFits(vectors, order) && Packed(vectors, order, pos, table, check, high, n) && n < |order|
    ensures Usable(check, pos, n, vectors[order[n]].from, j) <==> IsFree(vectors, order, pos, n, j)
  {
    hide Taken, Packed, OrderFits;
    PackedSize(vectors, order, pos, table, check, high, n);
    var x := vectors[order[n]].from;
    forall s | s in x && j + s >= 0
      ensures Taken(vectors, order, pos, n, j + s) <==> j + s < |check| && check[j + s] != -1
    {
      TakenIsMarked(vectors, order, pos, table, check, high, n, j + s);
    }
    assert forall e :: 0 <= e < |x| ==> x[e] in x;
  }

  lemma PackedSize(vectors: seq<Vector>, order: seq<nat>, pos: seq<int>, table: seq<nat>, check: seq<int>, high: nat,
                   n: nat)
    requires OrderFits(vectors, order) && Packed(vectors, order, pos, table, check, high, n)
    ensures n <= |pos| && n <= |order| && high < |check| == |table|
    ensures n < |order| ==> order[n] < |vectors|
  {
  }

  lemma TakenIsMarked(vectors: seq<Vector>, order: seq<nat>, pos: seq<int>, table: seq<nat>, check: seq<int>, high: nat,
                      n: nat, c: nat)
    requires OrderFits(vectors, order) && Packed(vectors, order, pos, table, check, high, n) && n <= |order|
    requires n <= |pos|
    ensures Taken(vectors, order, pos, n, c) <==> c < |check| && check[c] != -1
  {
    if Taken(vectors, order, pos, n, c) {
      var k :| 0 <= k < n && c - pos[k] in vectors[order[k]].from;
      var x := vectors[order[k]];
      var e :| 0 <= e < |x.from| && x.from[e] == c - pos[k];
      assert VectorPacked(vectors, order, pos, table, check, high, k);
      assert CellHolds(table, check, high, pos[k], x.from[e], x.to[e]);
    }
    if c < |check| && check[c] != -1 {
      assert CellOk(vectors, order, pos, n, check, high, c);
      var k :| 0 <= k < n && k < |pos| && k < |order| && OwnedBy(vectors, order, pos, k, c, check[c]);
      assert c - pos[k] in vectors[order[k]].from;
    }
  }

  lemma CellsAreMarked(vectors: seq<Vector>, order: seq<nat>, pos: seq<int>, table: seq<nat>,
                                          check: seq<int>, high: nat, n: nat)
    requires OrderFits(vectors, order) && Packed(vectors, order, pos, table, check, high, n) && n <= |order|
    requires n <= |pos|
    ensures Cells(vectors, order, pos, n) == Marked(check)
  {
    hide Taken, Packed, OrderFits;
    forall c ensures c in Cells(vectors, order, pos, n) <==> c in Marked(check) {
      if c >= 0 {
        TakenIsMarked(vectors, order, pos, table, check, high, n, c);
      } else {
        NoneBelowZero(vectors, order, pos, table, check, high, n, c);
      }
    }
  }

  lemma NoneBelowZero(vectors: seq<Vector>, order: seq<nat>, pos: seq<int>, table: seq<nat>, check: seq<int>, high: nat,
                      n: nat, c: int)
    requires OrderFits(vectors, order) && Packed(vectors, order, pos, table, check, high, n) && n <= |order|
    requires n <= |pos| && c < 0
    ensures !Taken(vectors, order, pos, n, c)
  {
    hide Packed;
    forall k | 0 <= k < n ensures c - pos[k] !in vectors[order[k]].from {
      KeysInTable(vectors, order, pos, table, check, high, n, k);
    }
  }

  lemma KeysInTable(vectors: seq<Vector>, order: seq<nat>, pos: seq<int>, table: seq<nat>, check: seq<int>, high: nat,
                    n: nat, k: nat)
    requires OrderFits(vectors, order) && Packed(vectors, order, pos, table, check, high, n) && k < n <= |order|
    requires n <= |pos|
    ensures forall s :: s in vectors[order[k]].from ==> pos[k] + s >= 0
  {
    var x := vectors[order[k]];
    forall s | s in x.from ensures pos[k] + s >= 0 {
      var e :| 0 <= e < |x.from| && x.from[e] == s;
      assert VectorPacked(vectors, order, pos, table, check, high, k);
      assert CellHolds(table, check, high, pos[k], x.from[e], x.to[e]);
    }
  }

  /** The search in the table, put in terms of what is packed. */
  lemma GivesUpExactly(vectors: seq<Vector>, order: seq<nat>, pos: seq<int>, table: seq<nat>, check: seq<int>,
                       high: nat, n: nat, len: nat)
    requires OrderFits(vectors, order) && Packed(vectors, order, pos, table, check, high, n) && n < |order|
    requires n <= |pos|
    requires order[n] < |vectors|
    ensures GivesUp(vectors, order, pos, n, len) <==>
      exists j, e :: MeetsLimit(Marked(check), vectors[order[n]].from, len, j, e) &&
        NoneUsableBelow(check, pos, n, vectors[order[n]].from, j)
  {
    hide IsFree, Usable, Packed, OrderFits, Cells, Marked, MeetsLimit;
    CellsAreMarked(vectors, order, pos, table, check, high, n);
    forall j
      ensures NoneFreeBelow(vectors, order, pos, n, j) <==> NoneUsableBelow(check, pos, n, vectors[order[n]].from, j)
    {
      forall i ensures Usable(check, pos, n, vectors[order[n]].from, i) <==> IsFree(vectors, order, pos, n, i) {
        UsableIsFree(vectors, order, pos, table, check, high, n, i);
      }
    }
  }

  lemma LeastIsPlaced(vectors: seq<Vector>, order: seq<nat>, nrows: nat, pos: seq<int>, table: seq<nat>,
                      check: seq<int>, high: nat, n: nat, place: int)
    requires OrderFits(vectors, order) && Packed(vectors, order, pos, table, check, high, n) && n < |order| && n < |pos|
    requires FirstFit(vectors, order, nrows, pos, n) && !HasTwin(vectors, order, nrows, n)
    requires order[n] < |vectors| && Usable(check, pos, n, vectors[order[n]].from, place)
    requires forall j :: Usable(check, pos, n, vectors[order[n]].from, j) ==> place <= j
    ensures FirstFit(vectors, order, nrows, pos[n := place], n + 1)
  {
    hide IsFree, Usable, Packed, HasTwin, OrderFits;
    var pos' := pos[n := place];
    assert pos'[..n] == pos[..n];
    forall j ensures IsFree(vectors, order, pos', n, j) <==> Usable(check, pos, n, vectors[order[n]].from, j) {
      UsableIsFree(vectors, order, pos, table, check, high, n, j);
      FreeSame(vectors, order, pos, pos', n, j);
    }
    assert IsPlaced(vectors, order, nrows, pos', n);
    PlacedStays(vectors, order, nrows, pos, place, n);
  }

  lemma PlacedStays(vectors: seq<Vector>, order: seq<nat>, nrows: nat, pos: seq<int>, place: int, n: nat)
    requires OrderFits(vectors, order) && n < |order| && n < |pos| && FirstFit(vectors, order, nrows, pos, n)
    ensures FirstFit(vectors, order, nrows, pos[n := place], n)
  {
    hide IsPlaced, OrderFits;
    var pos' := pos[n := place];
    forall k | 0 <= k < n ensures IsPlaced(vectors, order, nrows, pos', k) {
      assert pos'[..k + 1] == pos[..k + 1];
      PlacedSame(vectors, order, nrows, pos, pos', k);
    }
  }

  lemma TwinIsPlaced(vectors: seq<Vector>, order: seq<nat>, nrows: nat, pos: seq<int>, n: nat, m: nat)
    requires OrderFits(vectors, order) && n < |order| && n < |pos| && m < n && IsTwin(vectors, order, nrows, n, m)
    requires FirstFit(vectors, order, nrows, pos, n)
    ensures FirstFit(vectors, order, nrows, pos[n := pos[m]], n + 1)
  {
    hide IsTwin, OrderFits;
    var pos' := pos[n := pos[m]];
    assert HasTwin(vectors, order, nrows, n) && pos'[n] == pos'[m];
    PlacedStays(vectors, order, nrows, pos, pos[m], n);
    assert IsPlaced(vectors, order, nrows, pos', n);
  }

  lemma TwinIsSame(vectors: seq<Vector>, order: seq<nat>, nrows: nat, n: nat, m: nat)
    requires OrderFits(vectors, order) && n < |order| && m < n && IsTwin(vectors, order, nrows, n, m)
    ensures order[m] < |vectors| && order[n] < |vectors| && Same(vectors[order[m]], vectors[order[n]])
  {
  }

  // ---------- The packer ----------

  class Packer {
    const vectors: seq<Vector>
    const order: seq<nat>
    /** The vectors below nrows are rows, the others columns. */
    const nrows: nat
    var table: array<nat>
    var check: array<int>
    var base: array<int>
    var pos: array<int>
    var lowzero: nat
    var high: nat
    /** The lengths that the table had before each vector. */
    ghost var lens: seq<nat>

    /** The first n vectors are packed, and have their first-fit bases. */
    ghost predicate Steady(n: nat)
      reads this, table, check, base, pos
    {
      && ArraysApart(n) && Packed(vectors, order, pos[..], table[..], check[..], high, n)
      && FirstFit(vectors, order, nrows, pos[..], n)
    }

    /** The same between two vectors: the length of the table is what placing the vectors made it. */
    ghost predicate Valid(n: nat)
      reads this, table, check, base, pos
    {
      && Steady(n) && n <= |order| && n <= pos.Length && (lowzero < check.Length ==> check[lowzero] == -1)
      && AreLengths(vectors, order, nrows, pos[..], lens, n) && lens[n] == check.Length
      && NeverGaveUp(vectors, order, nrows, pos[..], lens, n)
    }

    /** What stays true of the arrays while the bookkeeping of a vector is not yet done. */
    ghost predicate ArraysApart(n: nat)
      reads this, table, check, base, pos
    {
      && base != check && base != pos && pos != check
      && base.Length == |vectors| && pos.Length == |order|
      && OrderFits(vectors, order) && NoRepeats(order) && n <= |order|
      && table.Length == check.Length && 1000 <= check.Length <= MAXTABLE + 200 && check.Length % 200 == 0
      && (forall k :: 0 <= k < n ==> base[order[k]] == pos[k])
      && (forall i :: 0 <= i < |vectors| && i !in order ==> base[i] == 0)
      && lowzero <= check.Length && forall c :: 0 <= c < lowzero ==> check[c] != -1
    }

    /** The first k vectors are packed, and at the next one the search gave up. */
    ghost predicate Stuck(k: nat)
      reads this, table, check, base, pos
    {
      Steady(k) && StuckAt(vectors, order, nrows, pos[..], lens, k)
    }

    constructor (vectors: seq<Vector>, order: seq<nat>, nrows: nat)
      requires OrderFits(vectors, order) && NoRepeats(order)
      ensures this.vectors == vectors && this.order == order && this.nrows == nrows
      ensures fresh(table) && fresh(check) && fresh(base) && fresh(pos)
      ensures Valid(0)
    {
      this.vectors, this.order, this.nrows := vectors, order, nrows;
      base := new int[|vectors|](_ => 0);
      pos := new int[|order|](_ => 0);
      table := new nat[1000](_ => 0);
      check := new int[1000](_ => -1);
      lowzero, high, lens := 0, 0, [1000];
    }

    /** An earlier vector equal to this row, or -1. Only vectors of the same width and tally
        need comparing, and the order puts them immediately before. */
    method MatchingVector(vector: nat) returns (state: int, ghost at: nat)
      requires OrderFits(vectors, order) && vector < |order| && Ranked(vectors, order)
      ensures state >= 0 ==> at < vector && order[at] == state && IsTwin(vectors, order, nrows, vector, at)
      ensures state < 0 ==> !HasTwin(vectors, order, nrows, vector)
    {
      at := 0;
      var i := order[vector];
      if i >= nrows {
        return -1, 0;
      }
      var t, w := vectors[i].tally, vectors[i].width;
      var prev: int := vector - 1;
      while prev >= 0
        invariant -1 <= prev < vector
        invariant forall k :: prev < k < vector ==> vectors[order[k]] != vectors[i]
      {
        var j := order[prev];
        if vectors[j].width != w || vectors[j].tally != t {
          forall k | 0 <= k < prev ensures vectors[order[k]] != vectors[i] {
            assert Outranks(vectors, order[k], order[prev]) && Outranks(vectors, order[prev], order[vector]);
          }
          return -1, 0;
        }
        var match' := EqualVectors(i, j);
        if match' {
          return j, prev;
        }
        prev := prev - 1;
      }
      return -1, 0;
    }

    method EqualVectors(i: nat, j: nat) returns (match': bool)
      requires i < |vectors| && j < |vectors| && vectors[i].tally == vectors[j].tally
      requires WellFormed(vectors[i]) && WellFormed(vectors[j])
      ensures match' <==> Same(vectors[i], vectors[j])
    {
      match' := true;
      var k := 0;
      while match' && k < vectors[i].tally
        invariant 0 <= k <= vectors[i].tally
        invariant match' ==> forall l :: 0 <= l < k ==>
          vectors[j].from[l] == vectors[i].from[l] && vectors[j].to[l] == vectors[i].to[l]
        invariant !match' ==> !Same(vectors[i], vectors[j])
      {
        if vectors[j].to[k] != vectors[i].to[k] || vectors[j].from[k] != vectors[i].from[k] {
          match' := false;
        }
        k := k + 1;
      }
    }

    /** Makes the table long enough for cell loc, in steps of 200. */
    method Grow(loc: nat, ghost n: nat)
      requires Steady(n) && check.Length <= loc < MAXTABLE
      modifies this`table, this`check
      ensures Steady(n) && fresh(table) && fresh(check) && loc < check.Length == LengthFor(loc)
      ensures Extends(old(check[..]), check[..])
    {
      hide Packed, OrderFits, Repeat;
      var newmax := check.Length + 200;
      while newmax <= loc
        invariant check.Length < newmax <= MAXTABLE + 200 && newmax % 200 == 0 && newmax - 200 <= loc
      {
        newmax := newmax + 200;
      }
      ghost var d: nat := newmax - check.Length;
      PackedGrows(vectors, order, pos[..], table[..], check[..], high, n, d);
      var oldTable, oldCheck := table, check;
      var newTable := new nat[newmax](i requires 0 <= i < newmax reads oldTable => if i < oldTable.Length then oldTable[i] else 0);
      var newCheck := new int[newmax](i requires 0 <= i < newmax reads oldCheck => if i < oldCheck.Length then oldCheck[i] else -1);
      table, check := newTable, newCheck;
      Lengthened(oldTable[..], table[..], 0, d);
      Lengthened(oldCheck[..], check[..], -1, d);
    }

    /** The inner loop of the search: can the vector's entries be laid down above base j? The
        table grows as cells past its end are looked at. `before` are the cells as they were when
        the search began. */
    method TryPlace(vector: nat, j: int, ghost before: seq<int>) returns (ok: bool, full: bool)
      requires Steady(vector) && vector < |order| && lowzero <= check.Length
      requires forall e :: 0 <= e < |vectors[order[vector]].from| ==> lowzero <= j + vectors[order[vector]].from[e]
      requires Extends(before, check[..]) && |before| % 200 == 0
      requires IsTried(Marked(before), vectors[order[vector]].from, j)
      requires Grows(Marked(before), vectors[order[vector]].from, |before|, j, 0, check.Length)
      modifies this`table, this`check
      ensures Steady(vector)
      ensures (table == old(table) || fresh(table)) && (check == old(check) || fresh(check))
      ensures Extends(before, check[..])
      ensures full ==> exists e: nat :: MeetsLimit(Marked(before), vectors[order[vector]].from, |before|, j, e)
      ensures !full ==> Grows(Marked(before), vectors[order[vector]].from, |before|, j + 1, 0, check.Length)
      ensures !full ==> forall e: nat :: !MeetsLimit(Marked(before), vectors[order[vector]].from, |before|, j, e)
      ensures !full ==> (ok <==> Fits(check[..], vectors[order[vector]].from, j))
      ensures !full ==> j + vectors[order[vector]].from[0] < MAXTABLE + 200
      ensures !full && ok ==> AllBelow(vectors[order[vector]].from, j, check.Length)
    {
      hide Packed, OrderFits, WellFormed, NoRepeats, Extends, Fits, FitsUpTo, AllBelow, Marked, Grows, MeetsLimit,
        LooksAt, IsTried, FirstFit, LengthFor;
      OrderFit(vectors, order, vector);
      ok, full := true, false;
      var from, t := vectors[order[vector]].from, vectors[order[vector]].tally;
      ghost var taken := Marked(before);
      var k := 0;
      FitsNone(check[..], from, j);
      while ok && k < t
        invariant 0 <= k <= t && Steady(vector) && (ok || k > 0)
        invariant (table == old(table) || fresh(table)) && (check == old(check) || fresh(check))
        invariant Extends(before, check[..]) && Grows(taken, from, |before|, j, k, check.Length)
        invariant forall e: nat :: e < k ==> !MeetsLimit(taken, from, |before|, j, e)
        invariant k > 0 ==> j + from[0] < check.Length
        invariant if ok then FitsUpTo(check[..], from, j, k) else !Fits(check[..], from, j) && j + from[k - 1] in taken
      {
        var loc := j + from[k];
        ghost var was := check[..];
        LooksNow(before, was, from, j, k);
        if loc >= check.Length {
          if loc >= MAXTABLE {
            AtLimit(taken, from, |before|, j, k, check.Length);
            return false, true;
          }
          Grow(loc, vector);
          ExtendsTrans(before, was, check[..]);
          ExtendsFits(was, check[..], from, j, k);
        }
        GrowsNext(taken, from, |before|, j, k, loc, |was|, check.Length);
        FitsNext(check[..], from, j, k);
        if check[loc] != -1 {
          ok := false;
          MarkedCell(before, check[..], loc);
        }
        k := k + 1;
      }
      LooksNoMore(taken, from, j, k);
      GrowsPast(taken, from, |before|, j, k, check.Length);
      NoLimitPast(taken, from, |before|, j, k);
      if ok {
        FitsAll(check[..], from, j);
      }
    }

    /** Whether base j is already taken. */
    method BaseTaken(vector: nat, j: int) returns (taken: bool)
      requires vector <= pos.Length
      ensures taken <==> exists k :: 0 <= k < vector && pos[k] == j
    {
      taken := false;
      var k := 0;
      while !taken && k < vector
        invariant 0 <= k <= vector
        invariant taken <==> exists l :: 0 <= l < k && pos[l] == j
      {
        if pos[k] == j {
          taken := true;
        }
        k := k + 1;
      }
    }

    /** The lowest base at which no entry comes to lie below lowzero. */
    method StartPlace(from: seq<nat>) returns (j: int)
      requires from != []
      ensures forall e :: 0 <= e < |from| ==> lowzero <= j + from[e]
      ensures exists e :: 0 <= e < |from| && lowzero == j + from[e]
    {
      j := lowzero - from[0];
      for k := 1 to |from|
        invariant forall e :: 0 <= e < k ==> lowzero <= j + from[e]
        invariant exists e :: 0 <= e < k && lowzero == j + from[e]
      {
        if lowzero - from[k] > j {
          j := lowzero - from[k];
        }
      }
    }

    /** Writes the entries of the vector above base j. */
    method Place(vector: nat, j: int)
      requires Steady(vector) && vector < |order|
      requires Usable(check[..], pos[..], vector, vectors[order[vector]].from, j)
      requires AllBelow(vectors[order[vector]].from, j, check.Length)
      modifies table, check, this`high
      ensures Packed(vectors, order, pos[..][vector := j], table[..], check[..], high, vector + 1)
      ensures forall c :: 0 <= c < check.Length && old(check[c]) != -1 ==> check[c] != -1
    {
      hide Packed, OrderFits, Written, Usable, WellFormed, NoRepeats;
      OrderFit(vectors, order, vector);
      PackedBounds(vectors, order, pos[..], table[..], check[..], high, vector);
      ghost var x, oldTable, oldCheck := vectors[order[vector]], table[..], check[..];
      var from, to, t := vectors[order[vector]].from, vectors[order[vector]].to, vectors[order[vector]].tally;
      assert Written(oldTable, oldCheck, table[..], check[..], j, x, 0) by { NothingWritten(oldTable, oldCheck, j, x); }
      for k := 0 to t
        invariant high < check.Length && old(high) <= high && forall e :: 0 <= e < k ==> j + from[e] <= high
        invariant Written(oldTable, oldCheck, table[..], check[..], j, x, k)
      {
        var loc := j + from[k];
        UsableCell(oldCheck, pos[..], vector, from, j, k);
        WrittenNext(oldTable, oldCheck, table[..], check[..], j, x, k);
        table[loc] := to[k];
        check[loc] := from[k];
        if loc > high {
          high := loc;
        }
      }
      WrittenKeeps(oldTable, oldCheck, table[..], check[..], j, x, t);
      PackedPlaced(vectors, order, pos[..], oldTable, oldCheck, old(high), vector, j, table[..], check[..], high);
    }

    /** Moves lowzero up to the first free cell. */
    method AdvanceLowzero()
      requires lowzero <= check.Length && forall c :: 0 <= c < lowzero ==> check[c] != -1
      modifies this`lowzero
      ensures lowzero <= check.Length && forall c :: 0 <= c < lowzero ==> check[c] != -1
      ensures lowzero < check.Length ==> check[lowzero] == -1
    {
      while lowzero < check.Length && check[lowzero] != -1
        invariant lowzero <= check.Length && forall c :: 0 <= c < lowzero ==> check[c] != -1
      {
        lowzero := lowzero + 1;
      }
    }

    /** The search for the least usable base. */
    method FindPlace(vector: nat) returns (ok: bool, place: int)
      requires Valid(vector) && vector < |order|
      modifies this`table, this`check
      ensures (table == old(table) || fresh(table)) && (check == old(check) || fresh(check))
      ensures Steady(vector) && NoneUsableBelow(old(check[..]), pos[..], vector, vectors[order[vector]].from, place)
      ensures ok ==> Usable(old(check[..]), pos[..], vector, vectors[order[vector]].from, place)
      ensures ok ==> Usable(check[..], pos[..], vector, vectors[order[vector]].from, place)
      ensures ok ==> AllBelow(vectors[order[vector]].from, place, check.Length)
      ensures ok ==> Grows(Marked(old(check[..])), vectors[order[vector]].from, old(check.Length), place + 1, 0, check.Length)
      ensures ok ==> NoLimit(Marked(old(check[..])), vectors[order[vector]].from, old(check.Length), place + 1)
      ensures !ok ==> exists e: nat ::
        MeetsLimit(Marked(old(check[..])), vectors[order[vector]].from, old(check.Length), place, e)
    {
      hide Packed, OrderFits, WellFormed, NoRepeats, Extends, Fits, AllBelow, Marked, Grows, MeetsLimit, IsTried,
        FirstFit, AreLengths, NeverGaveUp,
        NoneUsableBelow, NoLimit, Usable;
      OrderFit(vectors, order, vector);
      var from := vectors[order[vector]].from;
      ghost var before, bases := check[..], pos[..];
      ghost var taken, len := Marked(before), |before|;
      place := StartPlace(from);
      FitsNone(before, from, place);
      NothingLower(before, lowzero, pos[..], vector, from, place);
      StartIsFirst(before, lowzero, from, place);
      ok := false;
      while !ok
        invariant Steady(vector) && vector < |order| && pos[..] == bases
        invariant (table == old(table) || fresh(table)) && (check == old(check) || fresh(check))
        invariant Extends(before, check[..])
        invariant lowzero < |before| ==> before[lowzero] == -1
        invariant forall e :: 0 <= e < |from| ==> lowzero <= place + from[e]
        invariant NoneUsableBelow(before, bases, vector, from, place)
        invariant ok ==> Usable(before, bases, vector, from, place) && Usable(check[..], bases, vector, from, place)
        invariant ok ==> AllBelow(from, place, check.Length)
        invariant Grows(taken, from, len, if ok then place + 1 else place, 0, check.Length)
        invariant NoLimit(taken, from, len, if ok then place + 1 else place)
        decreases !ok, if place <= 0 then 1 else 0, MAXTABLE + 200 - (place + from[0])
      {
        var free := false;
        if place != 0 {
          var full;
          IsTriedNow(before, lowzero, from, place);
          free, full := TryPlace(vector, place, before);
          if full {
            return;
          }
          NoLimitHere(taken, from, len, place);
          if free {
            var used := BaseTaken(vector, place);
            ok := !used;
          }
        } else {
          ZeroIsPassed(taken, from, len, check.Length);
        }
        UsableHere(before, check[..], bases, vector, from, place, ok);
        if !ok {
          place := place + 1;
        }
      }
    }

    /** Places a vector above the least usable base, or gives up: exactly if an entry comes to lie at
        MAXTABLE or beyond, outside the table as it is then, with a base below which none is usable. */
    method PackVector(vector: nat) returns (ok: bool, place: int)
      requires Valid(vector) && vector < |order|
      modifies this`table, this`check, this`high, this`lowzero, table, check
      ensures (table == old(table) || fresh(table)) && (check == old(check) || fresh(check)) && ArraysApart(vector)
      ensures ok ==> Packed(vectors, order, pos[..][vector := place], table[..], check[..], high, vector + 1)
      ensures ok ==> Usable(old(check[..]), pos[..], vector, vectors[order[vector]].from, place)
      ensures NoneUsableBelow(old(check[..]), pos[..], vector, vectors[order[vector]].from, place)
      ensures ok ==> lowzero < check.Length ==> check[lowzero] == -1
      ensures ok ==> Grows(Marked(old(check[..])), vectors[order[vector]].from, old(check.Length), place + 1, 0, check.Length)
      ensures ok ==> NoLimit(Marked(old(check[..])), vectors[order[vector]].from, old(check.Length), place + 1)
      ensures !ok ==> Steady(vector)
      ensures !ok ==> exists e: nat ::
        MeetsLimit(Marked(old(check[..])), vectors[order[vector]].from, old(check.Length), place, e)
    {
      hide Packed, OrderFits, NoRepeats, AllBelow, Marked, Grows, MeetsLimit, FirstFit, AreLengths, NeverGaveUp,
        NoneUsableBelow, NoLimit, Usable;
      ok, place := FindPlace(vector);
      if ok {
        Place(vector, place);
        AdvanceLowzero();
      }
    }

    /** Packs all vectors; fails exactly when first fit comes to a vector at which it gives up. */
    method PackTable() returns (ok: bool)
      requires Valid(0) && Ranked(vectors, order)
      modifies this, table, check, base, pos
      ensures ok ==> Valid(|order|)
      ensures ok <==> !Overflows(vectors, order, nrows)
    {
      hide Packed, OrderFits, Ranked, NoRepeats, FirstFit, AreLengths, NeverGaveUp, Overflows, StuckAt;
      for i := 0 to |order|
        invariant Valid(i) && base == old(base) && pos == old(pos)
        invariant (table == old(table) || fresh(table)) && (check == old(check) || fresh(check))
      {
        ok := PackNext(i);
        if !ok {
          StuckIsOverflow(vectors, order, nrows, pos[..], lens, i);
          return;
        }
      }
      PlacedIsNoOverflow(vectors, order, nrows, pos[..], lens);
      ok := true;
    }

    /** One round of pack_table: the vector takes the base of an equal one, or a new one. */
    method PackNext(i: nat) returns (ok: bool)
      requires Valid(i) && Ranked(vectors, order) && i < |order|
      modifies this`table, this`check, this`high, this`lowzero, this`lens, table, check, base, pos
      ensures (table == old(table) || fresh(table)) && (check == old(check) || fresh(check))
      ensures ok ==> Valid(i + 1)
      ensures !ok ==> Stuck(i)
    {
      hide Packed, OrderFits, Ranked, NoRepeats, Usable, Fits, FirstFit, IsTwin, HasTwin, StuckAt, AreLengths,
        NeverGaveUp, Marked, Grows, MeetsLimit, GivesUp;
      ghost var before := pos[..];
      var state, at := MatchingVector(i);
      OrderFit(vectors, order, i);
      var place;
      if state < 0 {
        ghost var cells, entries, top := check[..], table[..], high;
        ok, place := PackVector(i);
        GivesUpExactly(vectors, order, before, entries, cells, top, i, |cells|);
        if !ok {
          IsStuck(vectors, order, nrows, pos[..], lens, i);
          return;
        }
        PlacedNotStuck(cells, before, i, vectors[order[i]].from, |cells|, place);
        CellsAreMarked(vectors, order, before, entries, cells, top, i);
        LeastIsPlaced(vectors, order, nrows, before, entries, cells, top, i, place);
        GrownIsLength(vectors, order, nrows, before, lens, i, place, check.Length);
      } else {
        OrderFit(vectors, order, at);
        place := base[state];
        TwinIsSame(vectors, order, nrows, i, at);
        PackedShared(vectors, order, pos[..], table[..], check[..], high, i, at);
        TwinIsPlaced(vectors, order, nrows, before, i, at);
        TwinKeepsLength(vectors, order, nrows, before, lens, i, at);
      }
      LengthsCount(vectors, order, nrows, before, lens, i);
      Record(i, place);
      ok := true;
    }

    /** Notes the base of vector i, and how long the table now is. */
    method Record(i: nat, place: int)
      requires ArraysApart(i) && i < |order| && |lens| == i + 1 && (lowzero < check.Length ==> check[lowzero] == -1)
      requires Packed(vectors, order, pos[..][i := place], table[..], check[..], high, i + 1)
      requires FirstFit(vectors, order, nrows, pos[..][i := place], i + 1)
      requires AreLengths(vectors, order, nrows, pos[..][i := place], lens + [check.Length], i + 1)
      requires NeverGaveUp(vectors, order, nrows, pos[..][i := place], lens + [check.Length], i + 1)
      modifies this`lens, base, pos
      ensures Valid(i + 1) && lens == old(lens) + [check.Length] && pos[..] == old(pos[..])[i := place]
    {
      hide Packed, OrderFits, NoRepeats, FirstFit, AreLengths, NeverGaveUp;
      ghost var after := pos[..][i := place];
      pos[i] := place;
      assert pos[..] == after;
      lens := lens + [check.Length];
      OrderFit(vectors, order, i);
      NewBase(order, i);
      base[order[i]] := place;
    }

    /** The driver's probe, with the base stored for vector i, finds exactly its entries. */
    lemma ProbeExact(i: nat, s: int, v: int)
      requires Valid(|order|) && IsOrder(vectors, |vectors|, order) && i < |vectors| && WellFormed(vectors[i]) && s >= 0
      ensures Probe(table[..], check[..], high, base[i], s) && table[base[i] + s] == v <==>
        Pairs(vectors[i].from, vectors[i].to, s, v)
    {
      hide Packed, OrderFits, Pairs, Ranked, NoRepeats;
      if i in order {
        var k: nat :| k < |order| && order[k] == i;
        PackedProbe(vectors, order, pos[..], table[..], check[..], high, k, s, v);
      } else {
        assert Pairs([], [], s, v) == false by { NoPairs(s, v); }
        assert vectors[i].from == [] && vectors[i].to == [];
      }
    }
  }

  lemma NoPairs(s: int, v: int)
    ensures !Pairs([], [], s, v)
  {
  }

  lemma NewBase(order: seq<nat>, i: nat)
    requires NoRepeats(order) && i < |order|
    ensures forall k :: 0 <= k < i ==> order[k] != order[i]
  {
  }

  ghost predicate Extends(a: seq<int>, b: seq<int>) {
    |a| <= |b| && (forall i :: 0 <= i < |a| ==> b[i] == a[i]) && forall i :: |a| <= i < |b| ==> b[i] == -1
  }

  ghost predicate FitsUpTo(check: seq<int>, keys: seq<nat>, j: int, n: nat) {
    forall e :: 0 <= e < n && e < |keys| ==> 0 <= j + keys[e] < |check| && check[j + keys[e]] == -1
  }

  lemma ExtendsFits(a: seq<int>, b: seq<int>, keys: seq<nat>, j: int, n: nat)
    requires Extends(a, b)
    ensures Fits(a, keys, j) <==> Fits(b, keys, j)
    ensures FitsUpTo(a, keys, j, n) ==> FitsUpTo(b, keys, j, n)
  {
  }

  lemma ExtendsTrans(a: seq<int>, b: seq<int>, c: seq<int>)
    requires Extends(a, b) && Extends(b, c)
    ensures Extends(a, c)
  {
  }

  lemma FitsNone(check: seq<int>, keys: seq<nat>, j: int)
    ensures FitsUpTo(check, keys, j, 0) && Extends(check, check)
  {
  }

  lemma FitsNext(check: seq<int>, keys: seq<nat>, j: int, k: nat)
    requires FitsUpTo(check, keys, j, k) && k < |keys| && 0 <= j + keys[k] < |check|
    ensures if check[j + keys[k]] == -1 then FitsUpTo(check, keys, j, k + 1) else !Fits(check, keys, j)
  {
  }

  lemma FitsAll(check: seq<int>, keys: seq<nat>, j: int)
    requires FitsUpTo(check, keys, j, |keys|)
    ensures Fits(check, keys, j) && AllBelow(keys, j, |check|)
  {
  }

  lemma OrderFit(vectors: seq<Vector>, order: seq<nat>, k: nat)
    requires OrderFits(vectors, order) && k < |order|
    ensures order[k] < |vectors| && WellFormed(vectors[order[k]])
    ensures 0 < vectors[order[k]].tally == |vectors[order[k]].from| == |vectors[order[k]].to|
  {
  }

  lemma PackedBounds(vectors: seq<Vector>, order: seq<nat>, pos: seq<int>, table: seq<nat>, check: seq<int>, high: nat,
                     n: nat)
    requires OrderFits(vectors, order) && Packed(vectors, order, pos, table, check, high, n)
    ensures |table| == |check| && high < |check|
  {
  }

  lemma UsableCell(check: seq<int>, pos: seq<int>, n: nat, keys: seq<nat>, j: int, e: nat)
    requires n <= |pos| && Usable(check, pos, n, keys, j) && e < |keys|
    ensures 0 <= j + keys[e]
  {
  }

  lemma NothingWritten(table: seq<nat>, check: seq<int>, j: int, x: Vector)
    requires |table| == |check| && |x.from| == |x.to|
    ensures Written(table, check, table, check, j, x, 0)
  {
  }

  lemma WrittenKeeps(table: seq<nat>, check: seq<int>, table': seq<nat>, check': seq<int>, j: int, x: Vector, m: nat)
    requires Written(table, check, table', check', j, x, m)
    ensures |check'| == |check| && forall c :: 0 <= c < |check| && check[c] != -1 ==> check'[c] != -1
  {
    forall c | 0 <= c < |check| && check[c] != -1 ensures check'[c] != -1 {
      if WrittenCell(x, j, m, c) {
        var e :| 0 <= e < m && e < |x.from| && c == j + x.from[e];
      }
    }
  }

  lemma WrittenNext(table: seq<nat>, check: seq<int>, table': seq<nat>, check': seq<int>, j: int, x: Vector, m: nat)
    requires Written(table, check, table', check', j, x, m) && m < |x.from| && 0 <= j + x.from[m] < |check|
    requires WellFormed(x)
    ensures Written(table, check, table'[j + x.from[m] := x.to[m]], check'[j + x.from[m] := x.from[m]], j, x, m + 1)
  {
    assert WrittenCell(x, j, m + 1, j + x.from[m]);
    forall c | 0 <= c < |check| && WrittenCell(x, j, m, c) ensures WrittenCell(x, j, m + 1, c) {
    }
  }

  lemma ExtendsMarked(a: seq<int>, b: seq<int>)
    requires Extends(a, b)
    ensures Marked(a) == Marked(b)
  {
  }

  lemma LooksNow(before: seq<int>, check: seq<int>, from: seq<nat>, j: int, k: nat)
    requires Extends(before, check) && FitsUpTo(check, from, j, k) && k < |from| && IsTried(Marked(before), from, j)
    ensures LooksAt(Marked(before), from, j, k) && j + from[k] >= 0
  {
    ExtendsMarked(before, check);
    assert IsAbove(Marked(before), j + from[k]);
  }

  lemma AtLimit(taken: iset<int>, from: seq<nat>, len: nat, j: int, e: nat, now: nat)
    requires e < |from| && LooksAt(taken, from, j, e) && Grows(taken, from, len, j, e, now) && j + from[e] >= now
    requires j + from[e] >= MAXTABLE
    ensures MeetsLimit(taken, from, len, j, e)
  {
    hide LooksAt, Grows;
  }

  lemma MarkedCell(before: seq<int>, check: seq<int>, c: int)
    requires Extends(before, check) && 0 <= c < |check| && check[c] != -1
    ensures c in Marked(before)
  {
  }

  lemma LooksNoMore(taken: iset<int>, from: seq<nat>, j: int, k: nat)
    requires k >= |from| || (0 < k && j + from[k - 1] in taken)
    ensures forall d: nat :: d >= k ==> !LooksAt(taken, from, j, d)
  {
    hide IsTried;
  }

  lemma NoLimitPast(taken: iset<int>, from: seq<nat>, len: nat, j: int, k: nat)
    requires forall d: nat :: d >= k ==> !LooksAt(taken, from, j, d)
    requires forall e: nat :: e < k ==> !MeetsLimit(taken, from, len, j, e)
    ensures forall e: nat :: !MeetsLimit(taken, from, len, j, e)
  {
    hide LooksAt, Grows;
  }

  /** With a base below the first one, some entry would lie below lowzero. */
  lemma StartIsFirst(check: seq<int>, lowzero: nat, from: seq<nat>, place: int)
    requires lowzero <= |check| && forall c :: 0 <= c < lowzero ==> check[c] != -1
    requires exists e :: 0 <= e < |from| && lowzero == place + from[e]
    ensures Grows(Marked(check), from, |check|, place, 0, |check|) && NoLimit(Marked(check), from, |check|, place)
  {
    var e :| 0 <= e < |from| && lowzero == place + from[e];
    forall i | i < place ensures !IsTried(Marked(check), from, i) {
      assert !IsAbove(Marked(check), i + from[e]);
    }
    NothingTried(Marked(check), from, |check|, place);
  }

  lemma IsTriedNow(check: seq<int>, lowzero: nat, from: seq<nat>, place: int)
    requires place != 0 && (lowzero < |check| ==> check[lowzero] == -1) && forall e :: 0 <= e < |from| ==>
      lowzero <= place + from[e]
    ensures IsTried(Marked(check), from, place)
  {
    assert lowzero !in Marked(check);
  }

  lemma ZeroIsPassed(taken: iset<int>, from: seq<nat>, len: nat, now: nat)
    requires Grows(taken, from, len, 0, 0, now) && NoLimit(taken, from, len, 0)
    ensures Grows(taken, from, len, 1, 0, now) && NoLimit(taken, from, len, 1)
  {
    forall d: nat ensures !LooksAt(taken, from, 0, d) {
    }
    GrowsPast(taken, from, len, 0, 0, now);
  }

  lemma PlacedNotStuck(check: seq<int>, pos: seq<int>, n: nat, keys: seq<nat>, len: nat, place: int)
    requires n <= |pos| && Usable(check, pos, n, keys, place) && NoLimit(Marked(check), keys, len, place + 1)
    ensures !exists j, e :: MeetsLimit(Marked(check), keys, len, j, e) && NoneUsableBelow(check, pos, n, keys, j)
  {
    hide Usable, MeetsLimit, Marked;
  }

  lemma IsStuck(vectors: seq<Vector>, order: seq<nat>, nrows: nat, pos: seq<int>, lens: seq<nat>, k: nat)
    requires OrderFits(vectors, order) && k < |order| && FirstFit(vectors, order, nrows, pos, k)
    requires AreLengths(vectors, order, nrows, pos, lens, k)
    requires !HasTwin(vectors, order, nrows, k) && GivesUp(vectors, order, pos, k, lens[k])
    ensures StuckAt(vectors, order, nrows, pos, lens, k)
  {
  }

  lemma StuckIsOverflow(vectors: seq<Vector>, order: seq<nat>, nrows: nat, pos: seq<int>, lens: seq<nat>, k: nat)
    requires OrderFits(vectors, order) && StuckAt(vectors, order, nrows, pos, lens, k)
    ensures Overflows(vectors, order, nrows)
  {
    hide StuckAt, OrderFits;
  }

  lemma LengthsCount(vectors: seq<Vector>, order: seq<nat>, nrows: nat, pos: seq<int>, lens: seq<nat>, n: nat)
    requires OrderFits(vectors, order) && n <= |order| && n <= |pos| && AreLengths(vectors, order, nrows, pos, lens, n)
    ensures |lens| == n + 1
  {
  }

  /** One vector more: its base, and the length of the table afterwards. */
  lemma LengthsGo(vectors: seq<Vector>, order: seq<nat>, nrows: nat, pos: seq<int>, lens: seq<nat>, n: nat, place: int,
                  len: nat)
    requires OrderFits(vectors, order) && n < |order| && n < |pos| && AreLengths(vectors, order, nrows, pos, lens, n)
    requires NeverGaveUp(vectors, order, nrows, pos, lens, n)
    requires Lengthens(vectors, order, nrows, pos[n := place], n, lens[n], len)
    requires HasTwin(vectors, order, nrows, n) || !GivesUp(vectors, order, pos, n, lens[n])
    ensures AreLengths(vectors, order, nrows, pos[n := place], lens + [len], n + 1)
    ensures NeverGaveUp(vectors, order, nrows, pos[n := place], lens + [len], n + 1)
  {
    hide OrderFits, Lengthens, GivesUp, HasTwin;
    var pos', lens' := pos[n := place], lens + [len];
    forall k | 0 <= k < n + 1 ensures Lengthens(vectors, order, nrows, pos', k, lens'[k], lens'[k + 1]) {
      if k < n {
        assert pos'[..k + 1] == pos[..k + 1];
        LengthensSame(vectors, order, nrows, pos, pos', k, lens[k], lens[k + 1]);
        assert Lengthens(vectors, order, nrows, pos, k, lens[k], lens[k + 1]);
      }
    }
    forall k | 0 <= k < n + 1 ensures HasTwin(vectors, order, nrows, k) || !GivesUp(vectors, order, pos', k, lens'[k]) {
      assert pos'[..k] == pos[..k];
      GivesUpSame(vectors, order, pos, pos', k, lens[k]);
    }
  }

  lemma GrownIsLength(vectors: seq<Vector>, order: seq<nat>, nrows: nat, pos: seq<int>, lens: seq<nat>, n: nat,
                      place: int, len: nat)
    requires OrderFits(vectors, order) && n < |order| && n < |pos| && AreLengths(vectors, order, nrows, pos, lens, n)
    requires NeverGaveUp(vectors, order, nrows, pos, lens, n) && !HasTwin(vectors, order, nrows, n)
    requires !GivesUp(vectors, order, pos, n, lens[n])
    requires Grows(Cells(vectors, order, pos, n), vectors[order[n]].from, lens[n], place + 1, 0, len)
    ensures AreLengths(vectors, order, nrows, pos[n := place], lens + [len], n + 1)
    ensures NeverGaveUp(vectors, order, nrows, pos[n := place], lens + [len], n + 1)
  {
    hide OrderFits, GivesUp, HasTwin, Grows, Cells;
    assert pos[n := place][..n] == pos[..n];
    CellsSame(vectors, order, pos, pos[n := place], n);
    LengthsGo(vectors, order, nrows, pos, lens, n, place, len);
  }

  lemma TwinKeepsLength(vectors: seq<Vector>, order: seq<nat>, nrows: nat, pos: seq<int>, lens: seq<nat>, n: nat,
                        m: nat)
    requires OrderFits(vectors, order) && n < |order| && n < |pos| && AreLengths(vectors, order, nrows, pos, lens, n)
    requires NeverGaveUp(vectors, order, nrows, pos, lens, n) && m < n && IsTwin(vectors, order, nrows, n, m)
    ensures AreLengths(vectors, order, nrows, pos[n := pos[m]], lens + [lens[n]], n + 1)
    ensures NeverGaveUp(vectors, order, nrows, pos[n := pos[m]], lens + [lens[n]], n + 1)
  {
    hide OrderFits, GivesUp, IsTwin;
    assert HasTwin(vectors, order, nrows, n);
    LengthsGo(vectors, order, nrows, pos, lens, n, pos[m], lens[n]);
  }

  /** The next base has been tried, and did not meet the limit. */
  lemma NoLimitHere(taken: iset<int>, from: seq<nat>, len: nat, j: int)
    requires NoLimit(taken, from, len, j) && forall e: nat :: !MeetsLimit(taken, from, len, j, e)
    ensures NoLimit(taken, from, len, j + 1)
  {
    hide MeetsLimit;
  }

  /** What a trial of base j found: whether it is usable. */
  lemma UsableHere(before: seq<int>, check: seq<int>, pos: seq<int>, n: nat, keys: seq<nat>, j: int, ok: bool)
    requires n <= |pos| && Extends(before, check) && NoneUsableBelow(before, pos, n, keys, j)
    requires ok <==> j != 0 && Fits(check, keys, j) && forall k :: 0 <= k < n ==> pos[k] != j
    ensures ok ==> Usable(before, pos, n, keys, j) && Usable(check, pos, n, keys, j)
    ensures !ok ==> NoneUsableBelow(before, pos, n, keys, j + 1)
  {
    hide Extends, Fits;
    ExtendsFits(before, check, keys, j, 0);
  }

  /** Cells below lowzero are taken, so no usable base reaches them. */
  lemma NothingLower(check: seq<int>, lowzero: nat, pos: seq<int>, n: nat, keys: seq<nat>, place: int)
    requires n <= |pos| && lowzero <= |check| && forall c :: 0 <= c < lowzero ==> check[c] != -1
    requires exists e :: 0 <= e < |keys| && lowzero == place + keys[e]
    ensures NoneUsableBelow(check, pos, n, keys, place)
  {
    var e :| 0 <= e < |keys| && lowzero == place + keys[e];
    forall j | Usable(check, pos, n, keys, j) ensures place <= j {
      assert 0 <= j + keys[e] && (j + keys[e] < |check| ==> check[j + keys[e]] == -1);
    }
  }

  lemma Lengthened<T>(a: seq<T>, b: seq<T>, x: T, d: nat)
    requires |b| == |a| + d && forall i :: 0 <= i < |b| ==> b[i] == if i < |a| then a[i] else x
    ensures b == a + Repeat(x, d)
  {
  }
}
