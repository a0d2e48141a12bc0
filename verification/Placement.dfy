/** Where first-fit packing puts vectors: the bases that pack_table of byacc/output.c determines. */
module Placement {
  import opened Vectors
  import opened TableGrowth

  ghost predicate OrderFits(vectors: seq<Vector>, order: seq<nat>) {
    forall k :: 0 <= k < |order| ==>
      order[k] < |vectors| && WellFormed(vectors[order[k]]) && vectors[order[k]].tally > 0
  }

  ghost predicate AllBelow(from: seq<nat>, j: int, n: int) {
    forall e :: 0 <= e < |from| ==> j + from[e] < n
  }

  /** One of the first n vectors has an entry in cell c. */
  ghost predicate Taken(vectors: seq<Vector>, order: seq<nat>, pos: seq<int>, n: nat, c: int)
    requires OrderFits(vectors, order) && n <= |order| && n <= |pos|
  {
    exists k :: 0 <= k < n && c - pos[k] in vectors[order[k]].from
  }

  /** Base j is free for vector n, when the vectors before it have the bases pos. */
  ghost predicate IsFree(vectors: seq<Vector>, order: seq<nat>, pos: seq<int>, n: nat, j: int)
    requires OrderFits(vectors, order) && n < |order| && n <= |pos|
  {
    && j != 0 && (forall k :: 0 <= k < n ==> pos[k] != j)
    && forall s :: s in vectors[order[n]].from ==> j + s >= 0 && !Taken(vectors, order, pos, n, j + s)
  }

  /** m is the last vector before row n that is equal to it. */
  ghost predicate IsTwin(vectors: seq<Vector>, order: seq<nat>, nrows: nat, n: nat, m: nat)
    requires OrderFits(vectors, order) && n < |order|
  {
    && order[n] < nrows && m < n && vectors[order[m]] == vectors[order[n]]
    && forall k :: m < k < n ==> vectors[order[k]] != vectors[order[n]]
  }

  ghost predicate HasTwin(vectors: seq<Vector>, order: seq<nat>, nrows: nat, n: nat)
    requires OrderFits(vectors, order) && n < |order|
  {
    exists m: nat :: IsTwin(vectors, order, nrows, n, m)
  }

  /** A row that has a twin shares its base; any other vector gets the least base that is free. */
  ghost predicate IsPlaced(vectors: seq<Vector>, order: seq<nat>, nrows: nat, pos: seq<int>, n: nat)
    requires OrderFits(vectors, order) && n < |order| && n < |pos|
  {
    if HasTwin(vectors, order, nrows, n) then exists m: nat ::
      m < n && IsTwin(vectors, order, nrows, n, m) && pos[n] == pos[m]
    else IsFree(vectors, order, pos, n, pos[n]) && forall j :: IsFree(vectors, order, pos, n, j) ==> pos[n] <= j
  }

  /** pos holds the first-fit bases of the first k vectors. */
  ghost predicate FirstFit(vectors: seq<Vector>, order: seq<nat>, nrows: nat, pos: seq<int>, k: nat)
    requires OrderFits(vectors, order)
  {
    k <= |order| && k <= |pos| && forall n :: 0 <= n < k ==> IsPlaced(vectors, order, nrows, pos, n)
  }

  /** The cells of the first n vectors. */
  ghost function Cells(vectors: seq<Vector>, order: seq<nat>, pos: seq<int>, n: nat): iset<int>
    requires OrderFits(vectors, order) && n <= |order| && n <= |pos|
  {
    iset c: int | Taken(vectors, order, pos, n, c)
  }

  /** With a table of length len, the search for a base for vector n meets the limit before it finds
      one: with a base below which none is free. */
  ghost predicate GivesUp(vectors: seq<Vector>, order: seq<nat>, pos: seq<int>, n: nat, len: nat)
    requires OrderFits(vectors, order) && n < |order| && n <= |pos|
  {
    exists j, e :: MeetsLimit(Cells(vectors, order, pos, n), vectors[order[n]].from, len, j, e) &&
      NoneFreeBelow(vectors, order, pos, n, j)
  }

  ghost predicate NoneFreeBelow(vectors: seq<Vector>, order: seq<nat>, pos: seq<int>, n: nat, j: int)
    requires OrderFits(vectors, order) && n < |order| && n <= |pos|
  {
    forall i :: IsFree(vectors, order, pos, n, i) ==> j <= i
  }

  /** The table is len long before vector n is placed, and next afterwards. */
  ghost predicate Lengthens(vectors: seq<Vector>, order: seq<nat>, nrows: nat, pos: seq<int>, n: nat, len: nat,
                            next: nat)
    requires OrderFits(vectors, order) && n < |order| && n < |pos|
  {
    if HasTwin(vectors, order, nrows, n) then next == len
    else Grows(Cells(vectors, order, pos, n), vectors[order[n]].from, len, pos[n] + 1, 0, next)
  }

  /** The lengths of the table before each of the first k vectors, and after them. */
  ghost predicate AreLengths(vectors: seq<Vector>, order: seq<nat>, nrows: nat, pos: seq<int>, lens: seq<nat>, k: nat)
    requires OrderFits(vectors, order) && k <= |order| && k <= |pos|
  {
    |lens| == k + 1 && lens[0] == 1000 && forall n :: 0 <= n < k ==>
      Lengthens(vectors, order, nrows, pos, n, lens[n], lens[n + 1])
  }

  /** First-fit packing comes to vector k, and gives up there. */
  ghost predicate StuckAt(vectors: seq<Vector>, order: seq<nat>, nrows: nat, pos: seq<int>, lens: seq<nat>, k: nat)
    requires OrderFits(vectors, order)
  {
    && k < |order| && FirstFit(vectors, order, nrows, pos, k) && AreLengths(vectors, order, nrows, pos, lens, k)
    && !HasTwin(vectors, order, nrows, k) && GivesUp(vectors, order, pos, k, lens[k])
  }

  ghost predicate Overflows(vectors: seq<Vector>, order: seq<nat>, nrows: nat) {
    OrderFits(vectors, order) && exists pos, lens, k: nat :: StuckAt(vectors, order, nrows, pos, lens, k)
  }

  lemma TakenSame(vectors: seq<Vector>, order: seq<nat>, pos: seq<int>, pos': seq<int>, n: nat)
    requires OrderFits(vectors, order) && n <= |order| && n <= |pos| && n <= |pos'| && pos[..n] == pos'[..n]
    ensures forall c :: Taken(vectors, order, pos, n, c) <==> Taken(vectors, order, pos', n, c)
    ensures forall k :: 0 <= k < n ==> pos[k] == pos'[k]
  {
    forall k | 0 <= k < n ensures pos[k] == pos'[k] {
      assert pos[k] == pos[..n][k] == pos'[..n][k];
    }
  }

  lemma FreeSame(vectors: seq<Vector>, order: seq<nat>, pos: seq<int>, pos': seq<int>, n: nat, j: int)
    requires OrderFits(vectors, order) && n < |order| && n <= |pos| && n <= |pos'| && pos[..n] == pos'[..n]
    ensures IsFree(vectors, order, pos, n, j) <==> IsFree(vectors, order, pos', n, j)
  {
    TakenSame(vectors, order, pos, pos', n);
  }

  lemma PlacedSame(vectors: seq<Vector>, order: seq<nat>, nrows: nat, pos: seq<int>, pos': seq<int>, n: nat)
    requires OrderFits(vectors, order) && n < |order| && n < |pos| && n < |pos'| && pos[..n + 1] == pos'[..n + 1]
    ensures IsPlaced(vectors, order, nrows, pos, n) ==> IsPlaced(vectors, order, nrows, pos', n)
  {
    hide IsFree, IsTwin, OrderFits;
    assert pos[n] == pos[..n + 1][n] == pos'[..n + 1][n] == pos'[n];
    assert pos[..n] == pos[..n + 1][..n] == pos'[..n + 1][..n] == pos'[..n];
    forall j ensures IsFree(vectors, order, pos, n, j) <==> IsFree(vectors, order, pos', n, j) {
      FreeSame(vectors, order, pos, pos', n, j);
    }
    forall m: nat | IsTwin(vectors, order, nrows, n, m) ensures m < n && pos[m] == pos'[m] {
      TwinBefore(vectors, order, nrows, n, m);
      assert pos[m] == pos[..n][m] == pos'[..n][m];
    }
  }

  lemma TwinBefore(vectors: seq<Vector>, order: seq<nat>, nrows: nat, n: nat, m: nat)
    requires OrderFits(vectors, order) && n < |order| && IsTwin(vectors, order, nrows, n, m)
    ensures m < n
  {
  }

  /** There is one such sequence of bases. */
  lemma {:induction false} FirstFitIsUnique(vectors: seq<Vector>, order: seq<nat>, nrows: nat, pos: seq<int>,
                                            pos': seq<int>, k: nat)
    requires OrderFits(vectors, order) && FirstFit(vectors, order, nrows, pos, k)
    requires FirstFit(vectors, order, nrows, pos', k)
    ensures pos[..k] == pos'[..k]
    decreases k
  {
    hide IsFree, IsTwin, OrderFits;
    if k > 0 {
      var n: nat := k - 1;
      FirstFitIsUnique(vectors, order, nrows, pos, pos', n);
      assert IsPlaced(vectors, order, nrows, pos, n) && IsPlaced(vectors, order, nrows, pos', n);
      if HasTwin(vectors, order, nrows, n) {
        var m: nat :| m < n && IsTwin(vectors, order, nrows, n, m) && pos[n] == pos[m];
        var m': nat :| m' < n && IsTwin(vectors, order, nrows, n, m') && pos'[n] == pos'[m'];
        OneTwin(vectors, order, nrows, n, m, m');
        assert pos[m] == pos[..n][m] == pos'[..n][m];
      } else {
        FreeSame(vectors, order, pos, pos', n, pos[n]);
        FreeSame(vectors, order, pos, pos', n, pos'[n]);
      }
      assert pos[..k] == pos[..n] + [pos[n]] && pos'[..k] == pos'[..n] + [pos'[n]];
    }
  }

  lemma OneTwin(vectors: seq<Vector>, order: seq<nat>, nrows: nat, n: nat, m: nat, m': nat)
    requires OrderFits(vectors, order) && n < |order|
    requires IsTwin(vectors, order, nrows, n, m) && IsTwin(vectors, order, nrows, n, m')
    ensures m == m' < n
  {
  }

  // ---------- Packing is determined ----------

  lemma CellsSame(vectors: seq<Vector>, order: seq<nat>, pos: seq<int>, pos': seq<int>, n: nat)
    requires OrderFits(vectors, order) && n <= |order| && n <= |pos| && n <= |pos'| && pos[..n] == pos'[..n]
    ensures Cells(vectors, order, pos, n) == Cells(vectors, order, pos', n)
  {
    hide Taken, OrderFits;
    TakenSame(vectors, order, pos, pos', n);
  }

  lemma GivesUpSame(vectors: seq<Vector>, order: seq<nat>, pos: seq<int>, pos': seq<int>, n: nat, len: nat)
    requires OrderFits(vectors, order) && n < |order| && n <= |pos| && n <= |pos'| && pos[..n] == pos'[..n]
    ensures GivesUp(vectors, order, pos, n, len) <==> GivesUp(vectors, order, pos', n, len)
  {
    hide IsFree, OrderFits, Cells, MeetsLimit;
    CellsSame(vectors, order, pos, pos', n);
    forall j ensures IsFree(vectors, order, pos, n, j) <==> IsFree(vectors, order, pos', n, j) {
      FreeSame(vectors, order, pos, pos', n, j);
    }
    forall j ensures NoneFreeBelow(vectors, order, pos, n, j) <==> NoneFreeBelow(vectors, order, pos', n, j) {
    }
  }

  lemma LengthensSame(vectors: seq<Vector>, order: seq<nat>, nrows: nat, pos: seq<int>, pos': seq<int>, n: nat,
                      len: nat, next: nat)
    requires OrderFits(vectors, order) && n < |order| && n < |pos| && n < |pos'| && pos[..n + 1] == pos'[..n + 1]
    ensures Lengthens(vectors, order, nrows, pos, n, len, next) <==>
      Lengthens(vectors, order, nrows, pos', n, len, next)
  {
    hide HasTwin, OrderFits, Grows, Cells;
    assert pos[n] == pos[..n + 1][n] == pos'[..n + 1][n] == pos'[n];
    assert pos[..n] == pos[..n + 1][..n] == pos'[..n + 1][..n] == pos'[..n];
    CellsSame(vectors, order, pos, pos', n);
  }

  lemma {:induction false} LengthsAreUnique(vectors: seq<Vector>, order: seq<nat>, nrows: nat, pos: seq<int>,
                                            pos': seq<int>,
                                            lens: seq<nat>, lens': seq<nat>, k: nat, n: nat)
    requires OrderFits(vectors, order) && k <= |order| && k <= |pos| && k <= |pos'| && pos[..k] == pos'[..k] && n <= k
    requires n < |lens| && lens[0] == 1000
    requires forall i :: 0 <= i < n ==> Lengthens(vectors, order, nrows, pos, i, lens[i], lens[i + 1])
    requires AreLengths(vectors, order, nrows, pos', lens', k)
    ensures lens[n] == lens'[n]
    decreases n
  {
    hide HasTwin, OrderFits, Lengthens;
    if n > 0 {
      var i: nat := n - 1;
      LengthsAreUnique(vectors, order, nrows, pos, pos', lens, lens', k, i);
      assert pos[..n] == pos[..k][..n] == pos'[..k][..n] == pos'[..n];
      assert Lengthens(vectors, order, nrows, pos, i, lens[i], lens[i + 1]);
      assert Lengthens(vectors, order, nrows, pos', i, lens'[i], lens'[i + 1]);
      LengthensSame(vectors, order, nrows, pos, pos', i, lens[i], lens[n]);
      OneLength(vectors, order, nrows, pos', i, lens[i], lens[n], lens'[n]);
    }
  }

  lemma OneLength(vectors: seq<Vector>, order: seq<nat>, nrows: nat, pos: seq<int>, n: nat, len: nat, x: nat, y: nat)
    requires OrderFits(vectors, order) && n < |order| && n < |pos|
    requires Lengthens(vectors, order, nrows, pos, n, len, x) && Lengthens(vectors, order, nrows, pos, n, len, y)
    ensures x == y
  {
    hide HasTwin, Grows, Cells;
    if !HasTwin(vectors, order, nrows, n) {
      GrowsUnique(Cells(vectors, order, pos, n), vectors[order[n]].from, len, pos[n] + 1, 0, x, y);
    }
  }

  /** The first k vectors were placed without giving up. */
  ghost predicate NeverGaveUp(vectors: seq<Vector>, order: seq<nat>, nrows: nat, pos: seq<int>, lens: seq<nat>, k: nat)
    requires OrderFits(vectors, order) && k <= |order| && k <= |pos| && k <= |lens|
  {
    forall n :: 0 <= n < k ==> HasTwin(vectors, order, nrows, n) || !GivesUp(vectors, order, pos, n, lens[n])
  }

  /** If all vectors are placed without giving up, there is no overflow. */
  lemma PlacedIsNoOverflow(vectors: seq<Vector>, order: seq<nat>, nrows: nat, pos: seq<int>, lens: seq<nat>)
    requires OrderFits(vectors, order) && FirstFit(vectors, order, nrows, pos, |order|)
    requires AreLengths(vectors, order, nrows, pos, lens, |order|)
    requires NeverGaveUp(vectors, order, nrows, pos, lens, |order|)
    ensures !Overflows(vectors, order, nrows)
  {
    hide IsPlaced, HasTwin, OrderFits, Lengthens, GivesUp, IsFree;
    forall pos', lens', k: nat ensures !StuckAt(vectors, order, nrows, pos', lens', k) {
      if StuckAt(vectors, order, nrows, pos', lens', k) {
        FirstFitIsUnique(vectors, order, nrows, pos, pos', k);
        LengthsAreUnique(vectors, order, nrows, pos, pos', lens, lens', k, k);
        GivesUpSame(vectors, order, pos, pos', k, lens[k]);
      }
    }
  }

  // ---------- When there is room ----------

  ghost function LargestKey(from: seq<nat>): (k: nat)
    ensures forall e :: 0 <= e < |from| ==> from[e] <= k
  {
    if from == [] then 0
    else
      var k := LargestKey(from[1..]);
      assert forall e :: 1 <= e < |from| ==> from[e] == from[1..][e - 1];
      if from[0] > k then from[0] else k
  }

  /** The first k vectors laid out one behind the other. */
  ghost function Extent(vectors: seq<Vector>, order: seq<nat>, k: nat): nat
    requires OrderFits(vectors, order) && k <= |order|
  {
    if k == 0 then 0 else Extent(vectors, order, k - 1) + 1 + LargestKey(vectors[order[k - 1]].from)
  }

  lemma {:induction false} ExtentGrows(vectors: seq<Vector>, order: seq<nat>, j: nat, k: nat)
    requires OrderFits(vectors, order) && j <= k <= |order|
    ensures Extent(vectors, order, j) <= Extent(vectors, order, k)
    decreases k
  {
    if j < k {
      ExtentGrows(vectors, order, j, k - 1);
    }
  }

  /** The first k vectors lie within their extent. */
  ghost predicate Within(vectors: seq<Vector>, order: seq<nat>, pos: seq<int>, k: nat)
    requires OrderFits(vectors, order) && k <= |order| && k <= |pos|
  {
    && (forall n :: 0 <= n < k ==> pos[n] <= Extent(vectors, order, k))
    && forall c :: Taken(vectors, order, pos, k, c) ==> c <= Extent(vectors, order, k)
  }

  lemma BehindIsFree(vectors: seq<Vector>, order: seq<nat>, pos: seq<int>, k: nat)
    requires OrderFits(vectors, order) && k < |order| && k <= |pos| && Within(vectors, order, pos, k)
    ensures IsFree(vectors, order, pos, k, Extent(vectors, order, k) + 1)
  {
    hide Taken;
  }

  lemma {:induction false} FirstFitIsWithin(vectors: seq<Vector>, order: seq<nat>, nrows: nat, pos: seq<int>, k: nat)
    requires OrderFits(vectors, order) && FirstFit(vectors, order, nrows, pos, k)
    ensures Within(vectors, order, pos, k)
    decreases k
  {
    if k > 0 {
      var n: nat := k - 1;
      FirstFitIsWithin(vectors, order, nrows, pos, n);
      BehindIsFree(vectors, order, pos, n);
      assert IsPlaced(vectors, order, nrows, pos, n);
      var x := vectors[order[n]].from;
      assert pos[n] <= Extent(vectors, order, n) + 1;
      forall c | Taken(vectors, order, pos, k, c) ensures c <= Extent(vectors, order, k) {
        var m :| 0 <= m < k && c - pos[m] in vectors[order[m]].from;
        if m < n {
          assert Taken(vectors, order, pos, n, c);
        } else {
          var e :| 0 <= e < |x| && x[e] == c - pos[m];
        }
      }
    }
  }

  /** Vectors whose extents add up to less than the limit on its size, 32500, always find room. */
  lemma SmallTablesFit(vectors: seq<Vector>, order: seq<nat>, nrows: nat)
    requires OrderFits(vectors, order) && Extent(vectors, order, |order|) < 32500
    ensures !Overflows(vectors, order, nrows)
  {
    hide IsPlaced, HasTwin, Lengthens, IsFree, Within, Cells, LooksAt;
    forall pos, lens, k: nat ensures !StuckAt(vectors, order, nrows, pos, lens, k) {
      if StuckAt(vectors, order, nrows, pos, lens, k) {
        var from := vectors[order[k]].from;
        var j: int, e: nat :| MeetsLimit(Cells(vectors, order, pos, k), from, lens[k], j, e) &&
          NoneFreeBelow(vectors, order, pos, k, j);
        FirstFitIsWithin(vectors, order, nrows, pos, k);
        BehindIsFree(vectors, order, pos, k);
        ExtentGrows(vectors, order, k + 1, |order|);
        EntryLooked(Cells(vectors, order, pos, k), from, j, e);
      }
    }
  }

  lemma EntryLooked(taken: iset<int>, from: seq<nat>, j: int, e: nat)
    requires LooksAt(taken, from, j, e)
    ensures e < |from|
  {
  }

  /** In particular when no key is larger than `key` and there are few enough vectors. */
  lemma {:induction false} ExtentBound(vectors: seq<Vector>, order: seq<nat>, k: nat, key: nat)
    requires OrderFits(vectors, order) && k <= |order|
    requires forall n, s :: 0 <= n < k && s in vectors[order[n]].from ==> s <= key
    ensures Extent(vectors, order, k) <= k * (key + 1)
    decreases k
  {
    if k > 0 {
      ExtentBound(vectors, order, k - 1, key);
      LargestIsKey(vectors[order[k - 1]].from, key);
      assert k * (key + 1) == (k - 1) * (key + 1) + (key + 1);
    }
  }

  lemma {:induction false} LargestIsKey(from: seq<nat>, key: nat)
    requires forall s :: s in from ==> s <= key
    ensures LargestKey(from) <= key
  {
    if from != [] {
      assert from[0] in from && forall s :: s in from[1..] ==> s in from;
      LargestIsKey(from[1..], key);
    }
  }
}
