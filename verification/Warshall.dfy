/** byacc/warshall.c: closing a relation, held as packed rows of bits, in place. */
module Warshall {
  import opened Bits
  import opened Graphs

  /** The nodes that follow i by a path of at least one edge whose inner nodes are all below k. */
  ghost function Via(g: Graph, k: nat, i: nat): set<nat>
    requires k <= |g| && i < |g|
  {
    if k == 0 then
      g[i]
    else
      var shorter := Via(g, k - 1, i);
      if k - 1 in shorter then shorter + Via(g, k - 1, k - 1) else shorter
  }

  lemma {:induction false} ViaIsPath(g: Graph, k: nat, i: nat, j: nat)
    requires k <= |g| && i < |g| && j in Via(g, k, i)
    ensures ReachPlus(g, i, j)
  {
    if k == 0 {
      ReachEdge(g, i, j);
    } else if j in Via(g, k - 1, i) {
      ViaIsPath(g, k - 1, i, j);
    } else {
      ViaIsPath(g, k - 1, i, k - 1);
      ViaIsPath(g, k - 1, k - 1, j);
      ReachPlusTrans(g, i, k - 1, j);
    }
  }

  lemma {:induction false} PathIsVia(g: Graph, k: nat, p: seq<nat>)
    requires Closed(g) && IsPath(g, p) && |p| > 1 && k <= |g|
    requires forall m :: 0 < m < |p| - 1 ==> p[m] < k
    ensures p[|p| - 1] in Via(g, k, p[0])
    decreases k, |p|
  {
    var inner := p[1];
    if k == 0 {
      assert p[0 + 1] in g[p[0]];
    } else if m :| 0 < m < |p| - 1 && p[m] == k - 1 {
      SubPath(g, p, 0, m);
      SubPath(g, p, m, |p| - 1);
      PathIsVia(g, k, p[0..m + 1]);
      PathIsVia(g, k, p[m..|p| - 1 + 1]);
    } else {
      PathIsVia(g, k - 1, p);
    }
  }

  lemma ViaIsReach(g: Graph, i: nat, j: nat)
    requires Closed(g) && i < |g|
    ensures j in Via(g, |g|, i) <==> j < |g| && ReachPlus(g, i, j)
  {
    if ReachPlus(g, i, j) {
      var p :| PathFromTo(g, p, i, j) && |p| > 1;
      forall m | 0 < m < |p| ensures p[m] < |g| {
        PathInRange(g, p, m);
      }
      PathIsVia(g, |g|, p);
    }
    if j in Via(g, |g|, i) {
      ViaIsPath(g, |g|, i, j);
    }
  }

  /** The table in round k, its first j rows being one round ahead. */
  ghost function Progress(g: Graph, k: nat, j: nat): (rows: Graph)
    requires k <= |g| && (k < |g| || j == 0)
    ensures |rows| == |g|
  {
    seq(|g|, i requires 0 <= i < |g| => Via(g, if i < j then k + 1 else k, i))
  }

  lemma FirstRound(g: Graph)
    ensures Progress(g, 0, 0) == g
  {
    forall i | 0 <= i < |g| ensures Progress(g, 0, 0)[i] == g[i] {
      assert Progress(g, 0, 0)[i] == Via(g, 0, i);
    }
  }

  lemma RowDone(g: Graph, k: nat, j: nat)
    requires k < |g| && j < |g|
    ensures var rows := Progress(g, k, j);
            Progress(g, k, j + 1) == if k in rows[j] then rows[j := rows[j] + rows[k]] else rows
  {
    var rows, rows' := Progress(g, k, j), Progress(g, k, j + 1);
    assert Via(g, k + 1, k) == Via(g, k, k);
    forall i | 0 <= i < |g| && i != j ensures rows'[i] == rows[i] {
    }
    assert rows'[j] == Via(g, k + 1, j);
  }

  lemma ViaIsClosure(g: Graph)
    requires Closed(g)
    ensures Progress(g, |g|, 0) == PlusClosure(g)
  {
    forall i | 0 <= i < |g| ensures Via(g, |g|, i) == PlusClosure(g)[i] {
      forall j: nat ensures j in Via(g, |g|, i) <==> j in PlusClosure(g)[i] {
        ViaIsReach(g, i, j);
      }
    }
  }

  /** One turn of the outer loop: OR row k into every row that has bit k. */
  method Round(R: array<Word>, rowsize: nat, relend: nat, rowi: nat, cword: nat, mask: Word,
               ghost b: nat, ghost k: nat, ghost g: Graph)
    requires cword < rowsize && R.Length == relend == Start(|g|, rowsize)
    requires k < |g| && rowi == Start(k, rowsize)
    requires k == 32 * cword + b && b < 32 && mask == Mask(b)
    requires Rows(R[..], rowsize, |g|) == Progress(g, k, 0)
    modifies R
    ensures Rows(R[..], rowsize, |g|) == Progress(g, k + 1, 0)
  {
    hide RowSet, Mask, Row;
    var ccol := cword;
    var rowj := 0;
    ghost var j := 0;
    while rowj < relend
      invariant 0 <= j <= |g| && rowj == Start(j, rowsize) && ccol == cword + rowj
      invariant Rows(R[..], rowsize, |g|) == Progress(g, k, j)
      decreases |g| - j
    {
      PointerInside(j, |g|, rowsize);
      TestedBit(R[..], rowsize, |g|, j, cword, b);
      RowDone(g, k, j);
      if Meets(R[ccol], mask) {
        OrRow(R, rowj, rowi, rowsize, |g|, j, k);
      }
      rowj := rowj + rowsize;
      ccol := ccol + rowsize;
      j := j + 1;
    }
    PointerInside(j, |g|, rowsize);
    assert Progress(g, k, |g|) == Progress(g, k + 1, 0);
  }

  method TransitiveClosure(R: array<Word>, n: nat)
    requires R.Length == Start(n, WordSize(n))
    requires Closed(Rows(R[..], WordSize(n), n))
    modifies R
    ensures Rows(R[..], WordSize(n), n) == PlusClosure(old(Rows(R[..], WordSize(n), n)))
  {
    var rowsize := WordSize(n);
    var relend := RowPointer(n, rowsize);
    ghost var g: Graph := Rows(R[..], rowsize, n);
    var cword := 0;
    var mask := ONE;
    var rowi := 0;
    ghost var k, b := 0, 0;
    FirstRound(g);
    while rowi < relend
      invariant 0 <= k <= n && rowi == Start(k, rowsize)
      invariant k == 32 * cword + b && b < 32 && mask == Mask(b)
      invariant Rows(R[..], rowsize, n) == Progress(g, k, 0)
      decreases n - k
    {
      PointerInside(k, n, rowsize);
      Round(R, rowsize, relend, rowi, cword, mask, b, k, g);
      cword, mask, b := NextBit(cword, mask, b);
      rowi := rowi + rowsize;
      k := k + 1;
    }
    if n > 0 {
      PointerInside(k, n, rowsize);
    }
    ViaIsClosure(g);
  }

  /** The diagonal pass: bit i of row i is set in every row. */
  ghost function Diagonal(g: Graph, k: nat): (rows: Graph)
    ensures |rows| == |g|
  {
    seq(|g|, i requires 0 <= i < |g| => if i < k then g[i] + {i} else g[i])
  }

  lemma DiagonalOfPlus(g: Graph)
    requires Closed(g)
    ensures Diagonal(PlusClosure(g), |g|) == StarClosure(g)
  {
    forall i | 0 <= i < |g| ensures Diagonal(PlusClosure(g), |g|)[i] == StarClosure(g)[i] {
      assert Diagonal(PlusClosure(g), |g|)[i] == PlusClosure(g)[i] + {i};
      forall j: nat ensures j in PlusClosure(g)[i] + {i} <==> j in StarClosure(g)[i] {
        ReachPlusOrSame(g, i, j);
      }
    }
  }

  /** `*rp |= mask` */
  method SetMask(R: array<Word>, rp: nat, mask: Word, ghost rowsize: nat, ghost n: nat, ghost k: nat, ghost w: nat,
                 ghost b: nat)
    requires k < n && Start(n, rowsize) <= R.Length && w < rowsize
    requires k == 32 * w + b && b < 32 && mask == Mask(b) && rp == Start(k, rowsize) + w
    modifies R
    ensures rp < R.Length
    ensures Rows(R[..], rowsize, n) == old(Rows(R[..], rowsize, n)[k := Rows(R[..], rowsize, n)[k] + {k}])
  {
    StartGrows(k, n, rowsize);
    ghost var s := Start(k, rowsize);
    ghost var before, row := R[..], R[s..s + rowsize];
    R[rp] := Or(R[rp], mask);
    RowSetBit(row, R[s..s + rowsize], k);
    RowWritten(before, R[..], rowsize, n, k);
  }

  lemma DiagonalStep(g: Graph, k: nat)
    requires k < |g|
    ensures Diagonal(g, 0) == g
    ensures Diagonal(g, k + 1) == Diagonal(g, k)[k := Diagonal(g, k)[k] + {k}]
  {
  }

  method SetDiagonal(R: array<Word>, n: nat, rowsize: nat, relend: nat)
    requires R.Length == relend == Start(n, rowsize) && 0 < n <= 32 * rowsize
    modifies R
    ensures Rows(R[..], rowsize, n) == Diagonal(old(Rows(R[..], rowsize, n)), n)
  {
    hide RowSet, Row;
    ghost var g := Rows(R[..], rowsize, n);
    var mask := ONE;
    var rp := 0;
    ghost var k, w, b := 0, 0, 0;
    DiagonalStep(g, 0);
    while rp < relend
      invariant 0 <= k <= n && rp == Start(k, rowsize) + w
      invariant k == 32 * w + b && b < 32 && mask == Mask(b)
      invariant Rows(R[..], rowsize, n) == Diagonal(g, k)
      decreases n - k
    {
      PointerInside(k, n, rowsize);
      SetMask(R, rp, mask, rowsize, n, k, w, b);
      DiagonalStep(g, k);
      rp, mask, w, b := NextDiagonal(rp, mask, w, b);
      rp := rp + rowsize;
      k := k + 1;
    }
    if k < n {
      StartGrows(k, n, rowsize);
    }
  }

  method ReflexiveTransitiveClosure(R: array<Word>, n: nat)
    requires R.Length == Start(n, WordSize(n))
    requires Closed(Rows(R[..], WordSize(n), n))
    modifies R
    ensures Rows(R[..], WordSize(n), n) == StarClosure(old(Rows(R[..], WordSize(n), n)))
  {
    ghost var g := Rows(R[..], WordSize(n), n);
    TransitiveClosure(R, n);
    var rowsize := WordSize(n);
    var relend := RowPointer(n, rowsize);
    if n > 0 {
      SetDiagonal(R, n, rowsize, relend);
    }
    DiagonalOfPlus(g);
  }

  method NextDiagonal(rp: nat, mask: Word, ghost w: nat, ghost b: nat)
    returns (rp': nat, mask': Word, ghost w': nat, ghost b': nat)
    requires b < 32 && mask == Mask(b)
    ensures 32 * w' + b' == 32 * w + b + 1 && rp' - rp == w' - w
    ensures b' < 32 && mask' == Mask(b')
  {
    var cword;
    cword, mask', b' := NextBit(rp, mask, b);
    rp', w' := cword, w + (cword - rp);
  }
}
