/** Packed rows of bits: the word macros of byacc/defs.h and the pointer loops
    over rows of words that the generator writes out wherever it needs them.
    BITS_PER_WORD is written as the literal 32. */
module Bits {

  /** A C `unsigned`. */
  datatype Word = Word(bits: bv32)

  const ZERO := Word(0)
  const ONE := Word(1)

  function Or(a: Word, b: Word): Word {
    Word(a.bits | b.bits)
  }

  function ShiftLeft(w: Word): Word {
    Word(w.bits << 1)
  }

  /** WORDSIZE(n): the number of words that hold n bits. */
  function WordSize(n: nat): nat {
    (n + 31) / 32
  }

  /** The walking mask: it starts at 1 and is shifted left once per bit. */
  function Mask(k: nat): Word {
    if k == 0 then ONE else ShiftLeft(Mask(k - 1))
  }

  predicate BitsMeet(x: bv32, m: bv32) {
    x & m != 0
  }

  predicate Meets(w: Word, m: Word) {
    BitsMeet(w.bits, m.bits)
  }

  predicate Bit(w: Word, k: nat) {
    Meets(w, Mask(k))
  }

  /** BIT(r, t) on a whole row of words. */
  predicate Has(row: seq<Word>, t: nat) {
    t < 32 * |row| && Bit(row[t / 32], t % 32)
  }

  /** The set of bit numbers that a row of words holds. */
  ghost function RowSet(row: seq<Word>): set<nat> {
    set t: nat | t < 32 * |row| && Has(row, t)
  }

  lemma {:induction false} MaskLimit(k: nat)
    requires k <= 32
    ensures Mask(k) == ZERO <==> k == 32
  {
    assert Mask(4).bits == 0x10 && Mask(8).bits == 0x100 && Mask(12).bits == 0x1000 && Mask(16).bits == 0x10000;
    assert Mask(20).bits == 0x100000 && Mask(24).bits == 0x1000000 && Mask(28).bits == 0x10000000;
    assert Mask(30).bits == 0x40000000 && Mask(31).bits == 0x80000000 && Mask(32).bits == 0;
  }

  lemma FirstMask()
    ensures Mask(0) == ONE
  {
  }

  lemma MaskNext(k: nat)
    ensures Mask(k + 1) == ShiftLeft(Mask(k))
  {
  }

  lemma {:induction false} MasksDisjoint(j: nat, k: nat)
    requires j < k
    ensures !Meets(Mask(j), Mask(k))
  {
    if j == 0 {
      NotOne(Mask(k - 1));
    } else {
      MasksDisjoint(j - 1, k - 1);
      ShiftDisjoint(Mask(j - 1), Mask(k - 1));
    }
  }

  lemma MaskBit(j: nat, k: nat)
    requires j < 32 && k < 32
    ensures Bit(Mask(j), k) <==> j == k
  {
    if j < k {
      MasksDisjoint(j, k);
    } else if k < j {
      MasksDisjoint(k, j);
      MeetsSwap(Mask(j), Mask(k));
    } else {
      MaskLimit(k);
      MeetsSelf(Mask(k));
    }
  }

  lemma NotOne(b: Word)
    ensures !Meets(ONE, ShiftLeft(b))
  {
  }

  lemma ShiftDisjoint(a: Word, b: Word)
    requires !Meets(a, b)
    ensures !Meets(ShiftLeft(a), ShiftLeft(b))
  {
    ShiftAnd(a.bits, b.bits);
  }

  lemma ShiftAnd(x: bv32, y: bv32)
    ensures (x << 1) & (y << 1) == (x & y) << 1
  {
  }

  lemma MeetsSwap(a: Word, b: Word)
    ensures Meets(a, b) <==> Meets(b, a)
  {
  }

  lemma MeetsSelf(a: Word)
    ensures Meets(a, a) <==> a != ZERO
  {
  }

  lemma OrBit(a: Word, b: Word, k: nat)
    ensures Bit(Or(a, b), k) <==> Bit(a, k) || Bit(b, k)
  {
    OrMeets(a, b, Mask(k));
  }

  lemma OrMeets(a: Word, b: Word, m: Word)
    ensures Meets(Or(a, b), m) <==> Meets(a, m) || Meets(b, m)
  {
    OrBitsMeet(a.bits, b.bits, Or(a, b).bits, m.bits);
  }

  lemma OrBitsMeet(x: bv32, y: bv32, z: bv32, m: bv32)
    requires z == x | y
    ensures BitsMeet(z, m) <==> BitsMeet(x, m) || BitsMeet(y, m)
  {
    Distribute(x, y, m);
  }

  lemma Distribute(x: bv32, y: bv32, m: bv32)
    ensures BitsMeet(x | y, m) <==> BitsMeet(x, m) || BitsMeet(y, m)
  {
    assert (x | y) & m == (x & m) | (y & m);
    OrZero(x & m, y & m);
  }

  lemma OrZero(x: bv32, y: bv32)
    ensures x | y == 0 <==> x == 0 && y == 0
  {
  }

  lemma {:induction false} ZeroMeets(m: Word)
    ensures !Meets(ZERO, m)
  {
  }

  /** What SETBIT(r, t) does to a row, word by word. */
  ghost predicate BitIsSet(before: seq<Word>, after: seq<Word>, t: nat) {
    && |after| == |before|
    && t < 32 * |before|
    && after[t / 32] == Or(before[t / 32], Mask(t % 32))
    && forall w :: 0 <= w < |before| && w != t / 32 ==> after[w] == before[w]
  }

  lemma HasAfterSet(before: seq<Word>, after: seq<Word>, t: nat, u: nat)
    requires BitIsSet(before, after, t)
    ensures Has(after, u) <==> Has(before, u) || u == t
  {
    if u < 32 * |before| && u / 32 == t / 32 {
      var w, j, k := t / 32, t % 32, u % 32;
      OrBit(before[w], Mask(j), k);
      MaskBit(j, k);
    }
  }

  lemma RowSetBit(before: seq<Word>, after: seq<Word>, t: nat)
    requires BitIsSet(before, after, t)
    ensures RowSet(after) == RowSet(before) + {t}
  {
    forall u: nat ensures Has(after, u) <==> Has(before, u) || u == t {
      HasAfterSet(before, after, t, u);
    }
  }

  ghost predicate IsOr(a: seq<Word>, b: seq<Word>, c: seq<Word>) {
    |a| == |b| == |c| && forall k :: 0 <= k < |a| ==> c[k] == Or(a[k], b[k])
  }

  lemma HasAfterOr(a: seq<Word>, b: seq<Word>, c: seq<Word>, u: nat)
    requires IsOr(a, b, c)
    ensures Has(c, u) <==> Has(a, u) || Has(b, u)
  {
    if u < 32 * |a| {
      var w, k := u / 32, u % 32;
      assert c[w] == Or(a[w], b[w]);
      OrBit(a[w], b[w], k);
    }
  }

  lemma RowSetOr(a: seq<Word>, b: seq<Word>, c: seq<Word>)
    requires IsOr(a, b, c)
    ensures RowSet(c) == RowSet(a) + RowSet(b)
  {
    forall u: nat ensures Has(c, u) <==> Has(a, u) || Has(b, u) {
      HasAfterOr(a, b, c, u);
    }
  }

  lemma RowSetZero(row: seq<Word>)
    requires forall k :: 0 <= k < |row| ==> row[k] == ZERO
    ensures RowSet(row) == {}
  {
    forall u: nat ensures !Has(row, u) {
      if u < 32 * |row| {
        ZeroMeets(Mask(u % 32));
      }
    }
  }

  /** Where row number i of a table starts, when its rows are `size` words long. */
  function Start(i: nat, size: nat): nat {
    if i == 0 then 0 else Start(i - 1, size) + size
  }

  lemma StartIsProduct(i: nat, size: nat)
    ensures Start(i, size) == i * size
  {
    if i > 0 {
      StartIsProduct(i - 1, size);
      assert i * size == (i - 1) * size + size;
    }
  }

  /** The pointer to row n of a table, or past its end: `R + n*rowsize`. */
  method RowPointer(n: nat, size: nat) returns (p: nat)
    ensures p == Start(n, size)
  {
    StartIsProduct(n, size);
    p := n * size;
  }

  lemma StartGrows(i: nat, j: nat, size: nat)
    requires i < j
    ensures Start(i, size) + size <= Start(j, size)
  {
    if i < j - 1 {
      StartGrows(i, j - 1, size);
    }
  }

  lemma RowsApart(i: nat, j: nat, size: nat)
    requires i != j
    ensures Start(i, size) + size <= Start(j, size) || Start(j, size) + size <= Start(i, size)
  {
    if i < j {
      StartGrows(i, j, size);
    } else {
      StartGrows(j, i, size);
    }
  }

  lemma PointerInside(i: nat, n: nat, size: nat)
    requires size > 0
    ensures Start(i, size) < Start(n, size) <==> i < n
  {
    if i < n {
      StartGrows(i, n, size);
    } else if n < i {
      StartGrows(n, i, size);
    }
  }

  /** Row number i of a table of words, as a set of bit numbers. */
  ghost function Row(words: seq<Word>, size: nat, i: nat): set<nat> {
    if Start(i, size) + size <= |words| then RowSet(words[Start(i, size)..Start(i, size) + size]) else {}
  }

  /** The first n rows of a table, as sets. */
  ghost function Rows(words: seq<Word>, size: nat, n: nat): (rows: seq<set<nat>>)
    ensures |rows| == n
  {
    seq(n, i requires 0 <= i < n => Row(words, size, i))
  }

  /** Writing inside row j changes that row and leaves every other row alone. */
  lemma RowWritten(before: seq<Word>, after: seq<Word>, size: nat, n: nat, j: nat)
    requires |before| == |after| && j < n && Start(n, size) <= |before|
    requires forall k :: 0 <= k < |before| && !(Start(j, size) <= k < Start(j, size) + size) ==> after[k] == before[k]
    ensures Rows(after, size, n) == Rows(before, size, n)[j := Row(after, size, j)]
  {
    forall i | 0 <= i < n && i != j ensures Row(after, size, i) == Row(before, size, i) {
      RowsApart(i, j, size);
      StartGrows(i, n, size);
      assert before[Start(i, size)..Start(i, size) + size] == after[Start(i, size)..Start(i, size) + size];
    }
  }

  /** `word & mask` reads bit 32 * w + b of row j, when word is word w of that row and mask is bit b. */
  lemma TestedBit(words: seq<Word>, size: nat, n: nat, j: nat, w: nat, b: nat)
    requires j < n && Start(n, size) <= |words| && w < size && b < 32
    ensures Start(j, size) + w < |words|
    ensures Meets(words[Start(j, size) + w], Mask(b)) <==> 32 * w + b in Rows(words, size, n)[j]
  {
    hide RowSet, Mask;
    StartGrows(j, n, size);
    var r := words[Start(j, size)..Start(j, size) + size];
    assert r[w] == words[Start(j, size) + w];
    RowHas(r, w, b);
  }

  lemma RowHas(row: seq<Word>, w: nat, b: nat)
    requires w < |row| && b < 32
    ensures Meets(row[w], Mask(b)) <==> 32 * w + b in RowSet(row)
  {
    assert Bit(row[w], b) <==> Has(row, 32 * w + b);
  }

  /** SETBIT(r, t). */
  method SetWordBit(words: array<Word>, rowp: nat, t: nat, ghost size: nat)
    requires rowp + size <= words.Length && t < 32 * size
    modifies words
    ensures RowSet(words[rowp..rowp + size]) == old(RowSet(words[rowp..rowp + size])) + {t}
    ensures forall k :: 0 <= k < words.Length && !(rowp <= k < rowp + size) ==> words[k] == old(words[k])
  {
    ghost var before := words[rowp..rowp + size];
    var w, k := t / 32, t % 32;
    words[rowp + w] := Or(words[rowp + w], Mask(k));
    RowSetBit(before, words[rowp..rowp + size], t);
  }

  /** SETBIT(rowp, t), where rowp points at row j of a table. */
  method SetBit(words: array<Word>, rowp: nat, t: nat, ghost size: nat, ghost n: nat, ghost j: nat)
    requires j < n && rowp == Start(j, size) && Start(n, size) <= words.Length
    requires t < 32 * size
    modifies words
    ensures Rows(words[..], size, n) == old(Rows(words[..], size, n)[j := Rows(words[..], size, n)[j] + {t}])
  {
    StartGrows(j, n, size);
    ghost var before := words[..];
    SetWordBit(words, rowp, t, size);
    RowWritten(before, words[..], size, n, j);
  }

  lemma SliceIsOr(a: seq<Word>, b: seq<Word>, words: seq<Word>, p: nat, size: nat)
    requires |a| == |b| == size && p + size <= |words|
    requires forall l :: p <= l < p + size ==> words[l] == Or(a[l - p], b[l - p])
    ensures IsOr(a, b, words[p..p + size])
  {
    hide Or;
  }

  /** `*fp1++ |= *fp2++`, size times, within one array of words. */
  method OrWords(words: array<Word>, fp1: nat, fp2: nat, size: nat)
    requires fp1 + size <= words.Length && fp2 + size <= words.Length
    requires fp1 == fp2 || fp1 + size <= fp2 || fp2 + size <= fp1
    modifies words
    ensures IsOr(old(words[fp1..fp1 + size]), old(words[fp2..fp2 + size]), words[fp1..fp1 + size])
    ensures forall l :: 0 <= l < words.Length && !(fp1 <= l < fp1 + size) ==> words[l] == old(words[l])
  {
    hide Or, IsOr;
    ghost var a, b := words[fp1..fp1 + size], words[fp2..fp2 + size];
    var k := 0;
    while k < size
      invariant 0 <= k <= size
      invariant forall l :: fp1 <= l < fp1 + k ==> words[l] == Or(a[l - fp1], b[l - fp1])
      invariant forall l :: 0 <= l < words.Length && !(fp1 <= l < fp1 + k) ==> words[l] == old(words[l])
    {
      assert words[fp1 + k] == a[k] && words[fp2 + k] == b[k];
      words[fp1 + k] := Or(words[fp1 + k], words[fp2 + k]);
      k := k + 1;
    }
    SliceIsOr(a, b, words[..], fp1, size);
  }

  /** The same loop between two arrays. */
  method OrWordsFrom(words: array<Word>, fp1: nat, from: array<Word>, fp2: nat, size: nat)
    requires words != from
    requires fp1 + size <= words.Length && fp2 + size <= from.Length
    modifies words
    ensures IsOr(old(words[fp1..fp1 + size]), from[fp2..fp2 + size], words[fp1..fp1 + size])
    ensures forall l :: 0 <= l < words.Length && !(fp1 <= l < fp1 + size) ==> words[l] == old(words[l])
  {
    hide Or, IsOr;
    ghost var a, b := words[fp1..fp1 + size], from[fp2..fp2 + size];
    var k := 0;
    while k < size
      invariant 0 <= k <= size
      invariant forall l :: fp1 <= l < fp1 + k ==> words[l] == Or(a[l - fp1], b[l - fp1])
      invariant forall l :: 0 <= l < words.Length && !(fp1 <= l < fp1 + k) ==> words[l] == old(words[l])
    {
      assert words[fp1 + k] == a[k] && from[fp2 + k] == b[k];
      words[fp1 + k] := Or(words[fp1 + k], from[fp2 + k]);
      k := k + 1;
    }
    SliceIsOr(a, b, words[..], fp1, size);
  }

  /** `*fp2++ = *fp1++`, size times. */
  method CopyWords(words: array<Word>, fp2: nat, fp1: nat, size: nat)
    requires fp1 + size <= words.Length && fp2 + size <= words.Length
    requires fp1 + size <= fp2 || fp2 + size <= fp1
    modifies words
    ensures words[fp2..fp2 + size] == old(words[fp1..fp1 + size])
    ensures forall l :: 0 <= l < words.Length && !(fp2 <= l < fp2 + size) ==> words[l] == old(words[l])
  {
    ghost var b := words[fp1..fp1 + size];
    var k := 0;
    while k < size
      invariant 0 <= k <= size
      invariant forall l :: fp2 <= l < fp2 + k ==> words[l] == b[l - fp2]
      invariant forall l :: 0 <= l < words.Length && !(fp2 <= l < fp2 + k) ==> words[l] == old(words[l])
    {
      words[fp2 + k] := words[fp1 + k];
      k := k + 1;
    }
  }

  /** ORs row i of a table into row j of it. */
  method OrRow(words: array<Word>, fp1: nat, fp2: nat, size: nat, ghost n: nat, ghost j: nat, ghost i: nat)
    requires j < n && i < n && Start(n, size) <= words.Length
    requires fp1 == Start(j, size) && fp2 == Start(i, size)
    modifies words
    ensures Rows(words[..], size, n) ==
            old(Rows(words[..], size, n)[j := Rows(words[..], size, n)[j] + Rows(words[..], size, n)[i]])
  {
    StartGrows(j, n, size);
    StartGrows(i, n, size);
    if i != j {
      RowsApart(i, j, size);
    }
    ghost var before, a, b := words[..], words[fp1..fp1 + size], words[fp2..fp2 + size];
    assert Row(before, size, j) == RowSet(a) && Row(before, size, i) == RowSet(b);
    OrWords(words, fp1, fp2, size);
    RowSetOr(a, b, words[fp1..fp1 + size]);
    RowWritten(before, words[..], size, n, j);
  }

  /** ORs row i of another table, of m rows, into row j. */
  method OrRowFrom(words: array<Word>, fp1: nat, from: array<Word>, fp2: nat, size: nat,
                   ghost n: nat, ghost j: nat, ghost m: nat, ghost i: nat)
    requires words != from
    requires j < n && fp1 == Start(j, size) && Start(n, size) <= words.Length
    requires i < m && fp2 == Start(i, size) && Start(m, size) <= from.Length
    modifies words
    ensures Rows(words[..], size, n) ==
            old(Rows(words[..], size, n)[j := Rows(words[..], size, n)[j] + Rows(from[..], size, m)[i]])
  {
    StartGrows(j, n, size);
    StartGrows(i, m, size);
    ghost var before, a, b := words[..], words[fp1..fp1 + size], from[fp2..fp2 + size];
    assert Row(before, size, j) == RowSet(a) && Row(from[..], size, i) == RowSet(b);
    OrWordsFrom(words, fp1, from, fp2, size);
    RowSetOr(a, b, words[fp1..fp1 + size]);
    RowWritten(before, words[..], size, n, j);
  }

  /** Copies row i of a table to row j of it. */
  method CopyRow(words: array<Word>, fp2: nat, fp1: nat, size: nat, ghost n: nat, ghost j: nat, ghost i: nat)
    requires j < n && i < n && i != j && Start(n, size) <= words.Length
    requires fp2 == Start(j, size) && fp1 == Start(i, size)
    modifies words
    ensures Rows(words[..], size, n) == old(Rows(words[..], size, n)[j := Rows(words[..], size, n)[i]])
  {
    StartGrows(j, n, size);
    StartGrows(i, n, size);
    RowsApart(i, j, size);
    ghost var before, b := words[..], words[fp1..fp1 + size];
    assert Row(before, size, i) == RowSet(b);
    CopyWords(words, fp2, fp1, size);
    RowWritten(before, words[..], size, n, j);
  }

  /** A table of zero words holds empty rows; this is what NEW2 hands out. */
  lemma ZeroTable(words: seq<Word>, size: nat, n: nat)
    requires Start(n, size) <= |words|
    requires forall k :: 0 <= k < |words| ==> words[k] == ZERO
    ensures Rows(words, size, n) == seq(n, i => {})
  {
    forall i | 0 <= i < n ensures Row(words, size, i) == {} {
      StartGrows(i, n, size);
      RowSetZero(words[Start(i, size)..Start(i, size) + size]);
    }
  }

  /** The word pointer and the mask step together from one bit to the next. */
  method NextBit(word: nat, mask: Word, ghost b: nat) returns (word': nat, mask': Word, ghost b': nat)
    requires b < 32 && mask == Mask(b)
    ensures 32 * word' + b' == 32 * word + b + 1
    ensures b' < 32 && mask' == Mask(b')
  {
    MaskLimit(b + 1);
    word', mask', b' := word, ShiftLeft(mask), b + 1;
    if mask' == ZERO {
      word', mask', b' := word + 1, ONE, 0;
    }
  }
}
