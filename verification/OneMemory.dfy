/** When phrcmp of src/code2.c is transitive if the memory behind the third phrase does not change
    between the two comparisons that read it. */
module OneMemory {
  import opened Bytes
  import opened Notes
  import opened PhraseCompare

  /** r is what comparing a with b gives when `memory` lies where b is. */
  ghost predicate BytesWith(a: seq<int>, b: seq<int>, memory: seq<int>, r: int) {
    IsMemory(b, memory, |a|) && r == CmpMemory(a, memory, |a| - |b|)
  }

  ghost predicate XactWith(n1: Note, n2: Note, memory: seq<int>, r: int) {
    if IsTie(n1, n2) then BytesWith(n1.bytes, n2.bytes, memory, r) else XactMay(n1, n2, r)
  }

  /** r is what comparing the phrases gives when mem[i] lies where the message of b[i] is. */
  ghost predicate PhraseWith(a: seq<Note>, b: seq<Note>, mem: seq<seq<int>>, r: int)
    requires |mem| == |b|
  {
    if a == [] then r == (if b == [] then 0 else -1)
    else if b == [] then r == 1
    else
      var rest := mem[1..];
      exists c :: XactWith(a[0], b[0], mem[0], c) && if c != 0 then r == c else PhraseWith(a[1..], b[1..], rest, r)
  }

  /** What may come out is what comes out with some memory. */
  lemma {:induction false} MayIsWith(a: seq<Note>, b: seq<Note>, r: int)
    ensures PhraseMay(a, b, r) <==> exists mem :: |mem| == |b| && PhraseWith(a, b, mem, r)
    decreases |b|
  {
    hide IsTie, BytesWith, BytesMay;
    if a == [] || b == [] {
      var mem: seq<seq<int>> := seq(|b|, _ => []);
      assert PhraseWith(a, b, mem, r) <==> PhraseMay(a, b, r);
    } else {
      MayIsWith(a[1..], b[1..], r);
      forall c ensures XactMay(a[0], b[0], c) <==> exists m :: XactWith(a[0], b[0], m, c) {
        NoteMayIsWith(a[0], b[0], c);
      }
      if c :| XactMay(a[0], b[0], c) && if c != 0 then r == c else PhraseMay(a[1..], b[1..], r) {
        var m :| XactWith(a[0], b[0], m, c);
        var rest: seq<seq<int>> := seq(|b| - 1, _ => []);
        if c == 0 {
          rest :| |rest| == |b[1..]| && PhraseWith(a[1..], b[1..], rest, r);
        }
        var all := [m] + rest;
        assert all[0] == m && all[1..] == rest;
        assert PhraseWith(a, b, all, r);
      }
      if mem :| |mem| == |b| && PhraseWith(a, b, mem, r) {
        var c :| XactWith(a[0], b[0], mem[0], c) &&
          if c != 0 then r == c else PhraseWith(a[1..], b[1..], mem[1..], r);
        assert XactMay(a[0], b[0], c);
        assert c == 0 ==> |mem[1..]| == |b[1..]| && PhraseWith(a[1..], b[1..], mem[1..], r);
      }
    }
  }

  lemma NoteMayIsWith(n1: Note, n2: Note, c: int)
    ensures XactMay(n1, n2, c) <==> exists m :: XactWith(n1, n2, m, c)
  {
    hide CmpMemory, LexCmp, ExactKey;
    if IsTie(n1, n2) {
      assert forall m :: XactWith(n1, n2, m, c) <==>
        IsMemory(n2.bytes, m, |n1.bytes|) && c == CmpMemory(n1.bytes, m, |n1.bytes| - |n2.bytes|);
    } else {
      var none: seq<int> := [];
      assert XactWith(n1, n2, none, c) <==> XactMay(n1, n2, c);
    }
  }

  // ---------- Messages ----------

  /** With the same bytes behind a common beginning, y can be found below them and x not: they differ
      where y is smaller, or y goes on behind x with a byte that can be exceeded. */
  predicate MayBeBelow(y: seq<int>, x: seq<int>) {
    !SignIsSettled(y, x) || exists i :: 0 <= i < |y| && i < |x| && y[i] < x[i] && y[..i] == x[..i]
  }

  lemma Above(x: seq<int>, c: seq<int>, memory: seq<int>)
    requires IsMemory(c, memory, |x|) && LexCmp(x, c) > 0 && (c <= x ==> x <= memory)
    ensures CmpMemory(x, memory, |x| - |c|) > 0
  {
    hide CmpMemory, LexCmp;
    var r := CmpMemory(x, memory, |x| - |c|);
    if c <= x {
      assert x == x[..|x|] == memory[..|x|];
      CmpAt(x, memory, |x| - |c|, |x|);
      assert c[..|c|] == x[..|c|];
      LexAt(x, c, |c|);
    } else {
      assert BytesMay(x, c, r);
      BytesSign(x, c, r);
      LexZero(x, c);
    }
  }

  lemma BelowAlways(y: seq<int>, c: seq<int>, memory: seq<int>)
    requires IsMemory(c, memory, |y|) && LexCmp(y, c) < 0
    ensures CmpMemory(y, memory, |y| - |c|) < 0
  {
    hide CmpMemory, LexCmp;
    if c <= y {
      assert c[..|c|] == y[..|c|];
      LexAt(y, c, |c|);
    }
    assert BytesMay(y, c, CmpMemory(y, memory, |y| - |c|));
    BytesSign(y, c, CmpMemory(y, memory, |y| - |c|));
  }

  /** Behind x only the largest byte follows. */
  lemma BelowHigh(y: seq<int>, x: seq<int>, memory: seq<int>, rest: int)
    requires !SignIsSettled(y, x) && |y| <= |memory| && x <= memory && forall i :: 0 <= i < |y| ==> IsByte(y[i])
    requires forall i :: |x| <= i < |memory| ==> memory[i] == 255
    ensures CmpMemory(y, memory, rest) < 0
  {
    var i :| |x| <= i < |y| && y[i] < 255;
    var j := Differ(y, memory);
    assert forall l :: 0 <= l < j ==> y[l] == y[..j][l] == memory[..j][l] == memory[l];
    assert forall l :: 0 <= l < |x| ==> y[l] == x[l] == memory[l];
    CmpAt(y, memory, rest, j);
  }

  /** Some memory behind c is above y and not above x. */
  lemma BytesBetween(y: seq<int>, c: seq<int>, x: seq<int>) returns (memory: seq<int>, s: int, t: int)
    requires (forall i :: 0 <= i < |x| ==> IsByte(x[i])) && forall i :: 0 <= i < |y| ==> IsByte(y[i])
    requires LexCmp(x, c) > 0
    requires LexCmp(y, c) < 0 || (!SignIsSettled(y, c) && (c <= x ==> MayBeBelow(y, x)))
    ensures BytesWith(y, c, memory, s) && BytesWith(x, c, memory, t) && s < 0 && t > 0
  {
    hide CmpMemory, LexCmp;
    var n := |x| + |y|;
    var high, low := seq(n, _ => 255), seq(n, _ => 0);
    var front := if c <= x then x else c;
    memory := front + if LexCmp(y, c) < 0 || (c <= x && SignIsSettled(y, x)) then low else high;
    s, t := CmpMemory(y, memory, |y| - |c|), CmpMemory(x, memory, |x| - |c|);
    assert c <= memory;
    Above(x, c, memory);
    if LexCmp(y, c) < 0 {
      BelowAlways(y, c, memory);
    } else if c <= x && SignIsSettled(y, x) {
      var i :| 0 <= i < |y| && i < |x| && y[i] < x[i] && y[..i] == x[..i];
      assert y[..i] == memory[..i];
      CmpAt(y, memory, |y| - |c|, i);
    } else {
      BelowHigh(y, front, memory, |y| - |c|);
    }
  }

  /** There is no other way: one memory above y and not above x. */
  lemma BytesLieBetween(y: seq<int>, c: seq<int>, x: seq<int>, memory: seq<int>, s: int, t: int)
    requires (forall i :: 0 <= i < |x| ==> IsByte(x[i])) && BytesWith(y, c, memory, s) && BytesWith(x, c, memory, t)
    requires s < 0 && t > 0
    ensures LexCmp(x, c) > 0
    ensures LexCmp(y, c) < 0 || (!SignIsSettled(y, c) && (c <= x ==> MayBeBelow(y, x)))
  {
    hide CmpMemory, LexCmp, MayBeBelow;
    assert BytesMay(y, c, s) && BytesMay(x, c, t);
    BytesSign(y, c, s);
    BytesSign(x, c, t);
    LexZero(x, c);
    if !SignIsSettled(x, c) {
      assert c[..|c|] == x[..|c|];
      LexAt(x, c, |c|);
    }
    if LexCmp(y, c) >= 0 && c <= x {
      BothBehind(y, c, x, memory);
    }
  }

  /** Where a first differs from memory. */
  lemma FirstDifference(a: seq<int>, memory: seq<int>, rest: int) returns (i: nat)
    requires |a| <= |memory|
    ensures i <= |a| && forall l :: 0 <= l < i ==> a[l] == memory[l]
    ensures CmpMemory(a, memory, rest) == if i == |a| then rest else a[i] - memory[i]
  {
    i := Differ(a, memory);
    CmpAt(a, memory, rest, i);
    assert forall l :: 0 <= l < i ==> a[l] == a[..i][l] == memory[..i][l] == memory[l];
  }

  lemma SmallerAt(y: seq<int>, x: seq<int>, k: nat)
    requires k < |y| && k < |x| && y[k] < x[k] && forall l :: 0 <= l < k ==> y[l] == x[l]
    ensures MayBeBelow(y, x)
  {
    assert y[..k] == x[..k];
  }

  lemma BothBehind(y: seq<int>, c: seq<int>, x: seq<int>, memory: seq<int>)
    requires IsMemory(c, memory, |y|) && IsMemory(c, memory, |x|) && c <= y && |c| < |y| && c <= x
    requires CmpMemory(y, memory, |y| - |c|) < 0 && CmpMemory(x, memory, |x| - |c|) > 0
    ensures MayBeBelow(y, x)
  {
    hide CmpMemory, MayBeBelow;
    var i := FirstDifference(y, memory, |y| - |c|);
    var j := FirstDifference(x, memory, |x| - |c|);
    assert forall l :: 0 <= l < |c| ==> y[l] == c[l] == memory[l];
    assert i < |y| && y[i] < memory[i] && i >= |c| && IsByte(memory[i]);
    if j == |x| && i >= j {
      PrefixOf(y, x, i);
    } else {
      SmallerAt(y, x, if i <= j && i < |x| then i else j);
    }
  }

  lemma PrefixOf(y: seq<int>, x: seq<int>, i: nat)
    requires |x| <= i < |y| && y[i] < 255 && forall l :: 0 <= l < |x| ==> x[l] == y[l]
    ensures MayBeBelow(y, x)
  {
    assert x == y[..|x|];
  }

  // ---------- Notes ----------

  predicate OfBytes(n: Note) {
    forall k :: 0 <= k < |n.bytes| ==> IsByte(n.bytes[k])
  }

  /** With one memory behind z, y may be found before z and x after it. */
  ghost predicate NoteBetween(y: Note, z: Note, x: Note) {
    && LexCmp(ExactKey(x), ExactKey(z)) > 0
    && (LexCmp(ExactKey(y), ExactKey(z)) < 0 ||
      (!IsSettled(y, z) && (IsTie(x, z) && z.bytes <= x.bytes ==> MayBeBelow(y.bytes, x.bytes))))
  }

  lemma NoteIsBetween(y: Note, z: Note, x: Note) returns (memory: seq<int>, s: int, t: int)
    requires OfBytes(x) && OfBytes(y) && NoteBetween(y, z, x)
    ensures XactWith(y, z, memory, s) && XactWith(x, z, memory, t) && s < 0 && t > 0
  {
    hide LexCmp, ExactKey, MayBeBelow, SignIsSettled, CmpMemory;
    if IsTie(y, z) && IsTie(x, z) {
      TieComparesBytes(y, z);
      TieComparesBytes(x, z);
      memory, s, t := BytesBetween(y.bytes, z.bytes, x.bytes);
    } else {
      t := MayBeAfter(x, z);
      s := MayBeBefore(y, z);
      if IsTie(y, z) {
        NoteMayIsWith(y, z, s);
        memory :| XactWith(y, z, memory, s);
      } else {
        NoteMayIsWith(x, z, t);
        memory :| XactWith(x, z, memory, t);
      }
    }
  }

  lemma MayBeAfter(x: Note, z: Note) returns (t: int)
    requires OfBytes(x) && LexCmp(ExactKey(x), ExactKey(z)) > 0
    ensures XactMay(x, z, t) && t > 0
  {
    hide LexCmp, ExactKey, XactMay;
    t := KeyOrderIsPossible(x, z);
  }

  lemma MayBeBefore(y: Note, z: Note) returns (s: int)
    requires OfBytes(y) && (LexCmp(ExactKey(y), ExactKey(z)) < 0 || !IsSettled(y, z))
    ensures XactMay(y, z, s) && s < 0
  {
    hide LexCmp, ExactKey, XactMay, SignIsSettled, BytesMay;
    if LexCmp(ExactKey(y), ExactKey(z)) < 0 {
      s := KeyOrderIsPossible(y, z);
    } else {
      s := Unsettled(y.bytes, z.bytes);
      TieMay(y, z, s);
    }
  }

  lemma NoteLiesBetween(y: Note, z: Note, x: Note, memory: seq<int>, s: int, t: int)
    requires OfBytes(x) && XactWith(y, z, memory, s) && XactWith(x, z, memory, t) && s < 0 && t > 0
    ensures NoteBetween(y, z, x)
  {
    hide LexCmp, ExactKey, MayBeBelow, SignIsSettled, CmpMemory;
    LexZero(ExactKey(x), ExactKey(z));
    LexZero(ExactKey(y), ExactKey(z));
    if IsTie(y, z) && IsTie(x, z) {
      TieComparesBytes(y, z);
      TieComparesBytes(x, z);
      BytesLieBetween(y.bytes, z.bytes, x.bytes, memory, s, t);
    } else {
      WithIsMay(y, z, memory, s);
      WithIsMay(x, z, memory, t);
      AfterOnlyLater(x, z, t);
      XactSign(y, z, s);
    }
  }

  lemma WithIsMay(n1: Note, n2: Note, memory: seq<int>, r: int)
    requires XactWith(n1, n2, memory, r)
    ensures XactMay(n1, n2, r)
  {
    hide LexCmp, ExactKey;
  }

  /** Wherever x is found to come after z, its key is the larger one. */
  lemma AfterOnlyLater(x: Note, z: Note, t: int)
    requires XactMay(x, z, t) && t > 0
    ensures LexCmp(ExactKey(x), ExactKey(z)) > 0
  {
    hide LexCmp, ExactKey, BytesMay;
    LexZero(ExactKey(x), ExactKey(z));
    XactSign(x, z, t);
    if IsTie(x, z) && !SignIsSettled(x.bytes, z.bytes) {
      TieComparesBytes(x, z);
      assert z.bytes[..|z.bytes|] == x.bytes[..|z.bytes|];
      LexAt(x.bytes, z.bytes, |z.bytes|);
    }
  }

  // ---------- Phrases ----------

  /** With one memory behind the notes of c, b may be found not to come after c, and a to come after it: at the
      first note where both keys differ from that of c, or at different notes. */
  ghost predicate MayLieBetween(b: seq<Note>, c: seq<Note>, a: seq<Note>)
    decreases |c|
  {
    if c == [] then b == [] && a != []
    else if b == [] then PhraseLex(a, c) > 0
    else if a == [] then false
    else if ExactKey(b[0]) == ExactKey(c[0]) then
      if ExactKey(a[0]) == ExactKey(c[0]) then MayLieBetween(b[1..], c[1..], a[1..])
      else LexCmp(ExactKey(a[0]), ExactKey(c[0])) > 0 && !IsSurelyAfter(b[1..], c[1..])
    else if ExactKey(a[0]) == ExactKey(c[0]) then
      (LexCmp(ExactKey(b[0]), ExactKey(c[0])) < 0 || !IsSettled(b[0], c[0])) && PhraseLex(a[1..], c[1..]) > 0
    else NoteBetween(b[0], c[0], a[0])
  }

  /** What a comparison with some memory tells about the keys. */
  lemma WithTells(a: seq<Note>, b: seq<Note>, mem: seq<seq<int>>, r: int)
    requires InBytes(a) && |mem| == |b| && PhraseWith(a, b, mem, r)
    ensures r > 0 ==> PhraseLex(a, b) > 0
    ensures r <= 0 ==> !IsSurelyAfter(a, b)
  {
    hide PhraseWith, PhraseMay, PhraseLex, InBytes, SignIsKnown;
    MayIsWith(a, b, r);
    MayComeAfter(a, b, r);
  }

  lemma FirstNotes(a: seq<Note>, b: seq<Note>, mem: seq<seq<int>>, r: int) returns (c: int)
    requires |mem| == |b| && PhraseWith(a, b, mem, r) && a != [] && b != []
    ensures XactWith(a[0], b[0], mem[0], c) && if c != 0 then r == c else PhraseWith(a[1..], b[1..], mem[1..], r)
    ensures c == 0 <==> ExactKey(a[0]) == ExactKey(b[0])
    ensures c < 0 ==> LexCmp(ExactKey(a[0]), ExactKey(b[0])) < 0 || !IsSettled(a[0], b[0])
    ensures c > 0 ==> LexCmp(ExactKey(a[0]), ExactKey(b[0])) > 0
  {
    hide XactWith, XactMay, LexCmp, ExactKey, IsSettled;
    c :| XactWith(a[0], b[0], mem[0], c) && if c != 0 then r == c else PhraseWith(a[1..], b[1..], mem[1..], r);
    WithIsMay(a[0], b[0], mem[0], c);
    XactSign(a[0], b[0], c);
    if c > 0 {
      AfterOnlyLater(a[0], b[0], c);
    }
  }

  lemma BytesBehind(a: seq<Note>)
    requires InBytes(a) && a != []
    ensures InBytes(a[1..]) && OfBytes(a[0])
  {
    assert forall i :: 0 <= i < |a[1..]| ==> a[1..][i] == a[i + 1];
  }

  lemma {:induction false} LiesBetween(b: seq<Note>, c: seq<Note>, a: seq<Note>, mem: seq<seq<int>>, s: int, t: int)
    requires InBytes(a) && InBytes(b) && |mem| == |c|
    requires PhraseWith(b, c, mem, s) && PhraseWith(a, c, mem, t) && s <= 0 && t > 0
    ensures MayLieBetween(b, c, a)
    decreases |c|
  {
    hide XactWith, LexCmp, ExactKey, PhraseLex, InBytes, SignIsKnown, OfBytes, NoteBetween, IsSettled, IsSurelyAfter;
    if c != [] && b == [] {
      WithTells(a, c, mem, t);
    } else if c != [] && a != [] {
      var i := FirstNotes(b, c, mem, s);
      var j := FirstNotes(a, c, mem, t);
      BytesBehind(a);
      BytesBehind(b);
      if i == 0 && j == 0 {
        LiesBetween(b[1..], c[1..], a[1..], mem[1..], s, t);
      } else if i == 0 {
        WithTells(b[1..], c[1..], mem[1..], s);
      } else if j == 0 {
        WithTells(a[1..], c[1..], mem[1..], t);
      } else {
        NoteLiesBetween(b[0], c[0], a[0], mem[0], s, t);
      }
    }
  }

  lemma Prepend(a: seq<Note>, c: seq<Note>, m: seq<int>, rest: seq<seq<int>>, i: int, r: int)
    requires a != [] && c != [] && |rest| == |c| - 1 && XactWith(a[0], c[0], m, i)
    requires if i != 0 then r == i else PhraseWith(a[1..], c[1..], rest, r)
    ensures PhraseWith(a, c, [m] + rest, r)
  {
    hide XactWith;
    var all := [m] + rest;
    assert all[0] == m && all[1..] == rest;
  }

  lemma MayBeLater(a: seq<Note>, c: seq<Note>) returns (mem: seq<seq<int>>, t: int)
    requires InBytes(a) && PhraseLex(a, c) > 0
    ensures |mem| == |c| && PhraseWith(a, c, mem, t) && t > 0
  {
    hide PhraseLex, PhraseMay, InBytes, PhraseWith;
    t := LexIsPossible(a, c);
    MayIsWith(a, c, t);
    mem :| |mem| == |c| && PhraseWith(a, c, mem, t);
  }

  lemma MayNotBeLater(b: seq<Note>, c: seq<Note>) returns (mem: seq<seq<int>>, s: int)
    requires InBytes(b) && !IsSurelyAfter(b, c)
    ensures |mem| == |c| && PhraseWith(b, c, mem, s) && s <= 0
  {
    hide PhraseMay, InBytes, PhraseWith, IsSurelyAfter;
    s := MayNotComeAfter(b, c);
    MayIsWith(b, c, s);
    mem :| |mem| == |c| && PhraseWith(b, c, mem, s);
  }

  /** Equal notes compare as equal with a memory that is long enough for another note too. */
  lemma EqualWith(x: Note, z: Note, y: Note, memory: seq<int>, s: int) returns (m: seq<int>)
    requires ExactKey(x) == ExactKey(z) && XactWith(y, z, memory, s)
    ensures XactWith(x, z, m, 0) && XactWith(y, z, m, s)
  {
    hide LexCmp, Detail, CmpMemory, XactMay;
    if IsTie(x, z) {
      TieComparesBytes(x, z);
      LexZero(ExactKey(x), ExactKey(z));
      LexZero(x.bytes, z.bytes);
      m := if IsTie(y, z) then memory else z.bytes;
      assert x.bytes == z.bytes == m[..|x.bytes|];
      CmpAt(x.bytes, m, 0, |x.bytes|);
    } else {
      m := memory;
      EqualGivesZero(x, z);
    }
  }

  lemma {:induction false} IsBetween(b: seq<Note>, c: seq<Note>, a: seq<Note>)
    returns (mem: seq<seq<int>>, s: int, t: int)
    requires InBytes(a) && InBytes(b) && MayLieBetween(b, c, a)
    ensures |mem| == |c| && PhraseWith(b, c, mem, s) && PhraseWith(a, c, mem, t) && s <= 0 && t > 0
    decreases |c|
  {
    hide XactWith, LexCmp, ExactKey, PhraseLex, InBytes, SignIsKnown, OfBytes, NoteBetween, IsSettled, IsSurelyAfter;
    if c == [] {
      mem, s, t := [], 0, 1;
    } else if b == [] {
      mem, t := MayBeLater(a, c);
      s := -1;
    } else {
      BytesBehind(a);
      BytesBehind(b);
      var m, rest, i, j;
      if ExactKey(b[0]) != ExactKey(c[0]) && ExactKey(a[0]) != ExactKey(c[0]) {
        m, s, t := NoteIsBetween(b[0], c[0], a[0]);
        rest := seq(|c| - 1, _ => []);
        i, j := s, t;
      } else if ExactKey(b[0]) == ExactKey(c[0]) && ExactKey(a[0]) == ExactKey(c[0]) {
        rest, s, t := IsBetween(b[1..], c[1..], a[1..]);
        m := BothEqual(b[0], c[0], a[0]);
        i, j := 0, 0;
      } else if ExactKey(b[0]) == ExactKey(c[0]) {
        rest, s := MayNotBeLater(b[1..], c[1..]);
        t := MayBeAfter(a[0], c[0]);
        m := EqualMay(b[0], c[0], a[0], t);
        i, j := 0, t;
      } else {
        rest, t := MayBeLater(a[1..], c[1..]);
        s := MayBeBefore(b[0], c[0]);
        m := EqualMay(a[0], c[0], b[0], s);
        i, j := s, 0;
      }
      mem := [m] + rest;
      Prepend(b, c, m, rest, i, s);
      Prepend(a, c, m, rest, j, t);
    }
  }

  lemma EqualMay(x: Note, z: Note, y: Note, s: int) returns (m: seq<int>)
    requires ExactKey(x) == ExactKey(z) && XactMay(y, z, s)
    ensures XactWith(x, z, m, 0) && XactWith(y, z, m, s)
  {
    hide ExactKey, XactMay, XactWith;
    NoteMayIsWith(y, z, s);
    var memory :| XactWith(y, z, memory, s);
    m := EqualWith(x, z, y, memory, s);
  }

  lemma BothEqual(y: Note, z: Note, x: Note) returns (m: seq<int>)
    requires ExactKey(x) == ExactKey(z) && ExactKey(y) == ExactKey(z)
    ensures XactWith(x, z, m, 0) && XactWith(y, z, m, 0)
  {
    hide ExactKey, XactMay, XactWith;
    EqualGivesZero(y, z);
    m := EqualMay(x, z, y, 0);
  }

  /** With this memory behind c, a is found not to come after b, nor b after c, but a to come after c. */
  ghost predicate Misleads(a: seq<Note>, b: seq<Note>, c: seq<Note>, mem: seq<seq<int>>, r: int, s: int, t: int) {
    && |mem| == |c| && PhraseMay(a, b, r) && PhraseWith(b, c, mem, s) && PhraseWith(a, c, mem, t)
    && r <= 0 && s <= 0 && t > 0
  }

  /** With one memory behind c, the comparison is transitive exactly if a surely comes after b, or no memory
      behind c leaves b no later than c and a later. */
  lemma TransWithOneMemory(a: seq<Note>, b: seq<Note>, c: seq<Note>)
    requires InBytes(a) && InBytes(b)
    ensures IsSurelyAfter(a, b) || !MayLieBetween(b, c, a) <==> forall mem, r, s, t :: !Misleads(a, b, c, mem, r, s, t)
  {
    hide PhraseMay, SignIsKnown, PhraseLex, InBytes, PhraseWith, MayLieBetween, IsSurelyAfter;
    if IsSurelyAfter(a, b) || !MayLieBetween(b, c, a) {
      forall mem, r, s, t ensures !Misleads(a, b, c, mem, r, s, t) {
        if Misleads(a, b, c, mem, r, s, t) {
          MayComeAfter(a, b, r);
          LiesBetween(b, c, a, mem, s, t);
        }
      }
    } else {
      var r := MayNotComeAfter(a, b);
      var mem, s, t := IsBetween(b, c, a);
      assert Misleads(a, b, c, mem, r, s, t);
    }
  }

  /** That is a weaker condition than for memory that may change: 1 5, 1 6 and 1 are compared transitively with one
      memory behind the last, but not with two. */
  lemma OneMemoryMatters()
    ensures var a, b, c := [TieNote([1, 5])], [TieNote([1, 6])], [TieNote([1])];
      !MayLieBetween(b, c, a) && PhraseLex(a, c) > 0 && !IsSurelyAfter(a, b) && !IsSurelyAfter(b, c)
  {
    var x, y, z := TieNote([1, 5]), TieNote([1, 6]), TieNote([1]);
    TieComparesBytes(x, z);
    TieComparesBytes(y, z);
    TieComparesBytes(x, y);
    LexZero(ExactKey(x), ExactKey(z));
    LexZero(ExactKey(y), ExactKey(z));
    LexZero(ExactKey(x), ExactKey(y));
    assert LexCmp([1, 5], [1]) == 1 && LexCmp([1, 6], [1]) == 1 && LexCmp([1, 5], [1, 6]) == -1;
    assert [1] <= [1, 5] && [1] <= [1, 6] && [1, 6][1] < 255;
    assert SignIsSettled([1, 6], [1, 5]) && !SignIsSettled([1, 6], [1]);
  }
}
