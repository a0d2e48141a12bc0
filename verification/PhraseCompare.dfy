/** phrcmp of src/code2.c: the comparison of phrases note by note, and how it agrees with their
    difference. */
module PhraseCompare {
  import opened Bytes
  import opened Notes
  import opened Phrases
  import opened PhraseOps

  /** The sign of the first difference of exact keys; a shorter phrase comes before its continuations. */
  ghost function PhraseLex(a: seq<Note>, b: seq<Note>): int {
    if a == [] then (if b == [] then 0 else -1)
    else if b == [] then 1
    else if LexCmp(ExactKey(a[0]), ExactKey(b[0])) != 0 then LexCmp(ExactKey(a[0]), ExactKey(b[0]))
    else PhraseLex(a[1..], b[1..])
  }

  /** Phrase a goes below b at place k: their exact keys agree before it, and there a ends or has the lower note. */
  ghost predicate GoesBelow(a: seq<Note>, b: seq<Note>, k: nat) {
    && k <= |a| && k < |b| && (forall i :: 0 <= i < k ==> ExactKey(a[i]) == ExactKey(b[i]))
    && (k < |a| ==> LexCmp(ExactKey(a[k]), ExactKey(b[k])) < 0)
  }

  lemma {:induction false} PhraseLexMeans(a: seq<Note>, b: seq<Note>)
    ensures PhraseLex(a, b) < 0 <==> exists k: nat :: GoesBelow(a, b, k)
  {
    hide LexCmp, ExactKey;
    if a == [] {
      assert b != [] ==> GoesBelow(a, b, 0);
    } else if b != [] {
      PhraseLexMeans(a[1..], b[1..]);
      LexZero(ExactKey(a[0]), ExactKey(b[0]));
      if ExactKey(a[0]) == ExactKey(b[0]) {
        if k: nat :| GoesBelow(a[1..], b[1..], k) {
          BelowBehind(a, b, k);
        }
        if k: nat :| GoesBelow(a, b, k) {
          assert k > 0;
          BelowBehind(a, b, k - 1);
        }
      } else {
        assert GoesBelow(a, b, 0) <==> LexCmp(ExactKey(a[0]), ExactKey(b[0])) < 0;
        assert forall k: nat :: GoesBelow(a, b, k) ==> k == 0;
      }
    }
  }

  lemma BelowBehind(a: seq<Note>, b: seq<Note>, k: nat)
    requires a != [] && b != [] && ExactKey(a[0]) == ExactKey(b[0])
    ensures GoesBelow(a, b, k + 1) <==> GoesBelow(a[1..], b[1..], k)
  {
    hide LexCmp, ExactKey;
    assert forall i :: 0 < i < |a| ==> a[i] == a[1..][i - 1];
    assert forall i :: 0 < i < |b| ==> b[i] == b[1..][i - 1];
    if GoesBelow(a, b, k + 1) {
      forall i | 0 <= i < k ensures ExactKey(a[1..][i]) == ExactKey(b[1..][i]) {
        assert ExactKey(a[i + 1]) == ExactKey(b[i + 1]);
      }
    }
  }

  ghost predicate SameKeys(a: seq<Note>, b: seq<Note>) {
    |a| == |b| && forall i :: 0 <= i < |a| ==> ExactKey(a[i]) == ExactKey(b[i])
  }

  /** r is what comparing the phrases may give. */
  ghost predicate PhraseMay(a: seq<Note>, b: seq<Note>, r: int) {
    if a == [] then r == (if b == [] then 0 else -1)
    else if b == [] then r == 1
    else exists c :: XactMay(a[0], b[0], c) && if c != 0 then r == c else PhraseMay(a[1..], b[1..], r)
  }

  /** The comparison of the first notes that differ has a settled sign. */
  ghost predicate SignIsKnown(a: seq<Note>, b: seq<Note>) {
    a == [] || b == [] || if ExactKey(a[0]) == ExactKey(b[0]) then SignIsKnown(a[1..], b[1..])
      else IsSettled(a[0], b[0])
  }

  lemma MayNext(a: seq<Note>, b: seq<Note>, i: nat, c: int, r: int)
    requires i < |a| && i < |b| && XactMay(a[i], b[i], c)
    requires if c != 0 then r == c else PhraseMay(a[i + 1..], b[i + 1..], r)
    ensures PhraseMay(a[i..], b[i..], r)
  {
    hide XactMay;
    assert a[i..][1..] == a[i + 1..] && b[i..][1..] == b[i + 1..];
  }

  /** phrcmp: zero exactly on phrases with the same exact keys; its sign is that of the first
      difference where it is known. */
  method PhrCmp(p1: Phrase, p2: Phrase) returns (r: int)
    requires p1.Linked() && p2.Linked()
    ensures PhraseMay(NotesOf(p1.nodes), NotesOf(p2.nodes), r)
    ensures r == 0 <==> SameKeys(NotesOf(p1.nodes), NotesOf(p2.nodes))
    ensures SignIsKnown(NotesOf(p1.nodes), NotesOf(p2.nodes)) ==>
      (r < 0 <==> PhraseLex(NotesOf(p1.nodes), NotesOf(p2.nodes)) < 0)
  {
    hide LexCmp, ExactKey, XactMay, PhraseMay, SignIsKnown, PhraseLex, SameKeys;
    ghost var a, b := NotesOf(p1.nodes), NotesOf(p2.nodes);
    ghost var i := 0;
    var n1, n2 := p1.pNotes, p2.pNotes;
    assert a[0..] == a && b[0..] == b;
    while n1 != null && n2 != null
      invariant 0 <= i <= |a| && i <= |b| && n1 == NodeAt(p1.nodes, i) && n2 == NodeAt(p2.nodes, i)
      invariant forall r' :: PhraseMay(a[i..], b[i..], r') ==> PhraseMay(a, b, r')
      decreases |a| - i
    {
      r := NtCmpXact(n1.note, n2.note);
      forall r' | if r != 0 then r' == r else PhraseMay(a[i + 1..], b[i + 1..], r') ensures PhraseMay(a, b, r') {
        MayNext(a, b, i, r, r');
      }
      if r != 0 {
        PhraseSign(a, b, r);
        return;
      }
      n1, n2, i := n1.next, n2.next, i + 1;
    }
    r := if n1 == null && n2 == null then 0 else if n1 == null then -1 else 1;
    MayEnd(a, b, i, r);
    PhraseSign(a, b, r);
  }

  lemma MayEnd(a: seq<Note>, b: seq<Note>, i: nat, r: int)
    requires i <= |a| && i <= |b| && (i == |a| || i == |b|)
    requires r == if i == |a| && i == |b| then 0 else if i == |a| then -1 else 1
    ensures PhraseMay(a[i..], b[i..], r)
  {
  }

  lemma {:induction false} PhraseSign(a: seq<Note>, b: seq<Note>, r: int)
    requires PhraseMay(a, b, r)
    ensures r == 0 <==> SameKeys(a, b)
    ensures SignIsKnown(a, b) ==> (r < 0 <==> PhraseLex(a, b) < 0)
  {
    hide LexCmp, ExactKey, XactMay, IsSettled;
    if a != [] && b != [] {
      var c :| XactMay(a[0], b[0], c) && if c != 0 then r == c else PhraseMay(a[1..], b[1..], r);
      XactSign(a[0], b[0], c);
      LexZero(ExactKey(a[0]), ExactKey(b[0]));
      assert SameKeys(a, b) <==> ExactKey(a[0]) == ExactKey(b[0]) && SameKeys(a[1..], b[1..]) by {
        KeysBehind(a, b);
      }
      if c == 0 {
        PhraseSign(a[1..], b[1..], r);
      }
    }
  }

  lemma KeysBehind(a: seq<Note>, b: seq<Note>)
    requires a != [] && b != []
    ensures SameKeys(a, b) <==> ExactKey(a[0]) == ExactKey(b[0]) && SameKeys(a[1..], b[1..])
  {
    hide ExactKey;
    assert forall i :: 0 < i < |a| ==> a[i] == a[1..][i - 1];
    assert forall i :: 0 < i < |b| ==> b[i] == b[1..][i - 1];
  }

  ghost predicate InBytes(notes: seq<Note>) {
    forall i :: 0 <= i < |notes| ==> forall k :: 0 <= k < |notes[i].bytes| ==> IsByte(notes[i].bytes[k])
  }

  /** The sign is right for every memory exactly where it is known. */
  lemma {:induction false} KnownExactly(a: seq<Note>, b: seq<Note>)
    requires InBytes(a)
    ensures SignIsKnown(a, b) <==> forall r :: PhraseMay(a, b, r) ==> (r < 0 <==> PhraseLex(a, b) < 0)
  {
    hide LexCmp, ExactKey, XactMay, SameKeys;
    if SignIsKnown(a, b) {
      forall r | PhraseMay(a, b, r) ensures r < 0 <==> PhraseLex(a, b) < 0 {
        PhraseSign(a, b, r);
      }
    } else {
      var r := UnknownSign(a, b);
    }
  }

  lemma {:induction false} UnknownSign(a: seq<Note>, b: seq<Note>) returns (r: int)
    requires InBytes(a) && !SignIsKnown(a, b)
    ensures PhraseMay(a, b, r) && r < 0 && PhraseLex(a, b) > 0
    decreases |a|
  {
    hide LexCmp, ExactKey, XactMay, SignIsSettled;
    if ExactKey(a[0]) == ExactKey(b[0]) {
      r := UnknownSign(a[1..], b[1..]);
      EqualGivesZero(a[0], b[0]);
      LexZero(ExactKey(a[0]), ExactKey(b[0]));
    } else {
      r := Unsettled(a[0].bytes, b[0].bytes);
      TieComparesBytes(a[0], b[0]);
      LexZero(ExactKey(a[0]), ExactKey(b[0]));
      assert XactMay(a[0], b[0], r) by { TieMay(a[0], b[0], r); }
    }
  }

  lemma EqualGivesZero(n1: Note, n2: Note)
    requires ExactKey(n1) == ExactKey(n2)
    ensures XactMay(n1, n2, 0)
  {
    hide LexCmp, Detail;
    LexZero(ExactKey(n1), ExactKey(n2));
    if IsTie(n1, n2) {
      TieComparesBytes(n1, n2);
      LexZero(n1.bytes, n2.bytes);
      assert n1.bytes == n2.bytes;
      assert IsMemory(n2.bytes, n2.bytes, |n1.bytes|);
      CmpAt(n1.bytes, n2.bytes, 0, |n1.bytes|);
    }
  }

  lemma TieComparesBytes(n1: Note, n2: Note)
    requires IsTie(n1, n2)
    ensures LexCmp(ExactKey(n1), ExactKey(n2)) == LexCmp(n1.bytes, n2.bytes)
  {
    hide LexCmp, Detail;
    KeyCmp(n1, n1.bytes, n2, n2.bytes);
  }

  lemma TieMay(n1: Note, n2: Note, r: int)
    requires IsTie(n1, n2) && BytesMay(n1.bytes, n2.bytes, r)
    ensures XactMay(n1, n2, r)
  {
  }

  // ---------- As an order ----------

  /** The comparison is a total order on the sequences of exact keys. */
  lemma {:induction false} PhraseLexZero(a: seq<Note>, b: seq<Note>)
    ensures PhraseLex(a, b) == 0 <==> SameKeys(a, b)
  {
    hide LexCmp, ExactKey;
    if a != [] && b != [] {
      LexZero(ExactKey(a[0]), ExactKey(b[0]));
      PhraseLexZero(a[1..], b[1..]);
      assert forall i :: 0 < i < |a| ==> a[i] == a[1..][i - 1];
      assert forall i :: 0 < i < |b| ==> b[i] == b[1..][i - 1];
    }
  }

  lemma {:induction false} PhraseLexTurned(a: seq<Note>, b: seq<Note>)
    ensures PhraseLex(b, a) == -PhraseLex(a, b)
  {
    hide LexCmp, ExactKey;
    if a != [] && b != [] {
      LexTurned(ExactKey(a[0]), ExactKey(b[0]));
      PhraseLexTurned(a[1..], b[1..]);
    }
  }

  lemma {:induction false} PhraseLexTrans(a: seq<Note>, b: seq<Note>, c: seq<Note>)
    requires PhraseLex(a, b) <= 0 && PhraseLex(b, c) <= 0
    ensures PhraseLex(a, c) <= 0
  {
    hide LexCmp, ExactKey;
    if a != [] && b != [] && c != [] {
      var x, y, z := ExactKey(a[0]), ExactKey(b[0]), ExactKey(c[0]);
      LexTrans(x, y, z);
      LexZero(x, y);
      LexZero(y, z);
      LexZero(x, z);
      if x == y == z {
        PhraseLexTrans(a[1..], b[1..], c[1..]);
      }
    }
  }

  /** Where the signs are known, turning the phrases around turns the sign. */
  lemma PhrCmpTurned(a: seq<Note>, b: seq<Note>, r: int, s: int)
    requires PhraseMay(a, b, r) && PhraseMay(b, a, s) && SignIsKnown(a, b) && SignIsKnown(b, a)
    ensures (r < 0 <==> s > 0) && (r == 0 <==> s == 0)
  {
    hide PhraseMay, SignIsKnown, PhraseLex, SameKeys;
    PhraseSign(a, b, r);
    PhraseSign(b, a, s);
    PhraseLexTurned(a, b);
    PhraseLexZero(a, b);
    PhraseLexZero(b, a);
  }

  /** Whatever the phrases, some memory gives the sign of the lexicographic comparison. */
  lemma {:induction false} LexIsPossible(a: seq<Note>, b: seq<Note>) returns (r: int)
    requires InBytes(a)
    ensures PhraseMay(a, b, r) && (r < 0 <==> PhraseLex(a, b) < 0) && (r == 0 <==> PhraseLex(a, b) == 0)
    decreases |a|
  {
    hide LexCmp, ExactKey, XactMay;
    if a == [] || b == [] {
      r := if a == b then 0 else if a == [] then -1 else 1;
    } else {
      var c := KeyOrderIsPossible(a[0], b[0]);
      if c == 0 {
        r := LexIsPossible(a[1..], b[1..]);
      } else {
        r := c;
      }
    }
  }

  lemma KeyOrderIsPossible(n1: Note, n2: Note) returns (r: int)
    requires forall k :: 0 <= k < |n1.bytes| ==> IsByte(n1.bytes[k])
    ensures XactMay(n1, n2, r)
    ensures var c := LexCmp(ExactKey(n1), ExactKey(n2)); (r < 0 <==> c < 0) && (r == 0 <==> c == 0)
  {
    hide LexCmp, ExactKey, BytesMay;
    if IsTie(n1, n2) {
      r := LexBytesPossible(n1.bytes, n2.bytes);
      TieComparesBytes(n1, n2);
    } else {
      r := LexCmp(ExactKey(n1), ExactKey(n2));
    }
  }

  /** Exactly there: it holds for all memories if and only if both signs are known. */
  lemma TurnedExactly(a: seq<Note>, b: seq<Note>)
    requires InBytes(a) && InBytes(b)
    ensures SignIsKnown(a, b) && SignIsKnown(b, a) <==>
      forall r, s :: PhraseMay(a, b, r) && PhraseMay(b, a, s) ==> (r < 0 <==> s > 0) && (r == 0 <==> s == 0)
  {
    hide PhraseMay, SignIsKnown, PhraseLex, InBytes;
    if SignIsKnown(a, b) && SignIsKnown(b, a) {
      forall r, s | PhraseMay(a, b, r) && PhraseMay(b, a, s) ensures (r < 0 <==> s > 0) && (r == 0 <==> s == 0) {
        PhrCmpTurned(a, b, r, s);
      }
    } else if !SignIsKnown(a, b) {
      var r, s := NegativeBothWays(a, b);
    } else {
      var s, r := NegativeBothWays(b, a);
    }
  }

  /** Where a sign is not known, the comparison may be negative both ways round. */
  lemma NegativeBothWays(a: seq<Note>, b: seq<Note>) returns (r: int, s: int)
    requires InBytes(a) && InBytes(b) && !SignIsKnown(a, b)
    ensures PhraseMay(a, b, r) && PhraseMay(b, a, s) && r < 0 && s < 0
  {
    hide PhraseMay, SignIsKnown, PhraseLex, InBytes;
    r := UnknownSign(a, b);
    s := LexIsPossible(b, a);
    PhraseLexTurned(a, b);
  }

  /** Where they are known, the comparison is transitive. */
  lemma PhrCmpTrans(a: seq<Note>, b: seq<Note>, c: seq<Note>, r: int, s: int, t: int)
    requires PhraseMay(a, b, r) && PhraseMay(b, c, s) && PhraseMay(a, c, t)
    requires SignIsKnown(a, b) && SignIsKnown(b, c) && SignIsKnown(a, c)
    requires r <= 0 && s <= 0
    ensures t <= 0
  {
    hide PhraseMay, SignIsKnown, PhraseLex, SameKeys;
    PhraseSign(a, b, r);
    PhraseSign(b, c, s);
    PhraseSign(a, c, t);
    PhraseLexZero(a, b);
    PhraseLexZero(b, c);
    PhraseLexZero(a, c);
    PhraseLexTrans(a, b, c);
  }

  /** Whatever lies in memory, a is found to come after b. */
  ghost predicate IsSurelyAfter(a: seq<Note>, b: seq<Note>) {
    SignIsKnown(a, b) && PhraseLex(a, b) > 0
  }

  /** Exactly when it is transitive for all memories: a does not come after c, or one of the premises
      cannot hold. */
  lemma TransExactly(a: seq<Note>, b: seq<Note>, c: seq<Note>)
    requires InBytes(a) && InBytes(b)
    ensures PhraseLex(a, c) <= 0 || IsSurelyAfter(a, b) || IsSurelyAfter(b, c) <==>
      forall r, s, t :: PhraseMay(a, b, r) && PhraseMay(b, c, s) && PhraseMay(a, c, t) && r <= 0 && s <= 0 ==> t <= 0
  {
    hide PhraseMay, SignIsKnown, PhraseLex, InBytes;
    if PhraseLex(a, c) <= 0 || IsSurelyAfter(a, b) || IsSurelyAfter(b, c) {
      forall r, s, t | PhraseMay(a, b, r) && PhraseMay(b, c, s) && PhraseMay(a, c, t) && r <= 0 && s <= 0
        ensures t <= 0
      {
        MayComeAfter(a, b, r);
        MayComeAfter(b, c, s);
        MayComeAfter(a, c, t);
      }
    } else {
      var r := MayNotComeAfter(a, b);
      var s := MayNotComeAfter(b, c);
      var t := LexIsPossible(a, c);
    }
  }

  lemma MayComeAfter(a: seq<Note>, b: seq<Note>, r: int)
    requires InBytes(a) && PhraseMay(a, b, r)
    ensures PhraseLex(a, b) <= 0 ==> r <= 0
    ensures IsSurelyAfter(a, b) ==> r > 0
  {
    hide PhraseMay, SignIsKnown, PhraseLex, InBytes;
    PhraseSign(a, b, r);
    PhraseLexZero(a, b);
    if !SignIsKnown(a, b) {
      var other := UnknownSign(a, b);
    }
  }

  lemma MayNotComeAfter(a: seq<Note>, b: seq<Note>) returns (r: int)
    requires InBytes(a) && !IsSurelyAfter(a, b)
    ensures PhraseMay(a, b, r) && r <= 0
  {
    hide PhraseMay, SignIsKnown, PhraseLex, InBytes;
    if SignIsKnown(a, b) {
      r := LexIsPossible(a, b);
    } else {
      r := UnknownSign(a, b);
    }
  }

  /** A pair of which both ways round may be negative: the message 1 5 against the message 1, when a larger
      byte follows the latter in memory. */
  lemma BothMayBeNegative()
    ensures var x, y := [TieNote([1, 5])], [TieNote([1])]; PhraseMay(x, y, -1) && PhraseMay(y, x, -1)
  {
    var x, y := TieNote([1, 5]), TieNote([1]);
    CmpAt([1, 5], [1, 6], 1, 1);
    assert IsMemory([1], [1, 6], 2) && [1, 5][..1] == [1, 6][..1];
    CmpAt([1], [1, 5], -1, 1);
    assert IsMemory([1, 5], [1, 5], 1) && [1][..1] == [1, 5][..1];
    assert XactMay(x, y, -1) && XactMay(y, x, -1);
    MayNext([x], [y], 0, -1, -1);
    MayNext([y], [x], 0, -1, -1);
  }

  // ---------- Equality and difference ----------

  /** Equal phrases leave nothing when one is taken from the other. */
  lemma {:induction false} EqualLeavesNothing(a: seq<Note>, b: seq<Note>)
    requires PhraseLex(a, b) == 0
    ensures Keys(a) == Keys(b) && Wanted(Minus, Keys(a), Keys(b)) == multiset{}
  {
    hide LexCmp, ExactKey;
    if a != [] {
      LexZero(ExactKey(a[0]), ExactKey(b[0]));
      EqualLeavesNothing(a[1..], b[1..]);
    }
  }

  /** Byte messages of one time are equal: then the order leaves nothing open. */
  predicate TiesAgree(notes: seq<Note>) {
    forall i, j :: 0 <= i < j < |notes| && IsTie(notes[i], notes[j]) ==> notes[i].bytes == notes[j].bytes
  }

  lemma KeyTells(a: Note, b: Note)
    requires ExactKey(a) == ExactKey(b)
    ensures a.clicks == b.clicks && (IsBytes(a) <==> IsBytes(b)) && (IsBytes(a) ==> a.bytes == b.bytes)
  {
    var u, v := [UType(a)] + if IsBytes(a) then a.bytes else Detail(a), [UType(b)] + if IsBytes(b) then b.bytes else Detail(b);
    assert ExactKey(a)[0] == a.clicks && ExactKey(b)[0] == b.clicks;
    assert ExactKey(a)[1..] == u && ExactKey(b)[1..] == v;
    assert u[0] == UType(a) && v[0] == UType(b);
    if IsBytes(a) {
      assert u[1..] == a.bytes && v[1..] == b.bytes;
    }
  }

  lemma TieKey(a: Note, b: Note)
    requires IsTie(a, b)
    ensures OrderKey(a) == OrderKey(b) && (a.bytes == b.bytes ==> ExactKey(a) == ExactKey(b))
  {
    hide Detail;
  }

  /** The notes of b have the keys of a, so its ties agree as well. */
  lemma TiesFollow(a: seq<Note>, b: seq<Note>)
    requires TiesAgree(a) && Keys(a) == Keys(b)
    ensures TiesAgree(b)
  {
    hide ExactKey, Keys;
    forall i, j | 0 <= i < j < |b| && IsTie(b[i], b[j]) ensures b[i].bytes == b[j].bytes {
      var k := PlaceOfKey(b, a, i);
      var l := PlaceOfKey(b, a, j);
      KeyTells(b[i], a[k]);
      KeyTells(b[j], a[l]);
      assert IsTie(a[k], a[l]);
    }
  }

  lemma PlaceOfKey(b: seq<Note>, a: seq<Note>, i: nat) returns (k: nat)
    requires i < |b| && Keys(a) == Keys(b)
    ensures k < |a| && ExactKey(a[k]) == ExactKey(b[i])
  {
    hide ExactKey, Keys;
    KeysMember(b, ExactKey(b[i]));
    KeysMember(a, ExactKey(b[i]));
    k :| 0 <= k < |a| && ExactKey(a[k]) == ExactKey(b[i]);
  }

  /** Phrases in order with the same notes compare as equal if the ties of one agree. */
  lemma {:induction false} SameNotesCompareEqual(a: seq<Note>, b: seq<Note>)
    requires Ordered(a) && Ordered(b) && TiesAgree(a) && TiesAgree(b) && Keys(a) == Keys(b)
    ensures PhraseLex(a, b) == 0
    decreases |a|
  {
    hide LexCmp, ExactKey, Before;
    if a == [] {
      NoKeys(b);
    } else {
      var k := ExactKey(a[0]);
      assert b != [] by { assert k in Keys(b); }
      var l := ExactKey(b[0]);
      FirstIsLeast(a, l);
      FirstIsLeast(b, k);
      LexTurned(k, l);
      LexZero(k, l);
      assert Keys(a[1..]) == Keys(a) - multiset{k} == Keys(b[1..]);
      TailOrdered(a);
      TailOrdered(b);
      SameNotesCompareEqual(a[1..], b[1..]);
    }
  }

  lemma NoKeys(b: seq<Note>)
    ensures Keys(b) == multiset{} ==> b == []
  {
    if b != [] {
      assert ExactKey(b[0]) in Keys(b);
    }
  }

  lemma TailOrdered(a: seq<Note>)
    requires Ordered(a) && TiesAgree(a) && a != []
    ensures Ordered(a[1..]) && TiesAgree(a[1..])
  {
    hide Before;
    assert forall i :: 0 <= i < |a[1..]| ==> a[1..][i] == a[i + 1];
  }

  /** The first note of such a phrase has the least exact key. */
  lemma FirstIsLeast(a: seq<Note>, k: seq<int>)
    requires Ordered(a) && TiesAgree(a) && a != [] && k in Keys(a)
    ensures LexCmp(ExactKey(a[0]), k) <= 0
  {
    hide LexCmp, ExactKey, OrderKey;
    KeysMember(a, k);
    var i :| 0 <= i < |a| && ExactKey(a[i]) == k;
    LexZero(ExactKey(a[0]), k);
    if i > 0 {
      assert Before(a[0], a[i]);
      ExactRefines(a[0], a[i]);
      if IsTie(a[0], a[i]) {
        TieKey(a[0], a[i]);
      }
    }
  }

  /** The notes at i and j change places. */
  ghost function Swapped(a: seq<Note>, i: nat, j: nat): seq<Note>
    requires i < j < |a|
  {
    a[..i] + [a[j]] + a[i + 1..j] + [a[i]] + a[j + 1..]
  }

  lemma SwappedKeys(a: seq<Note>, i: nat, j: nat)
    requires i < j < |a|
    ensures Keys(Swapped(a, i, j)) == Keys(a)
  {
    hide ExactKey, Keys;
    var p, m, q, x, y := a[..i], a[i + 1..j], a[j + 1..], [a[i]], [a[j]];
    assert a == p + x + m + y + q;
    SumOfFive(p, x, m, y, q);
    SumOfFive(p, y, m, x, q);
    assert Keys(p) + Keys(x) + Keys(m) + Keys(y) + Keys(q) == Keys(p) + Keys(y) + Keys(m) + Keys(x) + Keys(q);
  }

  lemma SumOfFive(p: seq<Note>, x: seq<Note>, m: seq<Note>, y: seq<Note>, q: seq<Note>)
    ensures Keys(p + x + m + y + q) == Keys(p) + Keys(x) + Keys(m) + Keys(y) + Keys(q)
  {
    hide Keys;
    KeysConcat(p, x);
    KeysConcat(p + x, m);
    KeysConcat(p + x + m, y);
    KeysConcat(p + x + m + y, q);
  }

  /** Exchanging two ties that disagree leaves an ordered phrase with the same notes that compares as
      different. */
  lemma SwappedTiesDiffer(a: seq<Note>, i: nat, j: nat)
    requires Ordered(a) && i < j < |a| && IsTie(a[i], a[j]) && a[i].bytes != a[j].bytes
    ensures var b := Swapped(a, i, j); Ordered(b) && Keys(b) == Keys(a) && PhraseLex(a, b) != 0
  {
    hide LexCmp, ExactKey, OrderKey, Keys, PhraseLex, Swapped, Ordered;
    var b := Swapped(a, i, j);
    SwappedOrder(a, i, j);
    SwappedKeys(a, i, j);
    SwappedAt(a, i, j);
    PhraseLexZero(a, b);
    if ExactKey(a[i]) == ExactKey(b[i]) {
      KeyTells(a[i], b[i]);
    }
  }

  lemma SwappedAt(a: seq<Note>, i: nat, j: nat)
    requires i < j < |a|
    ensures |Swapped(a, i, j)| == |a|
    ensures forall k :: 0 <= k < |a| ==> Swapped(a, i, j)[k] == a[if k == i then j else if k == j then i else k]
  {
  }

  lemma SwappedOrder(a: seq<Note>, i: nat, j: nat)
    requires Ordered(a) && i < j < |a| && IsTie(a[i], a[j])
    ensures Ordered(Swapped(a, i, j))
  {
    hide LexCmp, OrderKey, Swapped;
    var b := Swapped(a, i, j);
    SwappedAt(a, i, j);
    TieKey(a[i], a[j]);
    assert forall k :: 0 <= k < |b| ==> OrderKey(b[k]) == OrderKey(a[k]);
    forall k, l | 0 <= k < l < |b| ensures Before(b[k], b[l]) {
      assert Before(a[k], a[l]);
    }
  }

  /** A phrase in order compares as equal with every ordered phrase of the same notes exactly when its
      byte messages of one time are equal. */
  lemma TiesDecide(a: seq<Note>)
    requires Ordered(a)
    ensures TiesAgree(a) <==> forall b :: Ordered(b) && Keys(b) == Keys(a) ==> PhraseLex(a, b) == 0
  {
    hide Ordered, Keys, PhraseLex, TiesAgree;
    if TiesAgree(a) {
      forall b | Ordered(b) && Keys(b) == Keys(a) ensures PhraseLex(a, b) == 0 {
        TiesFollow(a, b);
        SameNotesCompareEqual(a, b);
      }
    } else {
      var i, j := Disagreeing(a);
      SwappedTiesDiffer(a, i, j);
    }
  }

  lemma Disagreeing(a: seq<Note>) returns (i: nat, j: nat)
    requires !TiesAgree(a)
    ensures i < j < |a| && IsTie(a[i], a[j]) && a[i].bytes != a[j].bytes
  {
    i, j :| 0 <= i < j < |a| && IsTie(a[i], a[j]) && a[i].bytes != a[j].bytes;
  }

  /** Two phrases have the same notes exactly when nothing is left of either without the other. */
  lemma NothingLeftExactly(a: seq<Note>, b: seq<Note>)
    ensures Keys(a) == Keys(b) <==>
      Wanted(Minus, Keys(a), Keys(b)) == multiset{} && Wanted(Minus, Keys(b), Keys(a)) == multiset{}
  {
    hide Keys;
    var x, y := Keys(a), Keys(b);
    if x - y == multiset{} && y - x == multiset{} {
      forall k ensures x[k] == y[k] {
        assert (x - y)[k] == 0 && (y - x)[k] == 0;
      }
    }
  }

  /** The least example: two byte messages of one time in either order. */
  lemma TiesCompareUnequal()
    ensures var x, y := TieNote([1]), TieNote([2]);
      Ordered([x, y]) && Ordered([y, x]) && Keys([x, y]) == Keys([y, x]) && PhraseLex([x, y], [y, x]) != 0
  {
    var x, y := TieNote([1]), TieNote([2]);
    ExactRefines(x, y);
    assert Swapped([x, y], 0, 1) == [y, x];
    SwappedTiesDiffer([x, y], 0, 1);
  }

  ghost function TieNote(bytes: seq<int>): Note {
    Note(0, NT_BYTES, 0, 0, "", 0, 0, 0, 0, bytes)
  }
}
