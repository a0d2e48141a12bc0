/** Notes of src/phrase.h and the two ways src/phrase.c compares them: by the order kept within
    a phrase, which leaves byte messages of one time unordered, and exactly. */
module Notes {
  import opened Bytes

  datatype NoteType = NT_BYTES | NT_NOTE | NT_ON | NT_OFF | NT_LE3BYTES

  /** The fields from `chan` to `duration` belong to notes, `bytes` to byte messages. */
  datatype Note = Note(clicks: int, kind: NoteType, port: nat, flags: nat, attrib: string,
                       chan: nat, pitch: nat, vol: nat, duration: int, bytes: seq<int>)

  predicate IsBytes(n: Note) {
    n.kind == NT_BYTES || n.kind == NT_LE3BYTES
  }

  /** utypeof: both kinds of byte messages count as one type. */
  function UType(n: Note): int {
    match n.kind
    case NT_NOTE => 2
    case NT_ON => 4
    case NT_OFF => 8
    case NT_BYTES => 1
    case NT_LE3BYTES => 1
  }

  function ChanOf(n: Note): nat {
    n.chan % 16
  }

  // ---------- Lexicographic comparison ----------

  ghost function LexCmp(a: seq<int>, b: seq<int>): (c: int)
    ensures -1 <= c <= 1
  {
    if a == [] then (if b == [] then 0 else -1)
    else if b == [] then 1
    else if a[0] < b[0] then -1
    else if a[0] > b[0] then 1
    else LexCmp(a[1..], b[1..])
  }

  lemma LexHead(x: int, a: seq<int>, y: int, b: seq<int>)
    ensures LexCmp([x] + a, [y] + b) == if x < y then -1 else if x > y then 1 else LexCmp(a, b)
  {
    assert ([x] + a)[1..] == a && ([y] + b)[1..] == b;
  }

  lemma {:induction false} LexZero(a: seq<int>, b: seq<int>)
    ensures LexCmp(a, b) == 0 <==> a == b
  {
    if a != [] && b != [] {
      LexZero(a[1..], b[1..]);
      assert a == [a[0]] + a[1..] && b == [b[0]] + b[1..];
    }
  }

  lemma {:induction false} LexTurned(a: seq<int>, b: seq<int>)
    ensures LexCmp(b, a) == -LexCmp(a, b)
  {
    if a != [] && b != [] {
      LexTurned(a[1..], b[1..]);
    }
  }

  lemma {:induction false} LexTrans(a: seq<int>, b: seq<int>, c: seq<int>)
    requires LexCmp(a, b) <= 0 && LexCmp(b, c) <= 0
    ensures LexCmp(a, c) <= 0
    ensures LexCmp(a, c) == 0 ==> LexCmp(a, b) == 0 && LexCmp(b, c) == 0
  {
    if a != [] && b != [] && c != [] && a[0] == b[0] == c[0] {
      LexTrans(a[1..], b[1..], c[1..]);
    }
  }

  // ---------- Keys ----------

  function Chars(s: string): (r: seq<int>) {
    seq(|s|, i requires 0 <= i < |s| => s[i] as int)
  }

  /** What decides between two notes of one time and type, first things first. */
  ghost function Detail(n: Note): seq<int> {
    [n.pitch] + ([ChanOf(n)] + ([n.port] + ([n.vol] + ([n.flags] + ([n.duration] + Chars(n.attrib))))))
  }

  ghost function OrderKey(n: Note): seq<int> {
    [n.clicks] + ([UType(n)] + if IsBytes(n) then [] else Detail(n))
  }

  /** Notes are exactly equal when they have the same exact key. */
  ghost function ExactKey(n: Note): seq<int> {
    [n.clicks] + ([UType(n)] + if IsBytes(n) then n.bytes else Detail(n))
  }

  ghost predicate Before(a: Note, b: Note) {
    LexCmp(OrderKey(a), OrderKey(b)) <= 0
  }

  // ---------- The comparisons of the source ----------

  /** strcmp, of which only the sign matters. */
  method StrCmp(a: string, b: string) returns (r: int)
    ensures r == LexCmp(Chars(a), Chars(b))
  {
    var i := 0;
    r := 0;
    while i < |a| && i < |b| && a[i] == b[i]
      invariant 0 <= i <= |a| && i <= |b|
      invariant LexCmp(Chars(a), Chars(b)) == LexCmp(Chars(a)[i..], Chars(b)[i..])
    {
      assert Chars(a)[i..][1..] == Chars(a)[i + 1..] && Chars(b)[i..][1..] == Chars(b)[i + 1..];
      i := i + 1;
    }
    if i < |a| || i < |b| {
      r := if i == |a| then -1 else if i == |b| then 1 else if a[i] < b[i] then -1 else 1;
    }
  }

  /** The part that ntcmporder and ntcmpxact share. */
  method CmpDetail(n1: Note, n2: Note) returns (r: int)
    ensures r == LexCmp(Detail(n1), Detail(n2))
  {
    DetailCmp(n1, n2);
    if n1.pitch != n2.pitch {
      return if n1.pitch < n2.pitch then -1 else 1;
    }
    if ChanOf(n1) != ChanOf(n2) {
      return if ChanOf(n1) < ChanOf(n2) then -1 else 1;
    }
    if n1.port != n2.port {
      return if n1.port < n2.port then -1 else 1;
    }
    if n1.vol != n2.vol {
      return if n1.vol < n2.vol then -1 else 1;
    }
    if n1.flags != n2.flags {
      return if n1.flags < n2.flags then -1 else 1;
    }
    if n1.duration != n2.duration {
      return if n1.duration < n2.duration then -1 else 1;
    }
    r := StrCmp(n1.attrib, n2.attrib);
  }

  lemma DetailCmp(n1: Note, n2: Note)
    ensures LexCmp(Detail(n1), Detail(n2)) ==
      if n1.pitch != n2.pitch then (if n1.pitch < n2.pitch then -1 else 1)
      else if ChanOf(n1) != ChanOf(n2) then (if ChanOf(n1) < ChanOf(n2) then -1 else 1)
      else if n1.port != n2.port then (if n1.port < n2.port then -1 else 1)
      else if n1.vol != n2.vol then (if n1.vol < n2.vol then -1 else 1)
      else if n1.flags != n2.flags then (if n1.flags < n2.flags then -1 else 1)
      else if n1.duration != n2.duration then (if n1.duration < n2.duration then -1 else 1)
      else LexCmp(Chars(n1.attrib), Chars(n2.attrib))
  {
    hide LexCmp;
    var d1, d2 := [n1.duration] + Chars(n1.attrib), [n2.duration] + Chars(n2.attrib);
    var f1, f2 := [n1.flags] + d1, [n2.flags] + d2;
    var v1, v2 := [n1.vol] + f1, [n2.vol] + f2;
    var p1, p2 := [n1.port] + v1, [n2.port] + v2;
    var c1, c2 := [ChanOf(n1)] + p1, [ChanOf(n2)] + p2;
    LexHead(n1.pitch, c1, n2.pitch, c2);
    LexHead(ChanOf(n1), p1, ChanOf(n2), p2);
    LexHead(n1.port, v1, n2.port, v2);
    LexHead(n1.vol, f1, n2.vol, f2);
    LexHead(n1.flags, d1, n2.flags, d2);
    LexHead(n1.duration, Chars(n1.attrib), n2.duration, Chars(n2.attrib));
  }

  lemma KeyCmp(n1: Note, a: seq<int>, n2: Note, b: seq<int>)
    ensures LexCmp([n1.clicks] + ([UType(n1)] + a), [n2.clicks] + ([UType(n2)] + b)) ==
      if n1.clicks != n2.clicks then (if n1.clicks < n2.clicks then -1 else 1)
      else if UType(n1) != UType(n2) then (if UType(n1) < UType(n2) then -1 else 1)
      else LexCmp(a, b)
  {
    hide LexCmp;
    LexHead(n1.clicks, [UType(n1)] + a, n2.clicks, [UType(n2)] + b);
    LexHead(UType(n1), a, UType(n2), b);
  }

  /** ntcmporder */
  method NtCmpOrder(n1: Note, n2: Note) returns (r: int)
    ensures r == LexCmp(OrderKey(n1), OrderKey(n2))
  {
    hide LexCmp, Detail;
    KeyCmp(n1, if IsBytes(n1) then [] else Detail(n1), n2, if IsBytes(n2) then [] else Detail(n2));
    if n1.clicks != n2.clicks {
      return if n1.clicks < n2.clicks then -1 else 1;
    }
    if UType(n1) != UType(n2) {
      return if UType(n1) < UType(n2) then -1 else 1;
    }
    if IsBytes(n1) {
      LexZero([], []);
      return 0;
    }
    r := CmpDetail(n1, n2);
  }

  // bytescmp goes on over the whole first message. Behind a second message that is shorter it reads
  // the memory that follows.

  /** memory begins with the bytes b and reaches at least to n. */
  ghost predicate IsMemory(b: seq<int>, memory: seq<int>, n: nat) {
    b <= memory && n <= |memory| && forall i :: |b| <= i < |memory| ==> IsByte(memory[i])
  }

  /** The difference of the first bytes that differ, or else `rest`. */
  ghost function CmpMemory(a: seq<int>, memory: seq<int>, rest: int): int
    requires |a| <= |memory|
  {
    if a == [] then rest
    else if a[0] != memory[0] then a[0] - memory[0]
    else CmpMemory(a[1..], memory[1..], rest)
  }

  /** r is what comparing a with b may give. */
  ghost predicate BytesMay(a: seq<int>, b: seq<int>, r: int) {
    exists memory :: IsMemory(b, memory, |a|) && r == CmpMemory(a, memory, |a| - |b|)
  }

  /** The sign does not depend on the memory behind b: no byte that is read there can be exceeded. */
  predicate SignIsSettled(a: seq<int>, b: seq<int>) {
    b <= a ==> forall i :: |b| <= i < |a| ==> a[i] >= 255
  }

  lemma {:induction false} CmpAt(a: seq<int>, memory: seq<int>, rest: int, i: nat)
    requires |a| <= |memory| && i <= |a| && a[..i] == memory[..i]
    ensures i == |a| ==> CmpMemory(a, memory, rest) == rest
    ensures i < |a| && a[i] != memory[i] ==> CmpMemory(a, memory, rest) == a[i] - memory[i]
    decreases i
  {
    if i > 0 {
      assert a[0] == a[..i][0] == memory[..i][0] == memory[0];
      assert a[1..][..i - 1] == a[..i][1..] == memory[..i][1..] == memory[1..][..i - 1];
      CmpAt(a[1..], memory[1..], rest, i - 1);
    }
  }

  lemma {:induction false} LexAt(a: seq<int>, b: seq<int>, i: nat)
    requires i <= |a| && i <= |b| && a[..i] == b[..i]
    ensures i == |a| || i == |b| ==> LexCmp(a, b) == if |a| == |b| then 0 else if i == |a| then -1 else 1
    ensures i < |a| && i < |b| && a[i] != b[i] ==> LexCmp(a, b) == if a[i] < b[i] then -1 else 1
    decreases i
  {
    if i > 0 {
      assert a[0] == a[..i][0] == b[..i][0] == b[0];
      assert a[1..][..i - 1] == a[..i][1..] == b[..i][1..] == b[1..][..i - 1];
      LexAt(a[1..], b[1..], i - 1);
    }
  }

  /** The first place where a and b differ, or the end of the shorter. */
  ghost function Differ(a: seq<int>, b: seq<int>): (i: nat)
    ensures i <= |a| && i <= |b| && a[..i] == b[..i]
    ensures i < |a| && i < |b| ==> a[i] != b[i]
  {
    if a == [] || b == [] || a[0] != b[0] then 0
    else
      var i := 1 + Differ(a[1..], b[1..]);
      assert a[..i] == [a[0]] + a[1..][..i - 1] && b[..i] == [b[0]] + b[1..][..i - 1];
      i
  }

  /** a goes below b at place k: they agree before it, and there a ends or is smaller. */
  ghost predicate LexBelow(a: seq<int>, b: seq<int>, k: nat) {
    k <= |a| && k < |b| && a[..k] == b[..k] && (k < |a| ==> a[k] < b[k])
  }

  /** What the lexicographic comparison means place by place. */
  lemma LexMeans(a: seq<int>, b: seq<int>)
    ensures LexCmp(a, b) == 0 <==> a == b
    ensures LexCmp(a, b) < 0 <==> exists k: nat :: LexBelow(a, b, k)
  {
    hide LexCmp;
    var i := Differ(a, b);
    LexAt(a, b, i);
    LexZero(a, b);
    if LexCmp(a, b) < 0 {
      assert LexBelow(a, b, i);
    }
    if k: nat :| LexBelow(a, b, k) {
      forall l | 0 <= l < k ensures a[l] == b[l] {
        assert a[l] == a[..k][l] == b[..k][l] == b[l];
      }
      forall l | 0 <= l < i ensures a[l] == b[l] {
        assert a[l] == a[..i][l] == b[..i][l] == b[l];
      }
      assert i == k;
    }
  }

  /** It is zero exactly on equal messages, and its sign is right where it is settled. */
  lemma BytesSign(a: seq<int>, b: seq<int>, r: int)
    requires BytesMay(a, b, r)
    ensures r == 0 <==> a == b
    ensures SignIsSettled(a, b) ==> (r < 0 <==> LexCmp(a, b) < 0)
  {
    var memory :| IsMemory(b, memory, |a|) && r == CmpMemory(a, memory, |a| - |b|);
    var i, j := Differ(a, b), Differ(a, memory);
    assert a == b ==> i == |a|;
    assert memory[..|b|] == b;
    assert a[..i] == b[..i] == memory[..|b|][..i] == memory[..i];
    assert forall l :: 0 <= l < i ==> a[l] == a[..i][l] == memory[..i][l] == memory[l];
    assert forall l :: 0 <= l < j ==> a[l] == a[..j][l] == memory[..j][l] == memory[l];
    assert i <= j;
    CmpAt(a, memory, |a| - |b|, j);
    LexAt(a, b, i);
    if i == |b| < |a| {
      assert b <= a;
    } else if i < |a| {
      assert b[i] == memory[..|b|][i] == memory[i];
      assert j == i;
    }
  }

  /** Elsewhere it is not: what follows b in memory may be larger. */
  lemma SettledExactly(a: seq<int>, b: seq<int>)
    requires forall i :: 0 <= i < |a| ==> IsByte(a[i])
    ensures SignIsSettled(a, b) <==> forall r :: BytesMay(a, b, r) ==> (r < 0 <==> LexCmp(a, b) < 0)
  {
    hide BytesMay, LexCmp, SignIsSettled;
    if SignIsSettled(a, b) {
      forall r | BytesMay(a, b, r) ensures r < 0 <==> LexCmp(a, b) < 0 {
        BytesSign(a, b, r);
      }
    } else {
      var r := Unsettled(a, b);
    }
  }

  lemma Unsettled(a: seq<int>, b: seq<int>) returns (r: int)
    requires !SignIsSettled(a, b) && forall i :: 0 <= i < |a| ==> IsByte(a[i])
    ensures BytesMay(a, b, r) && r < 0 && LexCmp(a, b) > 0
  {
    var i :| |b| <= i < |a| && a[i] < 255;
    var j: nat := |b|;
    while a[j] == 255
      invariant |b| <= j <= i
      invariant forall l :: |b| <= l < j ==> a[l] == 255
      decreases i - j
    {
      j := j + 1;
    }
    var memory := b + seq(|a| - |b|, _ => 255);
    assert b == a[..|b|];
    assert a[..j] == memory[..j];
    CmpAt(a, memory, |a| - |b|, j);
    LexAt(a, b, |b|);
    r := CmpMemory(a, memory, |a| - |b|);
    assert IsMemory(b, memory, |a|);
  }

  /** Memory behind b that repeats a gives the sign of the lexicographic comparison. */
  lemma LexBytesPossible(a: seq<int>, b: seq<int>) returns (r: int)
    requires forall i :: 0 <= i < |a| ==> IsByte(a[i])
    ensures BytesMay(a, b, r) && (r < 0 <==> LexCmp(a, b) < 0) && (r == 0 <==> LexCmp(a, b) == 0)
  {
    var memory := if |a| <= |b| then b else b + a[|b|..];
    r := CmpMemory(a, memory, |a| - |b|);
    assert IsMemory(b, memory, |a|);
    SameSign(a, b, memory, |a| - |b|);
  }

  lemma {:induction false} SameSign(a: seq<int>, b: seq<int>, memory: seq<int>, rest: int)
    requires |a| <= |memory| && (forall i :: 0 <= i < |a| && i < |b| ==> memory[i] == b[i])
    requires (forall i :: |b| <= i < |a| ==> memory[i] == a[i]) && rest == |a| - |b|
    ensures CmpMemory(a, memory, rest) < 0 <==> LexCmp(a, b) < 0
    ensures CmpMemory(a, memory, rest) == 0 <==> LexCmp(a, b) == 0
    decreases |a|
  {
    if b == [] {
      AllSame(a, memory, rest);
    } else if a != [] && a[0] == b[0] {
      SameSign(a[1..], b[1..], memory[1..], rest);
    }
  }

  lemma {:induction false} AllSame(a: seq<int>, memory: seq<int>, rest: int)
    requires |a| <= |memory| && forall i :: 0 <= i < |a| ==> memory[i] == a[i]
    ensures CmpMemory(a, memory, rest) == rest
    decreases |a|
  {
    if a != [] {
      AllSame(a[1..], memory[1..], rest);
    }
  }

  /** bytescmp */
  method BytesCmp(n1: Note, n2: Note) returns (r: int)
    ensures BytesMay(n1.bytes, n2.bytes, r)
  {
    var lng1, lng2 := |n1.bytes|, |n2.bytes|;
    ghost var memory := n2.bytes;
    for i := 0 to lng1
      invariant IsMemory(n2.bytes, memory, i) && n1.bytes[..i] == memory[..i]
    {
      var c;
      if i < lng2 {
        c := n2.bytes[i];
      } else {
        c :| IsByte(c);
        memory := memory[..i] + [c];
      }
      assert memory[i] == c;
      if n1.bytes[i] != c {
        Differs(n1.bytes, n2.bytes, memory, i);
        return n1.bytes[i] - c;
      }
      assert n1.bytes[..i + 1] == n1.bytes[..i] + [c] && memory[..i + 1] == memory[..i] + [c];
    }
    CmpAt(n1.bytes, memory, lng1 - lng2, lng1);
    r := lng1 - lng2;
  }

  lemma Differs(a: seq<int>, b: seq<int>, memory: seq<int>, i: nat)
    requires IsMemory(b, memory, i + 1) && i < |a| && a[..i] == memory[..i] && a[i] != memory[i]
    ensures BytesMay(a, b, a[i] - memory[i])
  {
    var longer := memory + seq(|a|, _ => 0);
    assert longer[..i] == memory[..i];
    assert IsMemory(b, longer, |a|);
    CmpAt(a, longer, |a| - |b|, i);
  }

  /** Byte messages of one time, which ntcmpxact compares by bytescmp. */
  predicate IsTie(n1: Note, n2: Note) {
    IsBytes(n1) && IsBytes(n2) && n1.clicks == n2.clicks
  }

  /** r is what comparing the notes exactly may give. */
  ghost predicate XactMay(n1: Note, n2: Note, r: int) {
    if IsTie(n1, n2) then BytesMay(n1.bytes, n2.bytes, r)
    else (r < 0 <==> LexCmp(ExactKey(n1), ExactKey(n2)) < 0) && (r == 0 <==> LexCmp(ExactKey(n1), ExactKey(n2)) == 0)
  }

  predicate IsSettled(n1: Note, n2: Note) {
    IsTie(n1, n2) ==> SignIsSettled(n1.bytes, n2.bytes)
  }

  /** ntcmpxact: zero exactly on notes with the same exact key; its sign is that of the comparison
      of the keys where it is settled. */
  method NtCmpXact(n1: Note, n2: Note) returns (r: int)
    ensures XactMay(n1, n2, r)
    ensures r == 0 <==> ExactKey(n1) == ExactKey(n2)
    ensures IsSettled(n1, n2) ==> (r < 0 <==> LexCmp(ExactKey(n1), ExactKey(n2)) < 0)
  {
    hide LexCmp, Detail, BytesMay, SignIsSettled;
    KeyCmp(n1, if IsBytes(n1) then n1.bytes else Detail(n1), n2, if IsBytes(n2) then n2.bytes else Detail(n2));
    LexZero(ExactKey(n1), ExactKey(n2));
    if n1.clicks != n2.clicks {
      return if n1.clicks < n2.clicks then -1 else 1;
    }
    if UType(n1) != UType(n2) {
      return if UType(n1) < UType(n2) then -1 else 1;
    }
    if IsBytes(n1) {
      r := BytesCmp(n1, n2);
      BytesSign(n1.bytes, n2.bytes, r);
      LexZero(n1.bytes, n2.bytes);
      return;
    }
    r := CmpDetail(n1, n2);
  }

  lemma XactSign(n1: Note, n2: Note, r: int)
    requires XactMay(n1, n2, r)
    ensures r == 0 <==> ExactKey(n1) == ExactKey(n2)
    ensures IsSettled(n1, n2) ==> (r < 0 <==> LexCmp(ExactKey(n1), ExactKey(n2)) < 0)
  {
    hide LexCmp, Detail, BytesMay, SignIsSettled;
    KeyCmp(n1, if IsBytes(n1) then n1.bytes else Detail(n1), n2, if IsBytes(n2) then n2.bytes else Detail(n2));
    LexZero(ExactKey(n1), ExactKey(n2));
    if IsTie(n1, n2) {
      BytesSign(n1.bytes, n2.bytes, r);
      LexZero(n1.bytes, n2.bytes);
    }
  }

  // ---------- The order within a phrase ----------

  lemma BeforeTotal(a: Note, b: Note)
    ensures Before(a, b) || Before(b, a)
    ensures Before(a, a)
  {
    LexTurned(OrderKey(a), OrderKey(b));
    LexZero(OrderKey(a), OrderKey(a));
  }

  lemma BeforeTrans(a: Note, b: Note, c: Note)
    requires Before(a, b) && Before(b, c)
    ensures Before(a, c)
  {
    LexTrans(OrderKey(a), OrderKey(b), OrderKey(c));
  }

  /** The exact comparison refines the order: it only decides further among byte messages of
      one time. */
  lemma ExactRefines(a: Note, b: Note)
    ensures IsBytes(a) && IsBytes(b) && a.clicks == b.clicks ==> LexCmp(OrderKey(a), OrderKey(b)) == 0
    ensures !(IsBytes(a) && IsBytes(b) && a.clicks == b.clicks) ==>
      LexCmp(OrderKey(a), OrderKey(b)) == LexCmp(ExactKey(a), ExactKey(b))
    ensures ExactKey(a) == ExactKey(b) ==> LexCmp(OrderKey(a), OrderKey(b)) == 0
  {
    hide LexCmp, Detail;
    KeyCmp(a, if IsBytes(a) then a.bytes else Detail(a), b, if IsBytes(b) then b.bytes else Detail(b));
    KeyCmp(a, if IsBytes(a) then [] else Detail(a), b, if IsBytes(b) then [] else Detail(b));
    LexZero([], []);
    LexZero(ExactKey(a), ExactKey(b));
  }

  // ---------- What the two comparisons look at ----------

  /** Exactly equal notes agree in every field that belongs to their type; a channel counts modulo 16. */
  lemma SameExactly(a: Note, b: Note)
    ensures a.kind in {NT_NOTE, NT_ON, NT_OFF} && b.kind in {NT_NOTE, NT_ON, NT_OFF} ==>
              (ExactKey(a) == ExactKey(b) <==>
                 && a.clicks == b.clicks && a.kind == b.kind && a.pitch == b.pitch && a.chan % 16 == b.chan % 16
                 && a.port == b.port && a.vol == b.vol && a.flags == b.flags && a.duration == b.duration
                 && a.attrib == b.attrib)
    ensures a.kind in {NT_BYTES, NT_LE3BYTES} && b.kind in {NT_BYTES, NT_LE3BYTES} ==>
              (ExactKey(a) == ExactKey(b) <==> a.clicks == b.clicks && a.bytes == b.bytes)
    ensures a.kind in {NT_BYTES, NT_LE3BYTES} && b.kind in {NT_NOTE, NT_ON, NT_OFF} ==> ExactKey(a) != ExactKey(b)
  {
    hide LexCmp, Detail, Chars;
    var x, y := if IsBytes(a) then a.bytes else Detail(a), if IsBytes(b) then b.bytes else Detail(b);
    KeyCmp(a, x, b, y);
    LexZero(ExactKey(a), ExactKey(b));
    LexZero(x, y);
    DetailCmp(a, b);
    LexZero(Chars(a.attrib), Chars(b.attrib));
    SameChars(a.attrib, b.attrib);
  }

  lemma PrefixChars(a: string, b: string, k: nat)
    requires k <= |a| && k <= |b|
    ensures Chars(a)[..k] == Chars(b)[..k] <==> a[..k] == b[..k]
  {
    assert Chars(a)[..k] == Chars(a[..k]) && Chars(b)[..k] == Chars(b[..k]);
    SameChars(a[..k], b[..k]);
  }

  lemma SameChars(a: string, b: string)
    ensures Chars(a) == Chars(b) <==> a == b
  {
    if Chars(a) == Chars(b) {
      assert |Chars(a)| == |a| && |Chars(b)| == |b|;
      forall i | 0 <= i < |a| ensures a[i] == b[i] {
        assert Chars(a)[i] == Chars(b)[i];
      }
    }
  }

  /** The earlier note comes first. At one time byte messages, in no order of their own, come before
      full notes, these before note-ons, and these before note-offs, whatever their other fields. */
  lemma OrderOfTypes(a: Note, b: Note)
    ensures a.clicks < b.clicks ==> LexCmp(OrderKey(a), OrderKey(b)) < 0
    ensures a.clicks == b.clicks && a.kind in {NT_BYTES, NT_LE3BYTES} ==>
              LexCmp(OrderKey(a), OrderKey(b)) == if b.kind in {NT_BYTES, NT_LE3BYTES} then 0 else -1
    ensures a.clicks == b.clicks && a.kind == NT_NOTE && b.kind in {NT_ON, NT_OFF} ==>
              LexCmp(OrderKey(a), OrderKey(b)) < 0
    ensures a.clicks == b.clicks && a.kind == NT_ON && b.kind == NT_OFF ==> LexCmp(OrderKey(a), OrderKey(b)) < 0
  {
    hide LexCmp, Detail;
    KeyCmp(a, if IsBytes(a) then [] else Detail(a), b, if IsBytes(b) then [] else Detail(b));
    LexZero([], []);
  }

  /** a comes before b as strings: up to some place they agree, and there a ends or is smaller. */
  ghost predicate StringBefore(a: string, b: string) {
    exists i :: 0 <= i <= |a| && i < |b| && a[..i] == b[..i] && (i < |a| ==> a[i] < b[i])
  }

  /** Notes of one time and type are ordered by pitch, channel, port, volume, flags, duration and attribute. */
  lemma OrderOfFields(a: Note, b: Note)
    requires a.clicks == b.clicks && a.kind == b.kind && a.kind in {NT_NOTE, NT_ON, NT_OFF}
    ensures var c := LexCmp(OrderKey(a), OrderKey(b));
      if a.pitch != b.pitch then c == if a.pitch < b.pitch then -1 else 1
      else if a.chan % 16 != b.chan % 16 then c == if a.chan % 16 < b.chan % 16 then -1 else 1
      else if a.port != b.port then c == if a.port < b.port then -1 else 1
      else if a.vol != b.vol then c == if a.vol < b.vol then -1 else 1
      else if a.flags != b.flags then c == if a.flags < b.flags then -1 else 1
      else if a.duration != b.duration then c == if a.duration < b.duration then -1 else 1
      else if a.attrib != b.attrib then c == if StringBefore(a.attrib, b.attrib) then -1 else 1
      else c == 0
  {
    hide LexCmp, Detail, Chars, StringBefore;
    KeyCmp(a, Detail(a), b, Detail(b));
    DetailCmp(a, b);
    CharsOrder(a.attrib, b.attrib);
  }

  lemma CharsOrder(a: string, b: string)
    ensures LexCmp(Chars(a), Chars(b)) == if a == b then 0 else if StringBefore(a, b) then -1 else 1
  {
    hide LexCmp;
    var x, y := Chars(a), Chars(b);
    LexMeans(x, y);
    assert forall k: nat :: LexBelow(x, y, k) ==> a[..k] == b[..k] by {
      forall k: nat | LexBelow(x, y, k) ensures a[..k] == b[..k] {
        PrefixChars(a, b, k);
      }
    }
    if k: nat :| k <= |a| && k < |b| && a[..k] == b[..k] && (k < |a| ==> a[k] < b[k]) {
      PrefixChars(a, b, k);
      assert LexBelow(x, y, k);
    }
    SameChars(a, b);
  }
}
