/** phrop of src/code2.c: the difference and the intersection of two phrases, by one merge over
    both lists. Byte messages of one time come in no fixed order and are matched by search. */
module PhraseOps {
  import opened Notes
  import opened Phrases

  datatype Op = Minus | And

  // ---------- Counting notes by their exact keys ----------

  type Bag = multiset<seq<int>>

  ghost function Keys(notes: seq<Note>): Bag {
    if notes == [] then multiset{} else multiset{ExactKey(notes[0])} + Keys(notes[1..])
  }

  /** For each key, the notes that the difference (or the intersection) keeps. */
  ghost function Wanted(op: Op, a: Bag, b: Bag): Bag {
    if op == Minus then a - b else a * b
  }

  lemma WantedIs(op: Op, a: Bag, b: Bag)
    ensures Wanted(op, a, b) == if op == Minus then a - b else a * b
  {
  }

  ghost function Kept(op: Op, matched: bool, k: seq<int>): Bag {
    if (op == And) == matched then multiset{k} else multiset{}
  }

  lemma {:induction false} KeysConcat(a: seq<Note>, b: seq<Note>)
    ensures Keys(a + b) == Keys(a) + Keys(b)
  {
    hide Keys;
    if a == [] {
      assert a + b == b;
      KeysUnfold(a);
      BagSum(multiset{}, Keys(a), Keys(b));
    } else {
      KeysConcat(a[1..], b);
      assert (a + b)[1..] == a[1..] + b && (a + b)[0] == a[0];
      KeysUnfold(a);
      KeysUnfold(a + b);
      BagSum(multiset{ExactKey(a[0])}, Keys(a[1..]), Keys(b));
    }
  }

  lemma KeysUnfold(notes: seq<Note>)
    ensures Keys(notes) == if notes == [] then multiset{} else multiset{ExactKey(notes[0])} + Keys(notes[1..])
  {
  }

  lemma BagSum(a: Bag, b: Bag, c: Bag)
    ensures a + (b + c) == a + b + c
    ensures multiset{} + c == c
  {
  }

  lemma {:induction false} KeysMember(notes: seq<Note>, k: seq<int>)
    ensures k in Keys(notes) <==> exists i :: 0 <= i < |notes| && ExactKey(notes[i]) == k
  {
    hide ExactKey;
    if notes != [] {
      KeysMember(notes[1..], k);
      assert forall i :: 1 <= i < |notes| ==> notes[i] == notes[1..][i - 1];
    }
  }

  lemma KeysOfOne(n: Note)
    ensures Keys([n]) == multiset{ExactKey(n)}
  {
    assert [n][1..] == [];
  }

  lemma KeysAdd(notes: seq<Note>, n: Note)
    ensures Keys(notes + [n]) == Keys(notes) + multiset{ExactKey(n)}
  {
    KeysConcat(notes, [n]);
    KeysOfOne(n);
  }

  lemma KeysFrom(notes: seq<Note>, i: nat)
    requires i < |notes|
    ensures Keys(notes[i..]) == multiset{ExactKey(notes[i])} + Keys(notes[i + 1..])
  {
    assert notes[i..][1..] == notes[i + 1..];
  }

  // ---------- How a merge step changes what is still wanted ----------

  lemma WantedMatched(op: Op, k: seq<int>, a: Bag, b: Bag)
    ensures Wanted(op, multiset{k} + a, multiset{k} + b) == Kept(op, true, k) + Wanted(op, a, b)
  {
    forall x ensures Wanted(op, multiset{k} + a, multiset{k} + b)[x] == (Kept(op, true, k) + Wanted(op, a, b))[x] {
    }
  }

  lemma WantedUnmatched(op: Op, k: seq<int>, a: Bag, b: Bag)
    requires k !in b
    ensures Wanted(op, multiset{k} + a, b) == Kept(op, false, k) + Wanted(op, a, b)
  {
    forall x ensures Wanted(op, multiset{k} + a, b)[x] == (Kept(op, false, k) + Wanted(op, a, b))[x] {
    }
  }

  lemma WantedSkip(op: Op, k: seq<int>, a: Bag, b: Bag)
    requires k !in a
    ensures Wanted(op, a, multiset{k} + b) == Wanted(op, a, b)
  {
    forall x ensures Wanted(op, a, multiset{k} + b)[x] == Wanted(op, a, b)[x] {
    }
  }

  /** Parts without common keys can be treated separately. */
  lemma WantedApart(op: Op, a: Bag, b: Bag, c: Bag, d: Bag)
    requires a !! d && c !! b
    ensures Wanted(op, a + c, b + d) == Wanted(op, a, b) + Wanted(op, c, d)
  {
    forall x ensures Wanted(op, a + c, b + d)[x] == (Wanted(op, a, b) + Wanted(op, c, d))[x] {
      if x in a {
        assert x !in d;
      }
      if x in c {
        assert x !in b;
      }
    }
  }

  /** No note is lost or invented: the two results together are the first phrase. */
  lemma OpsSplit(a: Bag, b: Bag)
    ensures Wanted(Minus, a, b) + Wanted(And, a, b) == a
  {
    forall x ensures (Wanted(Minus, a, b) + Wanted(And, a, b))[x] == a[x] {
    }
  }

  // ---------- Which keys can still be met ----------

  /** The note at i of an ordered list lies strictly before another note: so do not meet it. */
  lemma NotAhead(notes: seq<Note>, j: nat, n: Note)
    requires Ordered(notes) && j < |notes| && LexCmp(OrderKey(n), OrderKey(notes[j])) < 0
    ensures ExactKey(n) !in Keys(notes[j..])
  {
    hide LexCmp, ExactKey, OrderKey, Ordered;
    KeysMember(notes[j..], ExactKey(n));
    if i :| 0 <= i < |notes[j..]| && ExactKey(notes[j..][i]) == ExactKey(n) {
      AheadDiffers(notes, j, n, j + i);
    }
  }

  lemma AheadDiffers(notes: seq<Note>, j: nat, n: Note, l: nat)
    requires Ordered(notes) && j <= l < |notes| && LexCmp(OrderKey(n), OrderKey(notes[j])) < 0
    ensures ExactKey(notes[l]) != ExactKey(n)
  {
    hide LexCmp, ExactKey, OrderKey;
    BeforeTotal(notes[j], notes[j]);
    assert Before(notes[j], notes[l]);
    LexTrans(OrderKey(n), OrderKey(notes[j]), OrderKey(notes[l]));
    ExactRefines(n, notes[l]);
  }

  /** All notes of the region from i to e are byte messages of time t, and the next note is not. */
  ghost predicate IsRegion(notes: seq<Note>, i: nat, e: nat, t: int) {
    && i < e <= |notes|
    && (forall l :: i <= l < e ==> IsBytes(notes[l]) && notes[l].clicks == t)
    && (e < |notes| ==> !(IsBytes(notes[e]) && notes[e].clicks == t))
  }

  /** The keys of a region do not occur after the region of the other phrase. */
  lemma RegionsApart(a: seq<Note>, i: nat, e: nat, b: seq<Note>, j: nat, f: nat, t: int)
    requires Ordered(b) && IsRegion(a, i, e, t) && IsRegion(b, j, f, t)
    ensures Keys(a[i..e]) !! Keys(b[f..])
  {
    hide LexCmp, ExactKey, OrderKey, Ordered;
    forall k | k in Keys(a[i..e]) ensures k !in Keys(b[f..]) {
      KeysMember(a[i..e], k);
      KeysMember(b[f..], k);
      var x :| 0 <= x < |a[i..e]| && ExactKey(a[i..e][x]) == k;
      if y :| 0 <= y < |b[f..]| && ExactKey(b[f..][y]) == k {
        RegionDiffers(b, j, f, t, a[i + x], f + y);
      }
    }
  }

  lemma RegionDiffers(b: seq<Note>, j: nat, f: nat, t: int, n: Note, l: nat)
    requires Ordered(b) && IsRegion(b, j, f, t) && IsBytes(n) && n.clicks == t && f <= l < |b|
    ensures ExactKey(b[l]) != ExactKey(n)
  {
    hide LexCmp, ExactKey, OrderKey;
    assert Before(b[j], b[f]);
    SameRegion(b[j], b[f], t);
    SameRegion(n, b[f], t);
    ExactRefines(n, b[j]);
    LexTurned(OrderKey(n), OrderKey(b[j]));
    LexTrans(OrderKey(n), OrderKey(b[j]), OrderKey(b[f]));
    AheadDiffers(b, f, n, l);
  }

  /** A byte message of time t is equal in the order only to byte messages of time t. */
  lemma SameRegion(n: Note, m: Note, t: int)
    requires IsBytes(n) && n.clicks == t && !(IsBytes(m) && m.clicks == t)
    ensures LexCmp(OrderKey(n), OrderKey(m)) != 0
  {
    hide LexCmp, Detail;
    KeyCmp(n, if IsBytes(n) then [] else Detail(n), m, if IsBytes(m) then [] else Detail(m));
  }

  // ---------- The result ----------

  ghost predicate Rising(picks: seq<nat>) {
    forall i, j :: 0 <= i < j < |picks| ==> picks[i] < picks[j]
  }

  /** The notes of r are those at the given places of a. */
  ghost predicate Picked(a: seq<Note>, picks: seq<nat>, r: seq<Note>, i: nat) {
    && Rising(picks) && |picks| == |r| && i <= |a|
    && forall k :: 0 <= k < |picks| ==> picks[k] < i && a[picks[k]] == r[k]
  }

  lemma PickedOrdered(a: seq<Note>, picks: seq<nat>, r: seq<Note>, i: nat)
    requires Ordered(a) && Picked(a, picks, r, i)
    ensures Ordered(r)
  {
    hide Before;
  }

  lemma PickNext(a: seq<Note>, picks: seq<nat>, r: seq<Note>, i: nat)
    requires Picked(a, picks, r, i) && i < |a|
    ensures Picked(a, picks, r, i + 1) && Picked(a, picks + [i], r + [a[i]], i + 1)
  {
  }

  lemma PickLast(a: seq<Note>, picks: seq<nat>, r: seq<Note>, i: nat)
    requires Ordered(a) && Picked(a, picks, r, i) && i < |a| && r != []
    ensures Before(r[|r| - 1], a[i])
  {
    hide Before;
  }

  /** The result so far: a fresh phrase of copies. */
  ghost predicate Result(p: Phrase, a: seq<Note>, picks: seq<nat>, i: nat)
    reads p, p.nodes
  {
    p.Valid() && Picked(a, picks, NotesOf(p.nodes), i)
  }

  /** ntinsert(ntcopy(n), p): the copy goes to the end of the result. */
  method AppendCopy(p: Phrase, n: Node, ghost a: seq<Note>, ghost picks: seq<nat>, ghost i: nat)
    requires Ordered(a) && Result(p, a, picks, i) && i < |a| && n.note == a[i]
    modifies p, p.nodes
    ensures Result(p, a, picks + [i], i + 1) && p.pLeng == old(p.pLeng)
    ensures NotesOf(p.nodes) == NotesOf(old(p.nodes)) + [a[i]]
    ensures |p.nodes| == |old(p.nodes)| + 1 && fresh(p.nodes[|p.nodes| - 1]) && p.nodes[..|p.nodes| - 1] == old(p.nodes)
  {
    hide Before, Ordered, Picked;
    ghost var before, r := p.nodes, NotesOf(p.nodes);
    if before != [] {
      PickLast(a, picks, r, i);
    }
    PickNext(a, picks, r, i);
    var copy := new Node(n.note);
    ghost var k := p.NtInsert(copy);
    assert k == |before|;
    assert p.nodes == before + [copy];
    assert NotesOf(p.nodes) == r + [a[i]];
  }

  // ---------- Regions of byte messages ----------

  /** The end of the region that starts at n, and its size. */
  method RegionEnd(ph: Phrase, n: Node, t: int, ghost i: nat) returns (nb: Node?, size: nat, ghost e: nat)
    requires ph.Linked() && i < |ph.nodes| && n == ph.nodes[i] && IsBytes(n.note) && n.note.clicks == t
    ensures IsRegion(NotesOf(ph.nodes), i, e, t) && nb == NodeAt(ph.nodes, e) && size == e - i
  {
    hide Phrase.Linked;
    NextNode(ph, i);
    nb, size, e := n.next, 1, i + 1;
    while nb != null && nb.note.clicks == t && IsBytes(nb.note)
      invariant ph.Linked() && ph.nodes == old(ph.nodes)
      invariant i < e <= |ph.nodes| && nb == NodeAt(ph.nodes, e) && size == e - i
      invariant forall l :: i <= l < e ==> IsBytes(ph.nodes[l].note) && ph.nodes[l].note.clicks == t
      decreases |ph.nodes| - e
    {
      NextNode(ph, e);
      nb := nb.next;
      size := size + 1;
      e := e + 1;
    }
  }

  /** The keys of the notes that are not flagged as used. */
  ghost function Unused(notes: seq<Note>, flags: seq<bool>): Bag
    requires |flags| == |notes|
  {
    if notes == [] then multiset{}
    else (if flags[0] then multiset{} else multiset{ExactKey(notes[0])}) + Unused(notes[1..], flags[1..])
  }

  lemma {:induction false} NoneUsed(notes: seq<Note>, flags: seq<bool>)
    requires |flags| == |notes| && forall l :: 0 <= l < |flags| ==> !flags[l]
    ensures Unused(notes, flags) == Keys(notes)
  {
    if notes != [] {
      NoneUsed(notes[1..], flags[1..]);
    }
  }

  lemma {:induction false} UseOne(notes: seq<Note>, flags: seq<bool>, l: nat)
    requires |flags| == |notes| && l < |flags| && !flags[l]
    ensures Unused(notes, flags) == multiset{ExactKey(notes[l])} + Unused(notes, flags[l := true])
  {
    hide ExactKey;
    var after := flags[l := true];
    if l == 0 {
      assert after[1..] == flags[1..];
    } else {
      UseOne(notes[1..], flags[1..], l - 1);
      assert after[1..] == flags[1..][l - 1 := true];
    }
  }

  lemma {:induction false} UnusedMember(notes: seq<Note>, flags: seq<bool>, k: seq<int>)
    requires AllDiffer(notes, flags, k, |notes|)
    ensures k !in Unused(notes, flags)
  {
    hide ExactKey;
    if notes != [] {
      assert flags[0] || ExactKey(notes[0]) != k;
      assert forall l :: 0 <= l < |flags| - 1 ==> flags[1..][l] == flags[l + 1] && notes[1..][l] == notes[l + 1];
      UnusedMember(notes[1..], flags[1..], k);
    }
  }

  /** The search for an unused note of p2's region that is exactly equal to n; it is flagged. */
  method FindUnused(n: Node, p2: Phrase, n2a: Node, n2b: Node?, flags: array<bool>, ghost j: nat, ghost f: nat)
    returns (found: bool)
    requires p2.Linked() && j < f <= |p2.nodes| && n2a == p2.nodes[j] && n2b == NodeAt(p2.nodes, f)
    requires flags.Length == f - j
    modifies flags
    ensures var notes := NotesOf(p2.nodes)[j..f]; var k := ExactKey(n.note);
      if found then old(Unused(notes, flags[..])) == multiset{k} + Unused(notes, flags[..])
      else flags[..] == old(flags[..]) && k !in Unused(notes, flags[..])
  {
    hide ExactKey, Unused, Phrase.Linked, AllDiffer;
    ghost var notes := NotesOf(p2.nodes)[j..f];
    assert AllDiffer(notes, flags[..], ExactKey(n.note), 0) by { NoneTested(notes, flags[..], ExactKey(n.note)); }
    ghost var before := flags[..];
    found := false;
    var i := 0;
    var ny: Node? := n2a;
    while ny != n2b && !found
      invariant 0 <= i <= f - j && flags.Length == f - j
      invariant !found ==> ny == NodeAt(p2.nodes, j + i) && flags[..] == before
      invariant !found ==> AllDiffer(notes, before, ExactKey(n.note), i)
      invariant found ==> Unused(notes, before) == multiset{ExactKey(n.note)} + Unused(notes, flags[..])
      decreases f - j - i, !found
    {
      SomeNode(p2, j + i, f);
      found := MatchAt(n, ny, flags, i, notes);
      if !found {
        i := i + 1;
        ny := ny.next;
      }
    }
    if !found {
      SameNode(p2, j + i, f);
      UnusedMember(notes, flags[..], ExactKey(n.note));
    }
  }

  ghost predicate AllDiffer(notes: seq<Note>, flags: seq<bool>, k: seq<int>, n: nat) {
    |flags| == |notes| && n <= |notes| && forall l :: 0 <= l < n ==> flags[l] || ExactKey(notes[l]) != k
  }

  /** The test of one note of the region. */
  method MatchAt(n: Node, ny: Node, flags: array<bool>, i: nat, ghost notes: seq<Note>) returns (found: bool)
    requires i < flags.Length == |notes| && notes[i] == ny.note && AllDiffer(notes, flags[..], ExactKey(n.note), i)
    modifies flags
    ensures found ==> Unused(notes, old(flags[..])) == multiset{ExactKey(n.note)} + Unused(notes, flags[..])
    ensures !found ==> flags[..] == old(flags[..]) && AllDiffer(notes, flags[..], ExactKey(n.note), i + 1)
  {
    hide ExactKey, Unused;
    found := false;
    if !flags[i] {
      var c := NtCmpXact(n.note, ny.note);
      if c == 0 {
        ghost var before := flags[..];
        UseOne(notes, before, i);
        flags[i] := true;
        assert flags[..] == before[i := true];
        found := true;
      }
    }
  }

  lemma NoneTested(notes: seq<Note>, flags: seq<bool>, k: seq<int>)
    requires |flags| == |notes|
    ensures AllDiffer(notes, flags, k, 0)
  {
  }

  lemma NextNode(ph: Phrase, i: nat)
    requires ph.Linked() && i < |ph.nodes|
    ensures ph.nodes[i].next == NodeAt(ph.nodes, i + 1)
  {
  }

  lemma SomeNode(ph: Phrase, i: nat, e: nat)
    requires ph.Linked() && i <= e <= |ph.nodes| && NodeAt(ph.nodes, i) != NodeAt(ph.nodes, e)
    ensures i < e && NodeAt(ph.nodes, i) == ph.nodes[i] && ph.nodes[i].next == NodeAt(ph.nodes, i + 1)
  {
  }

  lemma SameNode(ph: Phrase, i: nat, e: nat)
    requires ph.Linked() && i <= e <= |ph.nodes| && NodeAt(ph.nodes, i) == NodeAt(ph.nodes, e)
    ensures i == e
  {
  }

  /** The two phrases share no nodes. */
  ghost predicate Apart(p: Phrase, q: Phrase)
    reads p, q
  {
    p != q && forall k :: 0 <= k < |p.nodes| ==> p.nodes[k] !in q.nodes
  }

  /** Adds a copy of note i when the operation keeps a note that was matched, or not matched. */
  method Offer(op: Op, matched: bool, p: Phrase, n: Node, p1: Phrase, p2: Phrase, ghost a: seq<Note>,
               ghost picks: seq<nat>, ghost i: nat)
    returns (ghost picks': seq<nat>)
    requires Ordered(a) && Result(p, a, picks, i) && i < |a| && n.note == a[i]
    requires Apart(p, p1) && Apart(p, p2) && p1.Linked() && p2.Linked()
    modifies p, p.nodes
    ensures Result(p, a, picks', i + 1) && p.pLeng == old(p.pLeng)
    ensures Keys(NotesOf(p.nodes)) == Keys(NotesOf(old(p.nodes))) + Kept(op, matched, ExactKey(a[i]))
    ensures Apart(p, p1) && Apart(p, p2) && p1.Linked() && p2.Linked()
    ensures forall k :: 0 <= k < |p.nodes| ==> p.nodes[k] in old(p.nodes) || fresh(p.nodes[k])
  {
    hide Ordered, Picked, Keys, ExactKey, Phrase.Linked;
    ghost var r := NotesOf(p.nodes);
    picks' := picks;
    PickNext(a, picks, r, i);
    KeysAdd(r, a[i]);
    if (matched && op == And) || (!matched && op == Minus) {
      AppendCopy(p, n, a, picks, i);
      picks' := picks + [i];
    }
  }

  /** Two regions of byte messages of one time: each note of the first is searched in the second. */
  method MatchRegion(op: Op,
                     p: Phrase, p1: Phrase, p2: Phrase, n1a: Node, n1b: Node?, n2a: Node, n2b: Node?, n2size: nat,
                     ghost picks: seq<nat>, ghost i: nat, ghost e: nat, ghost j: nat, ghost f: nat)
    returns (ghost picks': seq<nat>)
    requires p1.Linked() && p2.Linked() && Apart(p, p1) && Apart(p, p2)
    requires Ordered(NotesOf(p1.nodes)) && Result(p, NotesOf(p1.nodes), picks, i)
    requires i < e <= |p1.nodes| && n1a == p1.nodes[i] && n1b == NodeAt(p1.nodes, e)
    requires j < f <= |p2.nodes| && n2a == p2.nodes[j] && n2b == NodeAt(p2.nodes, f) && n2size == f - j
    modifies p, p.nodes
    ensures Result(p, NotesOf(p1.nodes), picks', e) && p.pLeng == old(p.pLeng)
    ensures Keys(NotesOf(p.nodes)) ==
      Keys(NotesOf(old(p.nodes))) + Wanted(op, Keys(NotesOf(p1.nodes)[i..e]), Keys(NotesOf(p2.nodes)[j..f]))
    ensures Apart(p, p1) && Apart(p, p2) && p1.Linked() && p2.Linked()
    ensures forall k :: 0 <= k < |p.nodes| ==> p.nodes[k] in old(p.nodes) || fresh(p.nodes[k])
  {
    hide Ordered, Picked, Keys, ExactKey, Phrase.Linked, Unused, Wanted, Kept;
    ghost var a, b := NotesOf(p1.nodes), NotesOf(p2.nodes)[j..f];
    var flags := new bool[n2size](_ => false);
    NoneUsed(b, flags[..]);
    var nx: Node? := n1a;
    ghost var m := i;
    picks' := picks;
    ghost var start := Keys(NotesOf(p.nodes));
    ghost var goal := start + Wanted(op, Keys(a[i..e]), Keys(b));
    while nx != n1b
      invariant i <= m <= e && nx == NodeAt(p1.nodes, m) && flags.Length == |b| && fresh(flags)
      invariant Result(p, a, picks', m) && p.pLeng == old(p.pLeng)
      invariant Keys(NotesOf(p.nodes)) + Wanted(op, Keys(a[m..e]), Unused(b, flags[..])) == goal
      invariant Apart(p, p1) && Apart(p, p2) && p1.Linked() && p2.Linked()
      invariant forall k :: 0 <= k < |p.nodes| ==> p.nodes[k] in old(p.nodes) || fresh(p.nodes[k])
      decreases e - m
    {
      SomeNode(p1, m, e);
      ghost var unused, r := Unused(b, flags[..]), Keys(NotesOf(p.nodes));
      var found := FindUnused(nx, p2, n2a, n2b, flags, j, f);
      ghost var left := Unused(b, flags[..]);
      picks' := Offer(op, found, p, nx, p1, p2, a, picks', m);
      RegionStep(op, a, m, e, found, unused, left, r);
      SomeNode(p1, m, e);
      nx := nx.next;
      m := m + 1;
    }
    SameNode(p1, m, e);
    NothingWanted(op, a[m..e], Unused(b, flags[..]));
  }

  lemma NothingWanted(op: Op, a: seq<Note>, b: Bag)
    requires a == []
    ensures Wanted(op, Keys(a), b) == multiset{}
  {
  }

  /** What matching note m of the region changes. */
  lemma RegionStep(op: Op, a: seq<Note>, m: nat, e: nat, found: bool, unused: Bag, left: Bag, r: Bag)
    requires m < e <= |a|
    requires if found then unused == multiset{ExactKey(a[m])} + left else left == unused && ExactKey(a[m]) !in unused
    ensures r + Kept(op, found, ExactKey(a[m])) + Wanted(op, Keys(a[m + 1..e]), left) == r + Wanted(op, Keys(a[m..e]), unused)
  {
    hide Keys, ExactKey, Wanted, Kept;
    var k := ExactKey(a[m]);
    assert a[m..e][1..] == a[m + 1..e] && a[m..e][0] == a[m];
    KeysUnfold(a[m..e]);
    if found {
      WantedMatched(op, k, Keys(a[m + 1..e]), left);
    } else {
      WantedUnmatched(op, k, Keys(a[m + 1..e]), left);
    }
    BagSum(r, Kept(op, found, k), Wanted(op, Keys(a[m + 1..e]), left));
  }

  // ---------- phrop ----------

  /** The result so far, and what is still wanted of the rest, make up what is wanted. */
  ghost predicate Balanced(op: Op, a: seq<Note>, b: seq<Note>, r: Bag, i: nat, j: nat) {
    i <= |a| && j <= |b| && r + Wanted(op, Keys(a[i..]), Keys(b[j..])) == Wanted(op, Keys(a), Keys(b))
  }

  lemma BalanceLess(op: Op, a: seq<Note>, b: seq<Note>, r: Bag, i: nat, j: nat)
    requires Balanced(op, a, b, r, i, j) && i < |a| && j < |b| && Ordered(b)
    requires LexCmp(OrderKey(a[i]), OrderKey(b[j])) < 0
    ensures Balanced(op, a, b, r + Kept(op, false, ExactKey(a[i])), i + 1, j)
  {
    hide Keys, ExactKey, Wanted, Kept, LexCmp, OrderKey;
    NotAhead(b, j, a[i]);
    KeysFrom(a, i);
    WantedUnmatched(op, ExactKey(a[i]), Keys(a[i + 1..]), Keys(b[j..]));
    BagSum(r, Kept(op, false, ExactKey(a[i])), Wanted(op, Keys(a[i + 1..]), Keys(b[j..])));
  }

  lemma BalanceGreater(op: Op, a: seq<Note>, b: seq<Note>, r: Bag, i: nat, j: nat)
    requires Balanced(op, a, b, r, i, j) && i < |a| && j < |b| && Ordered(a)
    requires LexCmp(OrderKey(a[i]), OrderKey(b[j])) > 0
    ensures Balanced(op, a, b, r, i, j + 1)
  {
    hide Keys, ExactKey, Wanted, LexCmp, OrderKey;
    LexTurned(OrderKey(a[i]), OrderKey(b[j]));
    NotAhead(a, i, b[j]);
    KeysFrom(b, j);
    WantedSkip(op, ExactKey(b[j]), Keys(a[i..]), Keys(b[j + 1..]));
  }

  lemma BalanceEqual(op: Op, a: seq<Note>, b: seq<Note>, r: Bag, i: nat, j: nat)
    requires Balanced(op, a, b, r, i, j) && i < |a| && j < |b| && ExactKey(a[i]) == ExactKey(b[j])
    ensures Balanced(op, a, b, r + Kept(op, true, ExactKey(a[i])), i + 1, j + 1)
  {
    hide Keys, ExactKey, Wanted, Kept;
    KeysFrom(a, i);
    KeysFrom(b, j);
    WantedMatched(op, ExactKey(a[i]), Keys(a[i + 1..]), Keys(b[j + 1..]));
    BagSum(r, Kept(op, true, ExactKey(a[i])), Wanted(op, Keys(a[i + 1..]), Keys(b[j + 1..])));
  }

  lemma BalanceRegion(op: Op, a: seq<Note>, b: seq<Note>, r: Bag, i: nat, e: nat, j: nat, f: nat, t: int)
    requires Balanced(op, a, b, r, i, j) && Ordered(a) && Ordered(b) && IsRegion(a, i, e, t) && IsRegion(b, j, f, t)
    ensures Balanced(op, a, b, r + Wanted(op, Keys(a[i..e]), Keys(b[j..f])), e, f)
  {
    hide Keys, Wanted, Ordered;
    RegionsApart(a, i, e, b, j, f, t);
    RegionsApart(b, j, f, a, i, e, t);
    assert a[i..] == a[i..e] + a[e..] && b[j..] == b[j..f] + b[f..];
    KeysConcat(a[i..e], a[e..]);
    KeysConcat(b[j..f], b[f..]);
    WantedApart(op, Keys(a[i..e]), Keys(b[j..f]), Keys(a[e..]), Keys(b[f..]));
    BagSum(r, Wanted(op, Keys(a[i..e]), Keys(b[j..f])), Wanted(op, Keys(a[e..]), Keys(b[f..])));
  }

  lemma BalanceRest(op: Op, a: seq<Note>, b: seq<Note>, r: Bag, i: nat, j: nat)
    requires Balanced(op, a, b, r, i, j) && i < |a| && j == |b|
    ensures Balanced(op, a, b, r + Kept(op, false, ExactKey(a[i])), i + 1, j)
  {
    hide ExactKey, Wanted, Kept;
    KeysFrom(a, i);
    WantedUnmatched(op, ExactKey(a[i]), Keys(a[i + 1..]), Keys(b[j..]));
    BagSum(r, Kept(op, false, ExactKey(a[i])), Wanted(op, Keys(a[i + 1..]), Keys(b[j..])));
  }

  lemma BalanceDone(op: Op, a: seq<Note>, b: seq<Note>, r: Bag, i: nat, j: nat)
    requires Balanced(op, a, b, r, i, j) && (i == |a| || (op == And && j == |b|))
    ensures r == Wanted(op, Keys(a), Keys(b))
  {
  }

  /** Everything that holds between two rounds of the merge. */
  ghost predicate Merging(op: Op, p: Phrase, p1: Phrase, p2: Phrase, picks: seq<nat>, i: nat, j: nat)
    reads p, p.nodes, p1, p1.nodes, p2, p2.nodes
  {
    && p1.Linked() && p2.Linked() && Apart(p, p1) && Apart(p, p2)
    && Ordered(NotesOf(p1.nodes)) && Ordered(NotesOf(p2.nodes))
    && Result(p, NotesOf(p1.nodes), picks, i)
    && Balanced(op, NotesOf(p1.nodes), NotesOf(p2.nodes), Keys(NotesOf(p.nodes)), i, j)
  }

  /** One round of the merge. */
  method MergeStep(op: Op, p: Phrase, p1: Phrase, p2: Phrase, n1: Node, n2: Node, ghost picks: seq<nat>, ghost i: nat,
                   ghost j: nat)
    returns (n1': Node?, n2': Node?, ghost picks': seq<nat>, ghost i': nat, ghost j': nat)
    requires Merging(op, p, p1, p2, picks, i, j)
    requires i < |p1.nodes| && n1 == p1.nodes[i] && j < |p2.nodes| && n2 == p2.nodes[j]
    modifies p, p.nodes
    ensures Merging(op, p, p1, p2, picks', i', j') && p.pLeng == old(p.pLeng)
    ensures i <= i' && j <= j' && i + j < i' + j' && n1' == NodeAt(p1.nodes, i') && n2' == NodeAt(p2.nodes, j')
    ensures forall k :: 0 <= k < |p.nodes| ==> p.nodes[k] in old(p.nodes) || fresh(p.nodes[k])
  {
    hide Keys, ExactKey, OrderKey, LexCmp, Wanted, Kept, Ordered, Picked, Balanced, Phrase.Linked, Phrase.Valid;
    ghost var a, b, r := NotesOf(p1.nodes), NotesOf(p2.nodes), Keys(NotesOf(p.nodes));
    NextNode(p1, i);
    NextNode(p2, j);
    n1', n2', picks', i', j' := n1, n2, picks, i, j;
    if n1.note.clicks == n2.note.clicks && IsBytes(n1.note) && IsBytes(n2.note) {
      var n1b, n2b, n1size, n2size;
      ghost var e, f;
      n1b, n1size, e := RegionEnd(p1, n1, n2.note.clicks, i);
      n2b, n2size, f := RegionEnd(p2, n2, n1.note.clicks, j);
      BalanceRegion(op, a, b, r, i, e, j, f, n1.note.clicks);
      picks' := MatchRegion(op, p, p1, p2, n1, n1b, n2, n2b, n2size, picks, i, e, j, f);
      n1', n2', i', j' := n1b, n2b, e, f;
      return;
    }
    ExactRefines(n1.note, n2.note);
    var cmp := NtCmpXact(n1.note, n2.note);
    LexTurned(ExactKey(n1.note), ExactKey(n2.note));
    LexZero(ExactKey(n1.note), ExactKey(n2.note));
    if cmp < 0 {
      BalanceLess(op, a, b, r, i, j);
      picks' := Offer(op, false, p, n1, p1, p2, a, picks, i);
      NextNode(p1, i);
      n1', i' := n1.next, i + 1;
    } else if cmp > 0 {
      BalanceGreater(op, a, b, r, i, j);
      n2', j' := n2.next, j + 1;
    } else {
      BalanceEqual(op, a, b, r, i, j);
      picks' := Offer(op, true, p, n1, p1, p2, a, picks, i);
      NextNode(p1, i);
      NextNode(p2, j);
      n1', n2', i', j' := n1.next, n2.next, i + 1, j + 1;
    }
  }

  /** p1 - p2 or p1 & p2: copies of notes of p1, in order, with for each key the number of notes
      that the difference or the intersection of the two phrases has. */
  method PhrOp(p1: Phrase, op: Op, p2: Phrase) returns (p: Phrase, ghost picks: seq<nat>)
    requires p1.Linked() && p2.Linked() && Ordered(NotesOf(p1.nodes)) && Ordered(NotesOf(p2.nodes))
    ensures fresh(p) && p.Valid() && p.pLeng == p1.pLeng
    ensures Picked(NotesOf(p1.nodes), picks, NotesOf(p.nodes), |p1.nodes|) && Ordered(NotesOf(p.nodes))
    ensures op == Minus ==> Keys(NotesOf(p.nodes)) == Keys(NotesOf(p1.nodes)) - Keys(NotesOf(p2.nodes))
    ensures op == And ==> Keys(NotesOf(p.nodes)) == Keys(NotesOf(p1.nodes)) * Keys(NotesOf(p2.nodes))
  {
    hide Keys, ExactKey, OrderKey, LexCmp, Wanted, Kept, Ordered, Balanced, Phrase.Linked, Merging;
    var n1, n2 := p1.pNotes, p2.pNotes;
    p := new Phrase();
    p.pLeng := p1.pLeng;
    picks := [];
    ghost var i, j := 0, 0;
    StartMerge(op, p, p1, p2);
    WantedIs(op, Keys(NotesOf(p1.nodes)), Keys(NotesOf(p2.nodes)));
    while n1 != null && n2 != null
      invariant Merging(op, p, p1, p2, picks, i, j) && p.pLeng == p1.pLeng
      invariant i <= |p1.nodes| && j <= |p2.nodes| && n1 == NodeAt(p1.nodes, i) && n2 == NodeAt(p2.nodes, j)
      invariant fresh(p) && forall k :: 0 <= k < |p.nodes| ==> fresh(p.nodes[k])
      decreases |p1.nodes| + |p2.nodes| - i - j
    {
      n1, n2, picks, i, j := MergeStep(op, p, p1, p2, n1, n2, picks, i, j);
      MergeBounds(op, p, p1, p2, picks, i, j);
    }
    if op == Minus {
      while n1 != null
        invariant Merging(op, p, p1, p2, picks, i, j) && p.pLeng == p1.pLeng
        invariant i <= |p1.nodes| && j <= |p2.nodes| && n1 == NodeAt(p1.nodes, i) && (n1 != null ==> j == |p2.nodes|)
        invariant fresh(p) && forall k :: 0 <= k < |p.nodes| ==> fresh(p.nodes[k])
        decreases |p1.nodes| - i
      {
        n1, picks := AddRest(op, p, p1, p2, n1, picks, i, j);
        i := i + 1;
      }
    }
    EndMerge(op, p, p1, p2, picks, i, j);
  }

  /** One note of what remains of p1 when p2 has run out. */
  method AddRest(op: Op, p: Phrase, p1: Phrase, p2: Phrase, n1: Node, ghost picks: seq<nat>, ghost i: nat, ghost j: nat)
    returns (n1': Node?, ghost picks': seq<nat>)
    requires op == Minus && Merging(op, p, p1, p2, picks, i, j) && i < |p1.nodes| && n1 == p1.nodes[i]
    requires j == |p2.nodes|
    modifies p, p.nodes
    ensures Merging(op, p, p1, p2, picks', i + 1, j) && p.pLeng == old(p.pLeng) && n1' == NodeAt(p1.nodes, i + 1)
    ensures forall k :: 0 <= k < |p.nodes| ==> p.nodes[k] in old(p.nodes) || fresh(p.nodes[k])
  {
    hide Keys, ExactKey, Wanted, Kept, Ordered, Picked, Balanced, Phrase.Linked, Phrase.Valid;
    BalanceRest(op, NotesOf(p1.nodes), NotesOf(p2.nodes), Keys(NotesOf(p.nodes)), i, j);
    picks' := Offer(op, false, p, n1, p1, p2, NotesOf(p1.nodes), picks, i);
    NextNode(p1, i);
    n1' := n1.next;
  }

  lemma StartMerge(op: Op, p: Phrase, p1: Phrase, p2: Phrase)
    requires p1.Linked() && p2.Linked() && Ordered(NotesOf(p1.nodes)) && Ordered(NotesOf(p2.nodes))
    requires p.Valid() && p.nodes == [] && p != p1 && p != p2
    ensures Merging(op, p, p1, p2, [], 0, 0)
    ensures p1.pNotes == NodeAt(p1.nodes, 0) && p2.pNotes == NodeAt(p2.nodes, 0)
  {
    hide Ordered, ExactKey, Wanted;
    var a, b := NotesOf(p1.nodes), NotesOf(p2.nodes);
    assert a[0..] == a && b[0..] == b;
    assert Keys(NotesOf(p.nodes)) == multiset{};
    BagSum(multiset{}, multiset{}, Wanted(op, Keys(a), Keys(b)));
  }

  lemma MergeBounds(op: Op, p: Phrase, p1: Phrase, p2: Phrase, picks: seq<nat>, i: nat, j: nat)
    requires Merging(op, p, p1, p2, picks, i, j)
    ensures i <= |p1.nodes| && j <= |p2.nodes|
  {
  }

  lemma EndMerge(op: Op, p: Phrase, p1: Phrase, p2: Phrase, picks: seq<nat>, i: nat, j: nat)
    requires Merging(op, p, p1, p2, picks, i, j) && (i == |p1.nodes| || (op == And && j == |p2.nodes|))
    ensures p.Valid() && Picked(NotesOf(p1.nodes), picks, NotesOf(p.nodes), |p1.nodes|) && Ordered(NotesOf(p.nodes))
    ensures Keys(NotesOf(p.nodes)) == Wanted(op, Keys(NotesOf(p1.nodes)), Keys(NotesOf(p2.nodes)))
  {
    hide Ordered, ExactKey, Wanted, Keys;
    BalanceDone(op, NotesOf(p1.nodes), NotesOf(p2.nodes), Keys(NotesOf(p.nodes)), i, j);
    PickedOrdered(NotesOf(p1.nodes), picks, NotesOf(p.nodes), i);
  }
}
