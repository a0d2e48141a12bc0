/** Phrases of src/phrase.c: linked lists of notes, insertion in order, and reordering in place. */
module Phrases {
  import opened Notes

  class Node {
    const note: Note
    var next: Node?

    constructor (note: Note)
      ensures this.note == note && next == null
    {
      this.note := note;
      next := null;
    }
  }

  ghost function NotesOf(nodes: seq<Node>): (r: seq<Note>)
    ensures |r| == |nodes|
  {
    seq(|nodes|, i requires 0 <= i < |nodes| => nodes[i].note)
  }

  ghost predicate Distinct(nodes: seq<Node>) {
    forall i, j :: 0 <= i < j < |nodes| ==> nodes[i] != nodes[j]
  }

  lemma DistinctInsert(nodes: seq<Node>, n: Node, k: nat)
    requires Distinct(nodes) && n !in nodes && k <= |nodes|
    ensures Distinct(nodes[..k] + [n] + nodes[k..])
  {
    var after := nodes[..k] + [n] + nodes[k..];
    assert forall i :: 0 <= i < k ==> after[i] == nodes[i];
    assert forall i :: k < i < |after| ==> after[i] == nodes[i - 1];
    assert forall i :: 0 <= i < |nodes| ==> nodes[i] in nodes;
  }

  lemma DistinctAt(nodes: seq<Node>, k: nat)
    requires Distinct(nodes) && k < |nodes|
    ensures forall j :: 0 <= j < |nodes| && j != k ==> nodes[j] != nodes[k]
  {
  }

  ghost predicate Ordered(notes: seq<Note>) {
    forall i, j :: 0 <= i < j < |notes| ==> Before(notes[i], notes[j])
  }

  // ---------- Where a note goes ----------

  /** k is the first place whose note comes strictly after n, or the end. */
  ghost predicate IsPlace(notes: seq<Note>, n: Note, k: nat) {
    && k <= |notes|
    && (forall i :: 0 <= i < k ==> Before(notes[i], n))
    && (k < |notes| ==> !Before(notes[k], n))
  }

  lemma PlaceUnique(notes: seq<Note>, n: Note, k: nat, l: nat)
    requires IsPlace(notes, n, k) && IsPlace(notes, n, l)
    ensures k == l
  {
    hide Before;
  }

  lemma PlaceFound(nodes: seq<Node>, n: Note, k: nat)
    requires k <= |nodes| && forall i :: 0 <= i < k ==> Before(nodes[i].note, n)
    requires k < |nodes| ==> !Before(nodes[k].note, n)
    ensures IsPlace(NotesOf(nodes), n, k)
  {
    hide Before;
  }

  /** In an ordered list a note that does not precede the last one goes to the end. */
  lemma PlaceAtEnd(notes: seq<Note>, n: Note)
    requires Ordered(notes) && (notes == [] || Before(notes[|notes| - 1], n))
    ensures IsPlace(notes, n, |notes|)
  {
    hide Before;
    forall i | 0 <= i < |notes| ensures Before(notes[i], n) {
      if i < |notes| - 1 {
        BeforeTrans(notes[i], notes[|notes| - 1], n);
      }
    }
  }

  lemma InsertOrdered(notes: seq<Note>, n: Note, k: nat)
    requires Ordered(notes) && IsPlace(notes, n, k)
    ensures Ordered(notes[..k] + [n] + notes[k..])
  {
    hide Before;
    var after := notes[..k] + [n] + notes[k..];
    assert forall i :: 0 <= i < k ==> after[i] == notes[i];
    assert forall i :: k < i < |after| ==> after[i] == notes[i - 1];
    forall i | k <= i < |notes| ensures Before(n, notes[i]) {
      BeforeTotal(n, notes[k]);
      if i > k {
        BeforeTrans(n, notes[k], notes[i]);
      }
    }
    assert forall i, j :: 0 <= i < j < k ==> Before(after[i], after[j]);
  }

  ghost function Place(notes: seq<Note>, n: Note): (k: nat)
    ensures k <= |notes|
  {
    if notes == [] || !Before(notes[0], n) then 0 else 1 + Place(notes[1..], n)
  }

  lemma {:induction false} PlaceIs(notes: seq<Note>, n: Note)
    ensures IsPlace(notes, n, Place(notes, n))
  {
    hide Before;
    if notes != [] && Before(notes[0], n) {
      PlaceIs(notes[1..], n);
      assert forall i :: 1 <= i < |notes| ==> notes[i] == notes[1..][i - 1];
    }
  }

  // ---------- The stable sort that reordering amounts to ----------

  ghost function Put(s: seq<Node>, n: Node): seq<Node> {
    var k := Place(NotesOf(s), n.note);
    s[..k] + [n] + s[k..]
  }

  ghost function StableSort(s: seq<Node>): seq<Node> {
    if s == [] then [] else Put(StableSort(s[..|s| - 1]), s[|s| - 1])
  }

  lemma PutAt(s: seq<Node>, n: Node, k: nat)
    requires IsPlace(NotesOf(s), n.note, k)
    ensures Put(s, n) == s[..k] + [n] + s[k..]
  {
    PlaceIs(NotesOf(s), n.note);
    PlaceUnique(NotesOf(s), n.note, k, Place(NotesOf(s), n.note));
  }

  lemma NotesOfPut(s: seq<Node>, n: Node, k: nat)
    requires k <= |s|
    ensures NotesOf(s[..k] + [n] + s[k..]) == NotesOf(s)[..k] + [n.note] + NotesOf(s)[k..]
  {
  }

  /** The result is in order and a permutation of the input. */
  lemma {:induction false} StableSortSorts(s: seq<Node>)
    ensures Ordered(NotesOf(StableSort(s))) && |StableSort(s)| == |s| && multiset(StableSort(s)) == multiset(s)
  {
    hide Before, IsPlace;
    if s != [] {
      var front, n := s[..|s| - 1], s[|s| - 1];
      var sorted := StableSort(front);
      StableSortSorts(front);
      var k := Place(NotesOf(sorted), n.note);
      PlaceIs(NotesOf(sorted), n.note);
      InsertOrdered(NotesOf(sorted), n.note, k);
      NotesOfPut(sorted, n, k);
      assert s == front + [n];
      assert sorted == sorted[..k] + sorted[k..];
    }
  }

  /** The nodes whose notes are equal in the order to a given one, in the order of the list. */
  ghost function Class(s: seq<Node>, key: seq<int>): seq<Node> {
    if s == [] then []
    else Class(s[..|s| - 1], key) + if OrderKey(s[|s| - 1].note) == key then [s[|s| - 1]] else []
  }

  lemma {:induction false} ClassOfConcat(a: seq<Node>, b: seq<Node>, key: seq<int>)
    ensures Class(a + b, key) == Class(a, key) + Class(b, key)
    decreases |b|
  {
    if b == [] {
      assert a + b == a;
    } else {
      var c := b[..|b| - 1];
      assert (a + b)[..|a + b| - 1] == a + c;
      ClassOfConcat(a, c, key);
    }
  }

  lemma {:induction false} NoClass(s: seq<Node>, key: seq<int>)
    requires forall i :: 0 <= i < |s| ==> OrderKey(s[i].note) != key
    ensures Class(s, key) == []
  {
    if s != [] {
      NoClass(s[..|s| - 1], key);
    }
  }

  lemma SortStep(s: seq<Node>)
    requires s != []
    ensures StableSort(s) == Put(StableSort(s[..|s| - 1]), s[|s| - 1])
  {
  }

  lemma ClassOfPut(s: seq<Node>, n: Node, key: seq<int>)
    requires Ordered(NotesOf(s))
    ensures Class(Put(s, n), key) == Class(s, key) + if OrderKey(n.note) == key then [n] else []
  {
    hide Before, OrderKey, Class, Ordered, NotesOf, IsPlace;
    var k := Place(NotesOf(s), n.note);
    PlaceIs(NotesOf(s), n.note);
    ClassOfConcat(s[..k] + [n], s[k..], key);
    ClassOfConcat(s[..k], [n], key);
    ClassOfConcat(s[..k], s[k..], key);
    assert s == s[..k] + s[k..];
    ClassOfOne(n, key);
    if OrderKey(n.note) == key {
      AfterPlace(s, n, k);
      NoClass(s[k..], key);
    }
  }

  /** Notes that are equal in the order keep their relative positions. */
  lemma {:induction false} StableSortIsStable(s: seq<Node>, key: seq<int>)
    ensures Class(StableSort(s), key) == Class(s, key)
  {
    hide Before, OrderKey, Put, Ordered, NotesOf;
    if s != [] {
      var front, n := s[..|s| - 1], s[|s| - 1];
      StableSortIsStable(front, key);
      StableSortSorts(front);
      ClassOfPut(StableSort(front), n, key);
    }
  }

  lemma ClassOfOne(n: Node, key: seq<int>)
    ensures Class([n], key) == if OrderKey(n.note) == key then [n] else []
  {
    assert [n][..0] == [];
  }

  /** Nothing from the place of n on is equal to n in the order. */
  lemma AfterPlace(s: seq<Node>, n: Node, k: nat)
    requires Ordered(NotesOf(s)) && IsPlace(NotesOf(s), n.note, k)
    ensures forall i :: 0 <= i < |s[k..]| ==> OrderKey(s[k..][i].note) != OrderKey(n.note)
  {
    hide Before, OrderKey;
    var notes := NotesOf(s);
    forall i | k <= i < |s| ensures OrderKey(s[i].note) != OrderKey(n.note) {
      if OrderKey(notes[i]) == OrderKey(n.note) {
        SameOrder(notes[i], n.note);
        if i > k {
          BeforeTrans(notes[k], notes[i], n.note);
        }
      }
    }
  }

  lemma SameOrder(a: Note, b: Note)
    requires OrderKey(a) == OrderKey(b)
    ensures Before(a, b)
  {
    LexZero(OrderKey(a), OrderKey(b));
  }

  lemma StillThere(before: seq<Node>, i: nat, k: nat, after: seq<Node>)
    requires i + 1 < |before| && k < |before|
    requires var rest := before[..i + 1] + before[i + 2..]; after == rest[..k] + [before[i + 1]] + rest[k..]
    ensures forall j :: 0 <= j < |after| ==> after[j] in before
  {
    var rest := before[..i + 1] + before[i + 2..];
    assert forall j :: 0 <= j < |rest| ==> rest[j] in before;
  }

  /** Where nodes and their successors lie once n stands at place k. */
  lemma NeighboursAfter(before: seq<Node>, k: nat, n: Node, i: nat)
    requires k <= |before| && i <= |before|
    ensures var after := before[..k] + [n] + before[k..];
      && after[i] == (if i < k then before[i] else if i == k then n else before[i - 1])
      && NodeAt(after, i + 1) == if i + 1 < k then before[i + 1] else if i + 1 == k then n else NodeAt(before, i)
  {
  }

  // ---------- Phrases ----------

  class Phrase {
    var pNotes: Node?
    var pEnd: Node?
    var pLeng: int
    /** The nodes of the list, in order. */
    ghost var nodes: seq<Node>

    /** pNotes and the next fields link exactly the nodes. */
    ghost predicate Linked()
      reads this`pNotes, this`nodes, nodes
    {
      && Distinct(nodes) && pNotes == NodeAt(nodes, 0)
      && forall i {:trigger nodes[i].next} :: 0 <= i < |nodes| ==> nodes[i].next == NodeAt(nodes, i + 1)
    }

    ghost predicate Valid()
      reads this, nodes
    {
      Linked() && pEnd == if nodes == [] then null else nodes[|nodes| - 1]
    }

    constructor ()
      ensures Valid() && nodes == [] && pLeng == 0
    {
      pNotes, pEnd, pLeng, nodes := null, null, 0, [];
    }

    /** Inserts a note, after all notes that do not come strictly after it; when pEnd is known,
        a note that does not precede the last one goes to the end at once. */
    method NtInsert(n: Node) returns (ghost k: nat)
      requires Linked() && n !in nodes
      requires pEnd == null || (nodes != [] && pEnd == nodes[|nodes| - 1])
      modifies this`pNotes, this`pEnd, this`nodes, nodes, n
      ensures Linked() && k <= |old(nodes)| && nodes == old(nodes)[..k] + [n] + old(nodes)[k..]
      ensures if old(pEnd) != null && Before(old(pEnd).note, n.note) then k == |old(nodes)|
        else IsPlace(NotesOf(old(nodes)), n.note, k)
      ensures pEnd == if k == |old(nodes)| then n else old(pEnd)
    {
      hide Before;
      if pEnd != null {
        var c := NtCmpOrder(n.note, pEnd.note);
        OrderTurned(pEnd.note, n.note);
        if c >= 0 {
          k := |nodes|;
          pEnd.next := n;
          n.next := null;
          pEnd := n;
          nodes := nodes + [n];
          assert nodes[..k] + [n] + [] == nodes;
          return;
        }
      }
      k := InsertByScan(n);
    }

    method InsertByScan(n: Node) returns (ghost k: nat)
      requires Linked() && n !in nodes
      modifies this`pNotes, this`pEnd, this`nodes, nodes, n
      ensures Linked() && IsPlace(NotesOf(old(nodes)), n.note, k) && nodes == old(nodes)[..k] + [n] + old(nodes)[k..]
      ensures pEnd == if k == |old(nodes)| then n else old(pEnd)
    {
      hide Before, IsPlace, NotesOf;
      var prevnt, nt1;
      prevnt, nt1, k := FindPlace(n);
      LinkIn(prevnt, n, nt1, k);
    }

    /** The search from the front. */
    method FindPlace(n: Node) returns (prevnt: Node?, nt1: Node?, ghost k: nat)
      requires Linked()
      ensures IsPlace(NotesOf(nodes), n.note, k) && k <= |nodes|
      ensures nt1 == NodeAt(nodes, k) && prevnt == if k == 0 then null else nodes[k - 1]
    {
      hide Before, Distinct, NotesOf, IsPlace, LexCmp, OrderKey;
      prevnt, nt1, k := null, pNotes, 0;
      while nt1 != null
        invariant k <= |nodes| && nt1 == NodeAt(nodes, k) && prevnt == (if k == 0 then null else nodes[k - 1])
        invariant forall i :: 0 <= i < k ==> Before(nodes[i].note, n.note)
        decreases |nodes| - k
      {
        var c := NtCmpOrder(nt1.note, n.note);
        OrderMeans(nt1.note, n.note);
        if c > 0 {
          break;
        }
        prevnt := nt1;
        nt1 := nt1.next;
        k := k + 1;
      }
      PlaceFound(nodes, n.note, k);
    }

    /** Links n in between two neighbours. */
    method LinkIn(prevnt: Node?, n: Node, nt1: Node?, ghost k: nat)
      requires Linked() && n !in nodes && k <= |nodes|
      requires nt1 == NodeAt(nodes, k) && prevnt == if k == 0 then null else nodes[k - 1]
      modifies this`pNotes, this`pEnd, this`nodes, nodes, n
      ensures Linked() && nodes == old(nodes)[..k] + [n] + old(nodes)[k..]
      ensures pEnd == if k == |old(nodes)| then n else old(pEnd)
    {
      hide Distinct;
      ghost var before := nodes;
      DistinctInsert(before, n, k);
      if prevnt == null {
        pNotes := n;
      } else {
        DistinctAt(before, k - 1);
        prevnt.next := n;
      }
      assert forall i :: 0 <= i < |before| && i != k - 1 ==> before[i].next == NodeAt(before, i + 1);
      n.next := nt1;
      assert forall i :: 0 <= i < |before| && i != k - 1 ==> before[i].next == NodeAt(before, i + 1);
      if nt1 == null {
        pEnd := n;
      }
      nodes := before[..k] + [n] + before[k..];
      forall i | 0 <= i < |nodes| ensures nodes[i].next == NodeAt(nodes, i + 1) {
        NeighboursAfter(before, k, n, i);
      }
    }

    // ---------- phreorder ----------

    /** Unlinks the node after place i. */
    method Unlink(n: Node, nextn: Node, ghost i: nat)
      requires Linked() && i + 1 < |nodes| && n == nodes[i] && nextn == nodes[i + 1]
      modifies n`next, this`nodes
      ensures Linked() && nodes == old(nodes)[..i + 1] + old(nodes)[i + 2..] && nextn !in nodes
    {
      n.next := nextn.next;
      ghost var before := nodes;
      nodes := before[..i + 1] + before[i + 2..];
      assert forall l :: 0 <= l <= i ==> nodes[l] == before[l];
      assert forall l :: i < l < |nodes| ==> nodes[l] == before[l + 1];
    }

    /** Reorders the list in place, stably, and sets pEnd. */
    method PhReorder()
      requires Linked()
      modifies this`pNotes, this`pEnd, this`nodes, nodes
      ensures Valid() && nodes == StableSort(old(nodes))
    {
      hide Before, IsPlace, NotesOf, StableSort, Put, Linked;
      pEnd := null;
      var n := pNotes;
      ghost var all := nodes;
      ghost var i := 0;
      StableSortOfOne(all);
      StartOfList();
      while n != null && n.next != null
        invariant Linked() && pEnd == null && |nodes| == |all|
        invariant n == null <==> all == []
        invariant n != null ==> SortedTo(all, i, n)
        invariant all == old(nodes) && forall j :: 0 <= j < |nodes| ==> nodes[j] in old(nodes)
        decreases |all| - i
      {
        n := Advance(all, i, n);
        i := i + 1;
      }
      pEnd := n;
      EndOfList(all, i, n);
    }

    /** Nodes up to place i, where n stands, are sorted; the others are as they were. */
    ghost predicate SortedTo(all: seq<Node>, i: nat, n: Node)
      reads this`nodes
    {
      && i < |nodes| == |all| && n == nodes[i]
      && nodes[..i + 1] == StableSort(all[..i + 1]) && nodes[i + 1..] == all[i + 1..]
    }

    lemma StartOfList()
      requires Linked()
      ensures pNotes == NodeAt(nodes, 0) && (nodes != [] ==> nodes[..1] == [nodes[0]])
    {
    }

    lemma NextInList(i: nat)
      requires Linked() && i < |nodes|
      ensures nodes[i].next == NodeAt(nodes, i + 1)
      ensures forall j :: 0 <= j < |nodes| && j != i ==> nodes[j] != nodes[i]
    {
    }

    lemma EndOfList(all: seq<Node>, i: nat, n: Node?)
      requires Linked() && |nodes| == |all| && (n == null <==> all == []) && pEnd == n
      requires n != null ==> SortedTo(all, i, n) && n.next == null
      requires StableSort([]) == []
      ensures Valid() && nodes == StableSort(all)
    {
      hide StableSort;
      if n != null {
        NextInList(i);
        assert i + 1 == |nodes|;
        assert all[..i + 1] == all && nodes[..i + 1] == nodes;
      }
    }

    /** One round of the loop: the node after n stays, or is moved to its place. */
    method Advance(ghost all: seq<Node>, ghost i: nat, n: Node) returns (n': Node)
      requires Linked() && pEnd == null && SortedTo(all, i, n) && n.next != null
      modifies this`pNotes, this`pEnd, this`nodes, nodes
      ensures Linked() && pEnd == null && |nodes| == |all| && SortedTo(all, i + 1, n')
      ensures forall j :: 0 <= j < |nodes| ==> nodes[j] in old(nodes)
      ensures i + 1 < |all|
    {
      hide Before, IsPlace, NotesOf, StableSort, Put, Linked, LexCmp, OrderKey;
      NextInList(i);
      var nextn := n.next;
      ghost var before := nodes;
      var c := NtCmpOrder(n.note, nextn.note);
      OrderMeans(n.note, nextn.note);
      if c <= 0 {
        SortInOrder(all, before, i);
        n' := nextn;
      } else {
        Unlink(n, nextn, i);
        ghost var k := NtInsert(nextn);
        SortOutOfOrder(all, before, i, k);
        StillThere(before, i, k, nodes);
        n' := n;
      }
    }
  }

  lemma StableSortOfOne(all: seq<Node>)
    ensures all != [] ==> StableSort(all[..1]) == [all[0]]
    ensures StableSort([]) == []
  {
    if all != [] {
      assert all[..1][..0] == [];
    }
  }

  lemma PutInOrder(s: seq<Node>, n: Node)
    requires Ordered(NotesOf(s)) && s != [] && Before(s[|s| - 1].note, n.note)
    ensures Put(s, n) == s + [n]
  {
    hide Before, Ordered, IsPlace, Put;
    PlaceAtEnd(NotesOf(s), n.note);
    PutAt(s, n, |s|);
    assert s[..|s|] + [n] + s[|s|..] == s + [n];
  }

  lemma NextPrefix(all: seq<Node>, i: nat)
    requires i < |all|
    ensures StableSort(all[..i + 1]) == Put(StableSort(all[..i]), all[i])
  {
    hide StableSort, Put;
    assert all[..i + 1][..i] == all[..i] && all[..i + 1][i] == all[i];
    SortStep(all[..i + 1]);
  }

  /** The next node is in order: it stays where it is. */
  lemma SortInOrder(all: seq<Node>, nodes: seq<Node>, i: nat)
    requires i + 1 < |nodes| == |all| && nodes[..i + 1] == StableSort(all[..i + 1]) && nodes[i + 1..] == all[i + 1..]
    requires Before(nodes[i].note, nodes[i + 1].note)
    ensures nodes[..i + 2] == StableSort(all[..i + 2]) && nodes[i + 2..] == all[i + 2..]
  {
    hide Before, Ordered, IsPlace, StableSort, Put, NotesOf;
    var sorted, n := nodes[..i + 1], nodes[i + 1];
    assert n == all[i + 1..][0] && sorted[i] == nodes[i];
    StableSortSorts(all[..i + 1]);
    PutInOrder(sorted, n);
    NextPrefix(all, i + 1);
    assert nodes[..i + 2] == sorted + [n];
    assert nodes[i + 2..] == nodes[i + 1..][1..] && all[i + 2..] == all[i + 1..][1..];
  }

  /** A place found in a longer list before place i is the place in the first part. */
  lemma PlaceInPrefix(s: seq<Node>, t: seq<Node>, n: Node, k: nat)
    requires s != [] && !Before(s[|s| - 1].note, n.note) && IsPlace(NotesOf(s + t), n.note, k)
    ensures k < |s| && IsPlace(NotesOf(s), n.note, k)
  {
    hide Before;
    assert NotesOf(s + t)[|s| - 1] == s[|s| - 1].note;
    assert forall l :: 0 <= l < |s| ==> NotesOf(s + t)[l] == NotesOf(s)[l];
  }

  lemma Rearranged(s: seq<Node>, t: seq<Node>, n: Node, k: nat)
    requires k <= |s|
    ensures (s + t)[..k] + [n] + (s + t)[k..] == s[..k] + [n] + s[k..] + t
  {
  }

  /** The next node is out of order: taken out, it goes back in before place i. */
  lemma SortOutOfOrder(all: seq<Node>, nodes: seq<Node>, i: nat, k: nat)
    requires i + 1 < |nodes| == |all| && nodes[..i + 1] == StableSort(all[..i + 1]) && nodes[i + 1..] == all[i + 1..]
    requires !Before(nodes[i].note, nodes[i + 1].note)
    requires IsPlace(NotesOf(nodes[..i + 1] + nodes[i + 2..]), nodes[i + 1].note, k)
    ensures k <= i
    ensures var rest := nodes[..i + 1] + nodes[i + 2..]; var after := rest[..k] + [nodes[i + 1]] + rest[k..];
      after[..i + 2] == StableSort(all[..i + 2]) && after[i + 2..] == all[i + 2..] && after[i + 1] == nodes[i]
  {
    hide Before, IsPlace, StableSort, Put, NotesOf;
    var s, n, t := nodes[..i + 1], nodes[i + 1], nodes[i + 2..];
    assert n == all[i + 1..][0] && s[i] == nodes[i];
    PlaceInPrefix(s, t, n, k);
    PutAt(s, n, k);
    NextPrefix(all, i + 1);
    Rearranged(s, t, n, k);
    var put := s[..k] + [n] + s[k..];
    assert put[i + 1] == s[i] && (put + t)[..i + 2] == put && (put + t)[i + 2..] == t && (put + t)[i + 1] == put[i + 1];
    assert t == nodes[i + 1..][1..] && all[i + 2..] == all[i + 1..][1..];
  }

  ghost function NodeAt(nodes: seq<Node>, i: nat): Node? {
    if i < |nodes| then nodes[i] else null
  }

  lemma OrderMeans(a: Note, b: Note)
    ensures LexCmp(OrderKey(a), OrderKey(b)) <= 0 <==> Before(a, b)
  {
  }

  lemma OrderTurned(a: Note, b: Note)
    ensures LexCmp(OrderKey(b), OrderKey(a)) >= 0 <==> Before(a, b)
  {
    LexTurned(OrderKey(a), OrderKey(b));
  }
}
