/** The patterns of src/regex.c without tags, back-references and word boundaries: how they are
    read, the programs that stand for them, and what they match. */
module Patterns {
  datatype Atom = Chr(c: int) | AnyChar | CharClass(negated: bool, members: set<int>)

  /** A closure applies to one character, any character or a class. */
  datatype Element = One(atom: Atom) | Star(atom: Atom) | LineStart | LineEnd

  datatype Message = NoPrevious | MissingBracket | EmptyClosure | IllegalClosure

  /** `bits` is what bittab is left with; Tagged stands for patterns that are not modelled. */
  datatype Parsed = Good(elements: seq<Element>, bits: set<int>) | Bad(message: Message, bits: set<int>) | Tagged

  predicate IsChar(c: int) {
    0 < c < 128
  }

  ghost predicate PatternOk(pat: seq<int>) {
    forall i :: 0 <= i < |pat| ==> IsChar(pat[i])
  }

  // ---------- Reading a pattern ----------

  /** The character at p, 0 at the end. */
  function At(pat: seq<int>, p: nat): int {
    if p < |pat| then pat[p] else 0
  }

  function Range(c1: int, c2: int): set<int>
    decreases c2 - c1
  {
    if c1 > c2 then {} else Range(c1, c2 - 1) + {c2}
  }

  /** The members of a class from p on, and where they end: at the closing bracket or the end. */
  function ClassFrom(pat: seq<int>, p: nat, members: set<int>): (r: (set<int>, nat))
    requires 0 < p
    ensures r.1 >= p
    decreases |pat| - p
  {
    if p >= |pat| || pat[p] == ']' as int then (members, p)
    else if pat[p] == '-' as int && At(pat, p + 1) != 0 && At(pat, p + 1) != ']' as int then
      ClassFrom(pat, p + 2, members + Range(pat[p - 1] + 1, pat[p + 1]))
    else
      ClassFrom(pat, p + 1, members + {pat[p]})
  }

  /** After the bracket and a caret: a leading dash and a leading bracket stand for themselves. */
  function ClassAfterDash(pat: seq<int>, p: nat, members: set<int>): (r: (set<int>, nat))
    requires 0 < p
    ensures r.1 >= p
  {
    var p1, m1 := if At(pat, p) == '-' as int then p + 1 else p, if At(pat, p) == '-' as int then members + {'-' as int} else members;
    if At(pat, p1) == ']' as int then ClassFrom(pat, p1 + 1, m1 + {']' as int}) else ClassFrom(pat, p1, m1)
  }

  /** The escapes for tags, back-references and word boundaries. */
  predicate IsTag(c: int) {
    c == '(' as int || c == ')' as int || c == '<' as int || c == '>' as int || ('1' as int <= c <= '9' as int)
  }

  function Parse(pat: seq<int>, p: nat, done: seq<Element>, bits: set<int>): Parsed
    requires p > 0 ==> done != []
    decreases |pat| - p
  {
    if p >= |pat| then Good(done, bits)
    else if pat[p] == '.' as int then Parse(pat, p + 1, done + [One(AnyChar)], bits)
    else if pat[p] == '^' as int && p == 0 then Parse(pat, p + 1, done + [LineStart], bits)
    else if pat[p] == '$' as int && p + 1 == |pat| then Parse(pat, p + 1, done + [LineEnd], bits)
    else if pat[p] == '[' as int then
      var negated := At(pat, p + 1) == '^' as int;
      var (members, q) := ClassAfterDash(pat, if negated then p + 2 else p + 1, bits);
      if q >= |pat| then Bad(MissingBracket, members)
      else Parse(pat, q + 1, done + [One(CharClass(negated, members))], {})
    else if pat[p] == '*' as int || pat[p] == '+' as int then
      if p == 0 then Bad(EmptyClosure, bits)
      else
        match done[|done| - 1]
        case Star(_) => Parse(pat, p + 1, done, bits)
        case LineStart => Bad(IllegalClosure, bits)
        case LineEnd => Tagged
        case One(a) => Parse(pat, p + 1, (if pat[p] == '+' as int then done else done[..|done| - 1]) + [Star(a)], bits)
    else if pat[p] == '\\' as int then
      if At(pat, p + 1) == 0 || IsTag(At(pat, p + 1)) then Tagged
      else Parse(pat, p + 2, done + [One(Chr(pat[p + 1]))], bits)
    else Parse(pat, p + 1, done + [One(Chr(pat[p]))], bits)
  }

  // ---------- What a pattern matches ----------

  /** Atom a accepts character c of the text. */
  predicate Accepts(a: Atom, c: int) {
    match a
    case Chr(x) => c == x
    case AnyChar => true
    case CharClass(negated, members) => (c in members) != negated
  }

  ghost predicate RunOf(a: Atom, text: seq<int>, i: nat, k: nat) {
    i <= k <= |text| && forall l :: i <= l < k ==> Accepts(a, text[l])
  }

  /** The elements match the text from i to j; `way` says where each closure ends. */
  ghost predicate Matches(elements: seq<Element>, text: seq<int>, i: nat, way: seq<nat>, j: nat)
    decreases |elements|
  {
    if elements == [] then i == j && way == []
    else
      match elements[0]
      case LineStart => i == 0 && Matches(elements[1..], text, i, way, j)
      case LineEnd => i == |text| && Matches(elements[1..], text, i, way, j)
      case One(a) => i < |text| && Accepts(a, text[i]) && Matches(elements[1..], text, i + 1, way, j)
      case Star(a) => way != [] && RunOf(a, text, i, way[0]) && Matches(elements[1..], text, way[0], way[1..], j)
  }

  /** way is preferred to other: at the first closure where they differ it goes further. */
  ghost predicate Preferred(way: seq<nat>, other: seq<nat>)
    decreases |way|
  {
    way == [] || other == [] || way[0] > other[0] || (way[0] == other[0] && Preferred(way[1..], other[1..]))
  }

  /** The ways agree before place k, and differ there. */
  ghost predicate DiffersFirst(way: seq<nat>, other: seq<nat>, k: nat)
    requires |way| == |other|
  {
    k < |way| && way[k] != other[k] && forall l :: 0 <= l < k ==> way[l] == other[l]
  }

  /** end is where the preferred of all matches from i ends. */
  ghost predicate IsBest(elements: seq<Element>, text: seq<int>, i: nat, end: nat) {
    exists way :: IsPreferred(elements, text, i, way, end)
  }

  ghost predicate IsPreferred(elements: seq<Element>, text: seq<int>, i: nat, way: seq<nat>, end: nat) {
    Matches(elements, text, i, way, end) && forall other, j :: Matches(elements, text, i, other, j) ==>
      Preferred(way, other)
  }

  function Closures(elements: seq<Element>): nat {
    if elements == [] then 0 else (if elements[0].Star? then 1 else 0) + Closures(elements[1..])
  }

  lemma {:induction false} WayIsFull(elements: seq<Element>, text: seq<int>, i: nat, way: seq<nat>, j: nat)
    requires Matches(elements, text, i, way, j)
    ensures |way| == Closures(elements)
    decreases |elements|
  {
    if elements != [] {
      match elements[0]
      case LineStart => WayIsFull(elements[1..], text, i, way, j);
      case LineEnd => WayIsFull(elements[1..], text, i, way, j);
      case One(a) => WayIsFull(elements[1..], text, i + 1, way, j);
      case Star(a) => WayIsFull(elements[1..], text, way[0], way[1..], j);
    }
  }

  /** The way determines where a match ends. */
  lemma {:induction false} OneEnd(elements: seq<Element>, text: seq<int>, i: nat, way: seq<nat>, j: nat, k: nat)
    requires Matches(elements, text, i, way, j) && Matches(elements, text, i, way, k)
    ensures j == k
    decreases |elements|
  {
    if elements != [] {
      match elements[0]
      case LineStart => OneEnd(elements[1..], text, i, way, j, k);
      case LineEnd => OneEnd(elements[1..], text, i, way, j, k);
      case One(a) => OneEnd(elements[1..], text, i + 1, way, j, k);
      case Star(a) => OneEnd(elements[1..], text, way[0], way[1..], j, k);
    }
  }

  lemma {:induction false} PreferredBothWays(way: seq<nat>, other: seq<nat>)
    requires |way| == |other| && Preferred(way, other) && Preferred(other, way)
    ensures way == other
    decreases |way|
  {
    if way != [] {
      PreferredBothWays(way[1..], other[1..]);
      assert way == [way[0]] + way[1..] && other == [other[0]] + other[1..];
    }
  }

  /** In other words: at the first closure where they differ, the preferred way goes further. */
  lemma {:induction false} PreferredMeans(way: seq<nat>, other: seq<nat>)
    requires |way| == |other|
    ensures way == other ==> Preferred(way, other)
    ensures way != other ==>
      (Preferred(way, other) <==> exists k :: 0 <= k < |way| && DiffersFirst(way, other, k) && way[k] > other[k])
    decreases |way|
  {
    if way != [] {
      PreferredMeans(way[1..], other[1..]);
      if way[0] == other[0] {
        assert forall k: nat :: k < |way[1..]| ==>
          (DiffersFirst(way, other, k + 1) <==> DiffersFirst(way[1..], other[1..], k));
        assert way == other <==> way[1..] == other[1..] by {
          assert way == [way[0]] + way[1..] && other == [other[0]] + other[1..];
        }
        if k: nat :| k < |way[1..]| && DiffersFirst(way[1..], other[1..], k) && way[1..][k] > other[1..][k] {
          assert DiffersFirst(way, other, k + 1);
        }
      } else {
        assert DiffersFirst(way, other, 0);
      }
    }
  }

  /** So there is at most one best end. */
  lemma BestIsUnique(elements: seq<Element>, text: seq<int>, i: nat, j: nat, k: nat)
    requires IsBest(elements, text, i, j) && IsBest(elements, text, i, k)
    ensures j == k
  {
    hide Matches, Preferred;
    var way :| IsPreferred(elements, text, i, way, j);
    var other :| IsPreferred(elements, text, i, other, k);
    WayIsFull(elements, text, i, way, j);
    WayIsFull(elements, text, i, other, k);
    PreferredBothWays(way, other);
    OneEnd(elements, text, i, way, j, k);
  }

  /** What the matcher finds: nothing, an end, or, behind a negated class at the end of the text,
      a place past its terminator. */
  datatype Outcome = NoMatch | EndAt(end: nat) | PastEnd

  function RunEnd(a: Atom, text: seq<int>, i: nat): (k: nat)
    requires i <= |text|
    ensures i <= k <= |text|
    decreases |text| - i
  {
    if i < |text| && Accepts(a, text[i]) then RunEnd(a, text, i + 1) else i
  }

  /** The greedy search: closures first run as far as they can, then give back one character at a time. */
  function Greedy(elements: seq<Element>, text: seq<int>, i: nat): Outcome
    requires i <= |text|
    decreases |elements|, 0
  {
    if elements == [] then EndAt(i)
    else
      match elements[0]
      case LineStart => if i == 0 then Greedy(elements[1..], text, i) else NoMatch
      case LineEnd => if i == |text| then Greedy(elements[1..], text, i) else NoMatch
      case One(a) =>
        if i < |text| then (if Accepts(a, text[i]) then Greedy(elements[1..], text, i + 1) else NoMatch)
        else if a.CharClass? && a.negated then PastEnd
        else NoMatch
      case Star(a) => GiveBack(elements[1..], text, i, RunEnd(a, text, i))
  }

  function GiveBack(rest: seq<Element>, text: seq<int>, i: nat, k: nat): Outcome
    requires i <= k <= |text|
    decreases |rest|, k - i + 1
  {
    var r := Greedy(rest, text, k);
    if r != NoMatch then r
    else if k == i then NoMatch
    else GiveBack(rest, text, i, k - 1)
  }

  lemma {:induction false} RunEndIs(a: Atom, text: seq<int>, i: nat)
    requires i <= |text|
    ensures RunOf(a, text, i, RunEnd(a, text, i))
    ensures forall k: nat :: RunOf(a, text, i, k) ==> k <= RunEnd(a, text, i)
    decreases |text| - i
  {
    if i < |text| && Accepts(a, text[i]) {
      RunEndIs(a, text, i + 1);
      forall k: nat | RunOf(a, text, i, k) ensures k <= RunEnd(a, text, i) {
        if k > i {
          assert RunOf(a, text, i + 1, k);
        }
      }
    } else {
      assert forall k: nat :: RunOf(a, text, i, k) && i < k ==> Accepts(a, text[i]);
    }
  }

  /** The search finds a match if and only if there is one, and then the preferred one. */
  lemma {:induction false} GreedyFinds(elements: seq<Element>, text: seq<int>, i: nat) returns (way: seq<nat>)
    requires i <= |text| && Greedy(elements, text, i) != PastEnd
    ensures Greedy(elements, text, i).EndAt? ==> Matches(elements, text, i, way, Greedy(elements, text, i).end)
    ensures Greedy(elements, text, i).EndAt? ==> forall other, j :: Matches(elements, text, i, other, j) ==>
      Preferred(way, other)
    ensures Greedy(elements, text, i) == NoMatch ==> forall other, j :: !Matches(elements, text, i, other, j)
    decreases |elements|, 0
  {
    way := [];
    if elements != [] {
      match elements[0]
      case LineStart => if i == 0 { way := GreedyFinds(elements[1..], text, i); }
      case LineEnd => if i == |text| { way := GreedyFinds(elements[1..], text, i); }
      case One(a) => if i < |text| && Accepts(a, text[i]) { way := GreedyFinds(elements[1..], text, i + 1); }
      case Star(a) =>
        RunEndIs(a, text, i);
        way := GiveBackFinds(a, elements[1..], text, i, RunEnd(a, text, i));
    }
  }

  lemma {:induction false} GiveBackFinds(a: Atom, rest: seq<Element>, text: seq<int>, i: nat, k: nat)
    returns (way: seq<nat>)
    requires i <= k <= |text| && GiveBack(rest, text, i, k) != PastEnd && RunOf(a, text, i, k)
    ensures GiveBack(rest, text, i, k).EndAt? ==>
      way != [] && i <= way[0] <= k && Matches(rest, text, way[0], way[1..], GiveBack(rest, text, i, k).end)
    ensures GiveBack(rest, text, i, k).EndAt? ==>
      forall other, j :: other != [] && i <= other[0] <= k && Matches(rest, text, other[0], other[1..], j) ==>
        Preferred(way, other)
    ensures GiveBack(rest, text, i, k) == NoMatch ==>
      forall other, j :: other != [] && i <= other[0] <= k ==> !Matches(rest, text, other[0], other[1..], j)
    decreases |rest|, k - i + 1
  {
    var tail := GreedyFinds(rest, text, k);
    way := [k] + tail;
    assert way[1..] == tail;
    if Greedy(rest, text, k) == NoMatch && k > i {
      way := GiveBackFinds(a, rest, text, i, k - 1);
    }
  }

  // ---------- Running past the end of the text ----------

  /** Some character is accepted by a. */
  predicate Matchable(a: Atom) {
    exists c :: 0 < c < 128 && Accepts(a, c)
  }

  /** A negated class outside a closure. */
  predicate IsBare(elements: seq<Element>, k: nat)
    requires k < |elements|
  {
    elements[k].One? && elements[k].atom.CharClass? && elements[k].atom.negated
  }

  /** Every element before place k that takes exactly one character can be given one. */
  predicate Passable(elements: seq<Element>, k: nat)
    requires k <= |elements|
  {
    forall j :: 0 <= j < k && elements[j].One? ==> Matchable(elements[j].atom)
  }

  /** Some element before place k can be given a character. */
  predicate Consumes(elements: seq<Element>, k: nat)
    requires k <= |elements|
  {
    exists j :: 0 <= j < k && (elements[j].One? || elements[j].Star?) && Matchable(elements[j].atom)
  }

  /** A negated class outside a closure can be reached; behind some character, if `inside`. */
  predicate CanRunPast(elements: seq<Element>, inside: bool) {
    exists k :: 0 <= k < |elements| && IsBare(elements, k) && Passable(elements, k) &&
      (inside ==> Consumes(elements, k))
  }

  /** The anchors stand where a pattern has them. */
  predicate IsShaped(elements: seq<Element>) {
    && (forall k :: 0 < k < |elements| ==> elements[k] != LineStart)
    && forall k :: 0 <= k < |elements| - 1 ==> elements[k] != LineEnd
  }

  ghost predicate TextOk(text: seq<int>) {
    forall i :: 0 <= i < |text| ==> IsChar(text[i])
  }

  /** The search from i, before the end of the text if `inside`, runs past the end. */
  ghost predicate RunsPast(elements: seq<Element>, text: seq<int>, i: nat, inside: bool) {
    TextOk(text) && i <= |text| && (inside ==> i < |text|) && Greedy(elements, text, i) == PastEnd
  }

  lemma GiveBackWhere(rest: seq<Element>, text: seq<int>, i: nat, k: nat) returns (e: nat)
    requires i <= k <= |text| && GiveBack(rest, text, i, k) == PastEnd
    ensures i <= e <= k && Greedy(rest, text, e) == PastEnd
    decreases k - i
  {
    e := k;
    if Greedy(rest, text, k) != PastEnd {
      e := GiveBackWhere(rest, text, i, k - 1);
    }
  }

  lemma BehindFirst(elements: seq<Element>, k: nat)
    requires elements != [] && k < |elements| - 1
    ensures IsBare(elements, k + 1) <==> IsBare(elements[1..], k)
    ensures Passable(elements, k + 1) <==>
      Passable(elements[1..], k) && (elements[0].One? ==> Matchable(elements[0].atom))
    ensures Consumes(elements, k + 1) <==>
      Consumes(elements[1..], k) || ((elements[0].One? || elements[0].Star?) && Matchable(elements[0].atom))
  {
    hide Matchable;
    var rest := elements[1..];
    assert forall j :: 0 <= j < |rest| ==> rest[j] == elements[j + 1];
    assert forall j :: 0 < j < |elements| ==> elements[j] == rest[j - 1];
  }

  /** A run past the end got there through a negated class outside a closure. */
  lemma {:induction false} WhereItRunsPast(elements: seq<Element>, text: seq<int>, i: nat) returns (k: nat)
    requires RunsPast(elements, text, i, false)
    ensures k < |elements| && IsBare(elements, k) && Passable(elements, k) && (i < |text| ==> Consumes(elements, k))
    decreases |elements|
  {
    hide Matchable;
    var e, rest := i, elements[1..];
    match elements[0] {
      case LineStart =>
      case LineEnd =>
      case One(a) =>
        if i == |text| {
          return 0;
        }
        TextIsMatchable(a, text, i);
        e := i + 1;
      case Star(a) =>
        e := GiveBackWhere(rest, text, i, RunEnd(a, text, i));
        if e > i {
          RunEndIs(a, text, i);
          TextIsMatchable(a, text, i);
        }
    }
    k := WhereItRunsPast(rest, text, e);
    BehindFirst(elements, k);
    k := k + 1;
  }

  lemma TextIsMatchable(a: Atom, text: seq<int>, i: nat)
    requires TextOk(text) && i < |text| && Accepts(a, text[i])
    ensures Matchable(a)
  {
    assert IsChar(text[i]);
  }

  // The other direction: a text on which the pattern does run past.

  ghost function Chosen(a: Atom): (c: int)
    requires Matchable(a)
    ensures IsChar(c) && Accepts(a, c)
  {
    var c :| 0 < c < 128 && Accepts(a, c);
    c
  }

  /** One character for each element before place k that takes exactly one. */
  ghost function Fill(elements: seq<Element>, k: nat): seq<int>
    requires k <= |elements| && Passable(elements, k)
  {
    if k == 0 then []
    else
      BehindTail(elements, k);
      (if elements[0].One? then [Chosen(elements[0].atom)] else []) + Fill(elements[1..], k - 1)
  }

  lemma BehindTail(elements: seq<Element>, k: nat)
    requires 0 < k <= |elements| && Passable(elements, k)
    ensures Passable(elements[1..], k - 1)
  {
    hide Matchable;
    assert forall j :: 0 <= j < |elements[1..]| ==> elements[1..][j] == elements[j + 1];
  }

  /** The least number of characters that a match takes. */
  function Ones(elements: seq<Element>): nat {
    if elements == [] then 0 else (if elements[0].One? then 1 else 0) + Ones(elements[1..])
  }

  lemma {:induction false} MatchTakes(elements: seq<Element>, text: seq<int>, i: nat, way: seq<nat>, j: nat)
    requires i <= |text| && Matches(elements, text, i, way, j)
    ensures i + Ones(elements) <= j <= |text|
    decreases |elements|
  {
    if elements != [] {
      match elements[0]
      case LineStart => MatchTakes(elements[1..], text, i, way, j);
      case LineEnd => MatchTakes(elements[1..], text, i, way, j);
      case One(a) => MatchTakes(elements[1..], text, i + 1, way, j);
      case Star(a) => MatchTakes(elements[1..], text, way[0], way[1..], j);
    }
  }

  lemma {:induction false} FillIsShort(elements: seq<Element>, k: nat)
    requires k < |elements| && elements[k].One? && Passable(elements, k)
    ensures |Fill(elements, k)| < Ones(elements) && TextOk(Fill(elements, k))
    ensures Fill(elements, k) == [] ==> forall j :: 0 <= j < k ==> !elements[j].One?
    decreases k
  {
    hide Matchable;
    if k > 0 {
      BehindTail(elements, k);
      FillIsShort(elements[1..], k - 1);
      assert forall j :: 0 < j < k ==> elements[j] == elements[1..][j - 1];
    }
  }

  /** The anchors before place k let the search through from i. */
  predicate Open(elements: seq<Element>, k: nat, i: nat)
    requires k <= |elements|
  {
    forall j :: 0 <= j < k ==> elements[j] != LineEnd && (elements[j] == LineStart ==> j == i == 0)
  }

  lemma {:induction false} GiveBackAny(rest: seq<Element>, text: seq<int>, i: nat, k: nat)
    requires i <= k <= |text| && Greedy(rest, text, i) != NoMatch
    ensures GiveBack(rest, text, i, k) != NoMatch
    decreases k - i
  {
    if k > i {
      GiveBackAny(rest, text, i, k - 1);
    }
  }

  /** On the filling text, with all closures empty, the search gets to the negated class. */
  lemma {:induction false} Gets(elements: seq<Element>, text: seq<int>, i: nat, k: nat)
    requires k < |elements| && IsBare(elements, k) && Passable(elements, k) && Open(elements, k, i)
    requires i <= |text| && text[i..] == Fill(elements, k)
    ensures Greedy(elements, text, i) != NoMatch
    decreases k
  {
    hide Matchable;
    if k > 0 {
      var rest := elements[1..];
      BehindTail(elements, k);
      BehindFirst(elements, k - 1);
      assert forall j :: 0 <= j < k - 1 ==> rest[j] == elements[j + 1];
      match elements[0]
      case LineStart => Gets(rest, text, i, k - 1);
      case LineEnd => assert false;
      case One(a) =>
        assert text[i] == text[i..][0] == Fill(elements, k)[0];
        assert text[i + 1..] == text[i..][1..] == Fill(rest, k - 1);
        Gets(rest, text, i + 1, k - 1);
      case Star(a) =>
        Gets(rest, text, i, k - 1);
        GiveBackAny(rest, text, i, RunEnd(a, text, i));
    }
  }

  /** At the end of the text closures are empty. */
  lemma {:induction false} GetsAtEnd(elements: seq<Element>, text: seq<int>, k: nat)
    requires k < |elements| && IsBare(elements, k) && forall j :: 0 <= j < k ==> elements[j].Star?
    ensures Greedy(elements, text, |text|) == PastEnd
    decreases k
  {
    if k > 0 {
      assert forall j :: 0 <= j < k - 1 ==> elements[1..][j] == elements[j + 1];
      GetsAtEnd(elements[1..], text, k - 1);
    }
  }

  /** The first closure that can take the only character does, and nothing is left for the class. */
  lemma {:induction false} ClosureTakesAll(elements: seq<Element>, k: nat, c: int, j: nat)
    requires j < k < |elements| && IsBare(elements, k) && Open(elements, k, 0)
    requires forall l :: 0 <= l < k ==> !elements[l].One?
    requires elements[j].Star? && Accepts(elements[j].atom, c)
    ensures Greedy(elements, [c], 0) == PastEnd
    decreases k
  {
    var rest, text := elements[1..], [c];
    assert forall l :: 0 <= l < |rest| ==> rest[l] == elements[l + 1];
    match elements[0]
    case LineStart => ClosureTakesAll(rest, k - 1, c, j - 1);
    case LineEnd => assert false;
    case One(a) => assert false;
    case Star(a) =>
      if Accepts(a, c) {
        assert RunEnd(a, text, 0) == RunEnd(a, text, 1) == 1;
        GetsAtEnd(rest, text, k - 1);
      } else {
        ClosureTakesAll(rest, k - 1, c, j - 1);
      }
  }

  lemma TextThatRunsPast(elements: seq<Element>, inside: bool) returns (text: seq<int>)
    requires IsShaped(elements) && CanRunPast(elements, inside)
    ensures RunsPast(elements, text, 0, inside)
  {
    hide Matchable;
    var k :| 0 <= k < |elements| && IsBare(elements, k) && Passable(elements, k) && (inside ==> Consumes(elements, k));
    text := Fill(elements, k);
    FillIsShort(elements, k);
    if inside && text == [] {
      var j :| 0 <= j < k && (elements[j].One? || elements[j].Star?) && Matchable(elements[j].atom);
      text := [Chosen(elements[j].atom)];
      ClosureTakesAll(elements, k, text[0], j);
    } else {
      assert text[0..] == text;
      Gets(elements, text, 0, k);
      if Greedy(elements, text, 0).EndAt? {
        var way := GreedyFinds(elements, text, 0);
        MatchTakes(elements, text, 0, way, Greedy(elements, text, 0).end);
      }
    }
  }

  /** A pattern runs past the end of some text exactly when a negated class outside a closure can
      be reached; from a start before the end, when it can be reached behind some character. */
  lemma RunsPastExactly(elements: seq<Element>, inside: bool)
    requires IsShaped(elements)
    ensures CanRunPast(elements, inside) <==> exists text, i :: RunsPast(elements, text, i, inside)
  {
    hide Matchable, Greedy;
    if CanRunPast(elements, inside) {
      var text := TextThatRunsPast(elements, inside);
    }
    forall text, i | RunsPast(elements, text, i, inside) ensures CanRunPast(elements, inside) {
      var k := WhereItRunsPast(elements, text, i);
    }
  }

  /** So a leading negated class is no danger before the end of a text: not [^b]+, nor [^b]c. */
  lemma LeadingClassStaysInside(elements: seq<Element>)
    requires IsShaped(elements) && forall k :: 0 < k < |elements| ==> !IsBare(elements, k)
    ensures !CanRunPast(elements, true) && forall text, i :: !RunsPast(elements, text, i, true)
  {
    RunsPastExactly(elements, true);
  }

  /** The pattern a[^b] runs past the end of the text a, which it does not match. */
  lemma BareNegatedRunsPast()
    ensures var elements := [One(Chr('a' as int)), One(CharClass(true, {'b' as int}))]; var text := ['a' as int];
      Greedy(elements, text, 0) == PastEnd && forall way, j :: !Matches(elements, text, 0, way, j)
  {
    var elements, text := [One(Chr('a' as int)), One(CharClass(true, {'b' as int}))], ['a' as int];
    assert elements[1..] == [One(CharClass(true, {'b' as int}))];
    forall way, j ensures !Matches(elements, text, 0, way, j) {
      assert !Matches(elements[1..], text, 1, way, j);
    }
  }
}
