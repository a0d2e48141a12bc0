/** The compiled programs of src/regex.c, and the matcher that runs them. */
module Programs {
  import opened Bits
  import opened Patterns

  const END := 0
  const CHR := 1
  const ANY := 2
  const CCL := 3
  const NCL := 4
  const BOL := 5
  const EOL := 6
  const CLO := 12
  const BITBLK := 16

  /** A cell holds an operation or a character, or one of the 16 parts of a class's bit table. */
  datatype Cell = Code(code: int) | Block(bits: Word)

  // ---------- Layout ----------

  function AtomSize(a: Atom): nat {
    match a
    case Chr(_) => 2
    case AnyChar => 1
    case CharClass(_, _) => 17
  }

  function Size(e: Element): nat {
    match e
    case One(a) => AtomSize(a)
    case Star(a) => AtomSize(a) + 2
    case LineStart => 1
    case LineEnd => 1
  }

  function TotalSize(elements: seq<Element>): nat {
    if elements == [] then 0 else Size(elements[0]) + TotalSize(elements[1..])
  }

  /** Bit c of a table of eight bits to the cell. */
  predicate InTable(d: seq<Cell>, p: nat, c: nat)
    requires c < 128 && p + 16 <= |d|
  {
    d[p + c / 8].Block? && Bit(d[p + c / 8].bits, c % 8)
  }

  ghost predicate TableAt(d: seq<Cell>, p: nat, members: set<int>) {
    && p + 16 <= |d|
    && (forall n :: p <= n < p + 16 ==> d[n].Block?)
    && forall c :: 0 <= c < 128 ==> (c in members <==> InTable(d, p, c))
  }

  ghost predicate AtomAt(d: seq<Cell>, p: nat, a: Atom) {
    p + AtomSize(a) <= |d| &&
    match a
    case Chr(c) => d[p] == Code(CHR) && d[p + 1] == Code(c)
    case AnyChar => d[p] == Code(ANY)
    case CharClass(negated, members) => d[p] == Code(if negated then NCL else CCL) && TableAt(d, p + 1, members)
  }

  ghost predicate ElementAt(d: seq<Cell>, p: nat, e: Element) {
    p + Size(e) <= |d| &&
    match e
    case One(a) => AtomAt(d, p, a)
    case Star(a) => d[p] == Code(CLO) && AtomAt(d, p + 1, a) && d[p + 1 + AtomSize(a)] == Code(END)
    case LineStart => d[p] == Code(BOL)
    case LineEnd => d[p] == Code(EOL)
  }

  /** The elements are laid out from p on, and followed by END. */
  ghost predicate ProgramAt(d: seq<Cell>, p: nat, elements: seq<Element>)
    decreases |elements|
  {
    if elements == [] then p < |d| && d[p] == Code(END)
    else ElementAt(d, p, elements[0]) && ProgramAt(d, p + Size(elements[0]), elements[1..])
  }

  /** Characters are 7-bit and not 0, and 0 is in no class. */
  ghost predicate AtomOk(a: Atom) {
    match a
    case Chr(c) => c != 0
    case AnyChar => true
    case CharClass(_, members) => 0 !in members
  }

  ghost predicate ElementsOk(elements: seq<Element>) {
    forall k :: 0 <= k < |elements| && (elements[k].One? || elements[k].Star?) ==> AtomOk(elements[k].atom)
  }

  // ---------- pmatch ----------

  /** isinset */
  predicate IsInSet(d: seq<Cell>, p: nat, c: int)
    requires 0 <= c < 128 && p + 16 <= |d|
  {
    InTable(d, p, c)
  }

  /** RunEnd, for a closure over a class: each step runs the class's own program. */
  method RunClass(d: seq<Cell>, text: seq<int>, lp: nat, ap: nat, ghost a: Atom) returns (e: nat)
    requires TextOk(text) && AtomOk(a) && a.CharClass? && lp <= |text|
    requires AtomAt(d, ap, a) && ap + AtomSize(a) < |d| && d[ap + AtomSize(a)] == Code(END)
    ensures e == RunEnd(a, text, lp)
    decreases AtomSize(a), 1
  {
    OneProgram(d, ap, a);
    e := lp;
    var more := true;
    while e < |text| && more
      invariant lp <= e <= |text|
      invariant if more then RunEnd(a, text, e) == RunEnd(a, text, lp) else e == RunEnd(a, text, lp)
      decreases |text| - e, more
    {
      var r := PMatch(d, text, e, ap, [One(a)]);
      assert [One(a)][1..] == [];
      match r {
        case EndAt(end) => e := end;
        case NoMatch => more := false;
        case PastEnd => assert false;
      }
    }
  }

  /** A closure: run as far as the atom goes, then give characters back until the rest matches. */
  method Closure(d: seq<Cell>, text: seq<int>, are: nat, ap: nat, ghost a: Atom, ghost rest: seq<Element>)
    returns (r: Outcome)
    requires TextOk(text) && AtomOk(a) && ElementsOk(rest) && are <= |text|
    requires AtomAt(d, ap, a) && ap + AtomSize(a) < |d| && d[ap + AtomSize(a)] == Code(END)
    requires ProgramAt(d, ap + AtomSize(a) + 1, rest)
    ensures r == GiveBack(rest, text, are, RunEnd(a, text, are))
    decreases TotalSize(rest) + AtomSize(a) + 1, 0
  {
    var lp: int := are;
    var n;
    if d[ap].code == ANY {
      while lp < |text|
        invariant are <= lp <= |text| && RunEnd(a, text, lp) == RunEnd(a, text, are)
      {
        lp := lp + 1;
      }
      n := 2;
    } else if d[ap].code == CHR {
      var c := d[ap + 1].code;
      while lp < |text| && c == text[lp]
        invariant are <= lp <= |text| && RunEnd(a, text, lp) == RunEnd(a, text, are)
      {
        lp := lp + 1;
      }
      n := 3;
    } else {
      lp := RunClass(d, text, lp, ap, a);
      n := 18;
    }
    assert n == AtomSize(a) + 1 && lp == RunEnd(a, text, are);
    while lp >= are
      invariant are - 1 <= lp <= |text|
      invariant lp >= are ==> GiveBack(rest, text, are, lp) == GiveBack(rest, text, are, RunEnd(a, text, are))
      invariant lp < are ==> GiveBack(rest, text, are, RunEnd(a, text, are)) == NoMatch
      decreases lp - are + 1
    {
      r := PMatch(d, text, lp, ap + n, rest);
      if r != NoMatch {
        return;
      }
      lp := lp - 1;
    }
    r := NoMatch;
  }

  lemma OneProgram(d: seq<Cell>, p: nat, a: Atom)
    requires AtomAt(d, p, a) && p + AtomSize(a) < |d| && d[p + AtomSize(a)] == Code(END) && AtomOk(a)
    ensures ProgramAt(d, p, [One(a)]) && ElementsOk([One(a)]) && TotalSize([One(a)]) == AtomSize(a)
  {
    assert [One(a)][1..] == [];
  }

  /** The matcher: it runs the program at ap on the text from lp on. */
  method PMatch(d: seq<Cell>, text: seq<int>, lp0: nat, ap0: nat, ghost elements: seq<Element>) returns (r: Outcome)
    requires ProgramAt(d, ap0, elements) && ElementsOk(elements) && TextOk(text) && lp0 <= |text|
    ensures r == Greedy(elements, text, lp0)
    decreases TotalSize(elements), 0
  {
    var lp: nat, ap: nat := lp0, ap0;
    ghost var rest := elements;
    while d[ap] != Code(END)
      invariant lp <= |text| && ProgramAt(d, ap, rest) && ap < |d| && ElementsOk(rest)
      invariant Greedy(rest, text, lp) == Greedy(elements, text, lp0)
      invariant TotalSize(rest) <= TotalSize(elements)
      decreases |rest|
    {
      ghost var e := rest[0];
      assert ElementAt(d, ap, e);
      var op := d[ap].code;
      if op == CLO {
        r := Closure(d, text, lp, ap + 1, e.atom, rest[1..]);
        return;
      }
      ap := ap + 1;
      if op == CHR {
        if lp == |text| || d[ap].code != text[lp] {
          return NoMatch;
        }
        lp, ap := lp + 1, ap + 1;
      } else if op == ANY {
        if lp == |text| {
          return NoMatch;
        }
        lp := lp + 1;
      } else if op == CCL {
        if !IsInSet(d, ap, At(text, lp)) {
          return NoMatch;
        }
        lp, ap := lp + 1, ap + BITBLK;
      } else if op == NCL {
        if IsInSet(d, ap, At(text, lp)) {
          return NoMatch;
        }
        if lp == |text| {
          return PastEnd;
        }
        lp, ap := lp + 1, ap + BITBLK;
      } else if op == BOL {
        if lp != 0 {
          return NoMatch;
        }
      } else {
        if lp < |text| {
          return NoMatch;
        }
      }
      rest := rest[1..];
    }
    r := EndAt(lp);
  }

  // ---------- myre_exec ----------

  /** The leftmost place before the end of the text where the search does not fail. */
  ghost predicate IsLeftmost(elements: seq<Element>, text: seq<int>, r: Outcome, start: nat) {
    && (r != NoMatch ==> start < |text| && r == Greedy(elements, text, start))
    && (r != NoMatch ==> forall i :: 0 <= i < start ==> Greedy(elements, text, i) == NoMatch)
    && (r == NoMatch ==> forall i :: 0 <= i < |text| ==> Greedy(elements, text, i) == NoMatch)
  }

  /** What myre_exec makes of the elements and the text. */
  ghost predicate ExecGives(elements: seq<Element>, text: seq<int>, r: Outcome, start: nat) {
    if elements == [] then r == NoMatch
    else if elements[0] == LineStart then start == 0 && r == Greedy(elements, text, 0)
    else IsLeftmost(elements, text, r, start)
  }

  /** myre_exec: the first match of the text, its start and its end. A program without elements, as
      an unsuccessful compilation leaves it, matches nothing. */
  method MyreExec(d: seq<Cell>, text: seq<int>, ghost elements: seq<Element>) returns (r: Outcome, start: nat)
    requires ProgramAt(d, 0, elements) && ElementsOk(elements) && TextOk(text)
    ensures ExecGives(elements, text, r, start)
  {
    var lp: nat := 0;
    FirstCell(d, elements);
    if d[0] == Code(END) {
      return NoMatch, 0;
    }
    if d[0] == Code(BOL) {
      r := PMatch(d, text, 0, 0, elements);
      return r, 0;
    }
    if d[0] == Code(CHR) {
      var c := d[1].code;
      while lp < |text| && text[lp] != c
        invariant lp <= |text| && forall i :: 0 <= i < lp ==> Greedy(elements, text, i) == NoMatch
      {
        lp := lp + 1;
      }
      if lp == |text| {
        return NoMatch, lp;
      }
    }
    r := NoMatch;
    while lp < |text|
      invariant lp <= |text| && r == NoMatch && forall i :: 0 <= i < lp ==> Greedy(elements, text, i) == NoMatch
    {
      r := PMatch(d, text, lp, 0, elements);
      if r != NoMatch {
        return r, lp;
      }
      lp := lp + 1;
    }
    start := lp;
  }

  lemma FirstCell(d: seq<Cell>, elements: seq<Element>)
    requires ProgramAt(d, 0, elements)
    ensures |d| > 0 && (d[0] == Code(END) <==> elements == [])
    ensures elements != [] ==> ElementAt(d, 0, elements[0])
  {
  }

  ghost predicate HasMatch(elements: seq<Element>, text: seq<int>, i: nat) {
    exists way, j :: Matches(elements, text, i, way, j)
  }

  /** A text is found to match if and only if some match starts before its end, or, for an anchored
      pattern, at its start; the start is the leftmost, and the end that of the preferred match from
      there. A run that does not stay inside the text still has no match before its start. */
  lemma ExecFinds(elements: seq<Element>, text: seq<int>, r: Outcome, start: nat)
    requires elements != [] && ExecGives(elements, text, r, start)
    ensures r.EndAt? ==> HasMatch(elements, text, start) && IsBest(elements, text, start, r.end)
    ensures r == NoMatch ==> forall i: nat :: IsStart(elements, text, i) ==> !HasMatch(elements, text, i)
    ensures r != NoMatch ==> IsStart(elements, text, start) && forall i: nat :: i < start ==>
      !HasMatch(elements, text, i)
  {
    hide Greedy, HasMatch, IsBest;
    forall i: nat | i <= |text| && Greedy(elements, text, i) != PastEnd
      ensures Greedy(elements, text, i) != NoMatch <==> HasMatch(elements, text, i)
    {
      SearchDecides(elements, text, i);
    }
    if r.EndAt? {
      SearchDecides(elements, text, start);
    }
  }

  /** The places where myre_exec looks for a match. */
  predicate IsStart(elements: seq<Element>, text: seq<int>, i: nat)
    requires elements != []
  {
    if elements[0] == LineStart then i == 0 else i < |text|
  }

  lemma SearchDecides(elements: seq<Element>, text: seq<int>, i: nat)
    requires i <= |text| && Greedy(elements, text, i) != PastEnd
    ensures Greedy(elements, text, i) != NoMatch <==> HasMatch(elements, text, i)
    ensures Greedy(elements, text, i).EndAt? ==> IsBest(elements, text, i, Greedy(elements, text, i).end)
  {
    hide Matches, Greedy, Preferred;
    var way := GreedyFinds(elements, text, i);
    if Greedy(elements, text, i).EndAt? {
      assert IsPreferred(elements, text, i, way, Greedy(elements, text, i).end);
    }
  }

  /** myre_exec runs past the end of some text exactly when a negated class outside a closure can be
      reached; unless the pattern is anchored, it must be reached behind some character. */
  lemma ExecRunsPast(elements: seq<Element>)
    requires IsShaped(elements) && elements != []
    ensures CanRunPast(elements, elements[0] != LineStart) <==>
      exists text, start :: TextOk(text) && ExecGives(elements, text, PastEnd, start)
  {
    hide Greedy, CanRunPast;
    var inside := elements[0] != LineStart;
    RunsPastExactly(elements, inside);
    if CanRunPast(elements, inside) {
      var text := TextThatRunsPast(elements, inside);
      assert ExecGives(elements, text, PastEnd, 0);
    }
    forall text, start | TextOk(text) && ExecGives(elements, text, PastEnd, start)
      ensures CanRunPast(elements, inside)
    {
      assert RunsPast(elements, text, start, inside);
    }
  }
}
