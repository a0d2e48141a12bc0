/** The regular expression compiler of src/regex.c, with its static buffers as one object. */
module Regexes {
  import opened Bits
  import opened Patterns
  import opened Programs
  import opened ClassTables
  import opened PatternTexts

  // ---------- The class table ----------

  predicate BitIn(table: seq<Word>, c: nat)
    requires c < 128 && |table| == 16
  {
    Bit(table[c / 8], c % 8)
  }

  /** The characters whose bits are set. */
  ghost function TableSet(table: seq<Word>): set<int>
    requires |table| == 16
  {
    set c: int | 0 <= c < 128 && BitIn(table, c)
  }

  lemma SetOneBit(table: seq<Word>, c: nat)
    requires |table| == 16 && c < 128
    ensures TableSet(table[c / 8 := Or(table[c / 8], Mask(c % 8))]) == TableSet(table) + {c}
  {
    var after := table[c / 8 := Or(table[c / 8], Mask(c % 8))];
    forall x: nat | x < 128 ensures BitIn(after, x) <==> BitIn(table, x) || x == c {
      if x / 8 == c / 8 {
        OrBit(table[c / 8], Mask(c % 8), x % 8);
        MaskBit(c % 8, x % 8);
      }
    }
  }

  lemma EmptyTable(table: seq<Word>)
    requires |table| == 16 && forall n :: 0 <= n < 16 ==> table[n] == ZERO
    ensures TableSet(table) == {}
  {
    forall c: nat | c < 128 ensures !BitIn(table, c) {
      ZeroMeets(Mask(c % 8));
    }
  }

  function Blocks(table: seq<Word>): (r: seq<Cell>)
    ensures |r| == |table|
  {
    seq(|table|, n requires 0 <= n < |table| => Block(table[n]))
  }

  lemma BlocksAre(table: seq<Word>, negated: bool)
    requires |table| == 16
    ensures AtomAt([Code(if negated then NCL else CCL)] + Blocks(table), 0, CharClass(negated, TableSet(table)))
  {
    var d := [Code(if negated then NCL else CCL)] + Blocks(table);
    forall c: int | 0 <= c < 128 ensures c in TableSet(table) <==> InTable(d, 1, c) {
      assert d[1 + c / 8] == Block(table[c / 8]);
    }
  }

  // ---------- A program under construction ----------

  /** d is exactly the code of the elements, without the END. */
  ghost predicate Encodes(d: seq<Cell>, elements: seq<Element>)
    decreases |elements|
  {
    if elements == [] then d == []
    else
      var n := Size(elements[|elements| - 1]);
      n <= |d| && IsCode(d[|d| - n..], elements[|elements| - 1]) && Encodes(d[..|d| - n], elements[..|elements| - 1])
  }

  ghost predicate IsCode(d: seq<Cell>, e: Element) {
    |d| == Size(e) && ElementAt(d, 0, e)
  }

  lemma EncodesNext(d: seq<Cell>, elements: seq<Element>, code: seq<Cell>, e: Element)
    requires Encodes(d, elements) && IsCode(code, e)
    ensures Encodes(d + code, elements + [e])
  {
    assert (d + code)[|d + code| - Size(e)..] == code && (d + code)[..|d + code| - Size(e)] == d;
    assert (elements + [e])[..|elements|] == elements;
  }

  lemma EncodesLast(d: seq<Cell>, elements: seq<Element>) returns (s: nat)
    requires Encodes(d, elements) && elements != []
    ensures s <= |d| && s == |d| - Size(elements[|elements| - 1])
    ensures IsCode(d[s..], elements[|elements| - 1]) && Encodes(d[..s], elements[..|elements| - 1])
  {
    s := |d| - Size(elements[|elements| - 1]);
  }

  /** An element keeps its meaning wherever its cells lie. */
  lemma ElementMoved(d: seq<Cell>, p: nat, code: seq<Cell>, e: Element)
    requires IsCode(code, e) && p + |code| <= |d| && d[p..p + |code|] == code
    ensures ElementAt(d, p, e)
  {
    hide AtomAt;
    var part := d[p..p + |code|];
    assert part[0] == d[p];
    match e
    case One(a) =>
      assert code[0..|code|] == code;
      AtomMoved(d, p, code, 0, a);
    case Star(a) =>
      var n := AtomSize(a);
      assert part[1 + n] == d[p + 1 + n];
      SliceOfSlice(d, p, p + |code|, 1, 1 + n);
      AtomMoved(d, p + 1, code, 1, a);
    case LineStart =>
    case LineEnd =>
  }

  lemma SliceOfSlice(d: seq<Cell>, p: nat, m: nat, i: nat, j: nat)
    requires p <= m <= |d| && i <= j <= m - p
    ensures d[p..m][i..j] == d[p + i..p + j]
  {
    var part := d[p..m];
    var x, y := part[i..j], d[p + i..p + j];
    forall k | 0 <= k < |x| ensures x[k] == y[k] {
      assert x[k] == part[i + k] == d[p + (i + k)];
    }
    assert x == y;
  }

  lemma AtomMoved(d: seq<Cell>, p: nat, code: seq<Cell>, q: nat, a: Atom)
    requires AtomAt(code, q, a) && p + AtomSize(a) <= |d|
    requires d[p..p + AtomSize(a)] == code[q..q + AtomSize(a)]
    ensures AtomAt(d, p, a)
  {
    hide TableAt;
    var x, y := d[p..p + AtomSize(a)], code[q..q + AtomSize(a)];
    assert x[0] == d[p] && y[0] == code[q];
    match a
    case Chr(_) => assert x[1] == d[p + 1] && y[1] == code[q + 1];
    case AnyChar =>
    case CharClass(_, members) =>
      SliceOfSlice(d, p, p + 17, 1, 17);
      SliceOfSlice(code, q, q + 17, 1, 17);
      TableMoved(d, p + 1, code, q + 1, members);
  }

  lemma TableMoved(d: seq<Cell>, p: nat, code: seq<Cell>, q: nat, members: set<int>)
    requires TableAt(code, q, members) && p + 16 <= |d| && d[p..p + 16] == code[q..q + 16]
    ensures TableAt(d, p, members)
  {
    hide Bit;
    var x, y := d[p..p + 16], code[q..q + 16];
    forall n | p <= n < p + 16 ensures d[n] == code[q + (n - p)] {
      assert x[n - p] == d[n] && y[n - p] == code[q + (n - p)];
    }
    forall c | 0 <= c < 128 ensures InTable(d, p, c) <==> InTable(code, q, c) {
      assert d[p + c / 8] == code[q + c / 8];
    }
  }

  lemma ProgramStep(d: seq<Cell>, p: nat, e: Element, rest: seq<Element>)
    requires ElementAt(d, p, e) && ProgramAt(d, p + Size(e), rest)
    ensures ProgramAt(d, p, [e] + rest)
  {
    assert ([e] + rest)[1..] == rest;
  }

  /** Code followed by the code of the rest and END is a program. */
  lemma {:induction false} EncodedProgram(d: seq<Cell>, n: nat, elements: seq<Element>, rest: seq<Element>)
    requires n <= |d| && Encodes(d[..n], elements) && ProgramAt(d, n, rest)
    ensures ProgramAt(d, 0, elements + rest)
    decreases |elements|
  {
    hide ElementAt, ProgramAt;
    if elements == [] {
      assert elements + rest == rest;
    } else {
      var e := elements[|elements| - 1];
      var s := EncodesLast(d[..n], elements);
      assert d[..n][..s] == d[..s] && d[..n][s..] == d[s..n];
      ElementMoved(d, s, d[s..n], e);
      ProgramStep(d, s, e, rest);
      EncodedProgram(d, s, elements[..|elements| - 1], [e] + rest);
      assert elements[..|elements| - 1] + ([e] + rest) == elements + rest;
    }
  }

  /** The closure of the last element: an operation put in front of its code, an END behind it. */
  lemma ClosureCode(code: seq<Cell>, a: Atom)
    requires IsCode(code, One(a))
    ensures IsCode([Code(CLO)] + code + [Code(END)], Star(a))
  {
    var d := [Code(CLO)] + code + [Code(END)];
    assert d[1..1 + AtomSize(a)] == code == code[0..AtomSize(a)];
    AtomMoved(d, 1, code, 0, a);
  }

  lemma MovedUp(before: seq<Cell>, after: seq<Cell>, sp: nat)
    requires sp < |before| && |after| == |before| + 2
    requires forall l :: 0 <= l < sp ==> after[l] == before[l]
    requires forall l :: sp < l <= |before| ==> after[l] == before[l - 1]
    requires after[sp] == Code(CLO) && after[|before| + 1] == Code(END)
    ensures after == before[..sp] + ([Code(CLO)] + before[sp..] + [Code(END)])
  {
    var wanted := before[..sp] + ([Code(CLO)] + before[sp..] + [Code(END)]);
    forall l | 0 <= l < |after| ensures after[l] == wanted[l] {
    }
  }

  // ---------- The compiler ----------

  /** Room for the rest of the pattern: a class takes 17 cells, doubled and closed 19 more. */
  function RoomFor(pat: seq<int>, p: nat): int {
    20 * (|pat| - p) + 1
  }

  class Regex {
    var dfa: array<Cell>
    var bittab: array<Word>
    /** Whether the last compilation succeeded. */
    var sta: bool
    /** How much of dfa is written. */
    var mp: nat

    ghost predicate Valid()
      reads this, bittab
    {
      bittab.Length == 16 && mp <= dfa.Length
    }

    ghost function Bits(): set<int>
      requires Valid()
      reads this, bittab
    {
      TableSet(bittab[..])
    }

    /** The program so far. */
    ghost function Program(): seq<Cell>
      requires Valid()
      reads this, bittab, dfa
    {
      dfa[..mp]
    }

    constructor (size: nat)
      ensures Valid() && fresh(dfa) && fresh(bittab) && dfa.Length == size && Bits() == {} && !sta
    {
      dfa := new Cell[size](_ => Programs.Code(END));
      bittab := new Word[16](_ => ZERO);
      sta, mp := false, 0;
      new;
      EmptyTable(bittab[..]);
    }

    method Store(x: Cell)
      requires Valid() && mp < dfa.Length
      modifies this`mp, dfa
      ensures Valid() && mp == old(mp) + 1 && Program() == old(Program()) + [x]
    {
      dfa[mp] := x;
      mp := mp + 1;
    }

    /** chset */
    method ChSet(c: int)
      requires Valid() && 0 <= c < 128
      modifies bittab
      ensures Valid() && Bits() == old(Bits()) + {c}
    {
      SetOneBit(bittab[..], c);
      bittab[c / 8] := Or(bittab[c / 8], Mask(c % 8));
    }

    method ChSetRange(c1: int, c2: int)
      requires Valid() && 0 <= c1 && c2 < 128
      modifies bittab
      ensures Valid() && Bits() == old(Bits()) + Range(c1, c2)
    {
      hide TableSet;
      var c := c1;
      while c <= c2
        invariant Valid() && c1 <= c && (c <= c2 + 1 || c == c1)
        invariant Bits() == old(Bits()) + Range(c1, c - 1)
      {
        ChSet(c);
        c := c + 1;
      }
      if c1 > c2 {
        assert Range(c1, c2) == {} && Range(c1, c1 - 1) == {};
      }
    }

    /** The characters of a class, from p to the closing bracket or the end of the pattern. */
    method ReadMembers(pat: seq<int>, p0: nat) returns (p: nat)
      requires Valid() && PatternOk(pat) && 0 < p0
      modifies bittab
      ensures Valid() && ClassFrom(pat, p0, old(Bits())) == (Bits(), p)
    {
      hide TableSet, Range;
      p := p0;
      while p < |pat| && pat[p] != ']' as int
        invariant Valid() && 0 < p && ClassFrom(pat, p, Bits()) == ClassFrom(pat, p0, old(Bits()))
        decreases |pat| - p
      {
        if pat[p] == '-' as int && At(pat, p + 1) != 0 && At(pat, p + 1) != ']' as int {
          p := p + 1;
          var c1, c2 := pat[p - 2] + 1, pat[p];
          p := p + 1;
          ChSetRange(c1, c2);
        } else {
          ChSet(pat[p]);
          p := p + 1;
        }
      }
    }

    method ReadClass(pat: seq<int>, p0: nat) returns (p: nat)
      requires Valid() && PatternOk(pat) && 0 < p0
      modifies bittab
      ensures Valid() && ClassAfterDash(pat, p0, old(Bits())) == (Bits(), p)
    {
      hide TableSet, ClassFrom;
      p := p0;
      if At(pat, p) == '-' as int {
        ChSet('-' as int);
        p := p + 1;
      }
      if At(pat, p) == ']' as int {
        ChSet(']' as int);
        p := p + 1;
      }
      p := ReadMembers(pat, p);
    }

    /** Stores the class table and clears it. */
    method StoreTable()
      requires Valid() && mp + 16 <= dfa.Length
      modifies this`mp, dfa, bittab
      ensures Valid() && mp == old(mp) + 16 && Program() == old(Program()) + Blocks(old(bittab[..])) && Bits() == {}
    {
      ghost var table, before := bittab[..], Program();
      for n := 0 to 16
        invariant Valid() && mp == old(mp) + n && Program() == before + Blocks(table)[..n]
        invariant forall l :: 0 <= l < n ==> bittab[l] == ZERO
        invariant forall l :: n <= l < 16 ==> bittab[l] == table[l]
      {
        Store(Block(bittab[n]));
        bittab[n] := ZERO;
      }
      EmptyTable(bittab[..]);
    }

    /** Turns the last element, at sp, into a closure, in place: its cells move up by one. */
    method Close(sp: nat)
      requires Valid() && sp < mp && mp + 2 <= dfa.Length
      modifies this`mp, dfa
      ensures Valid() && mp == old(mp) + 2
      ensures Program() == old(Program())[..sp] + ([Programs.Code(CLO)] + old(Program())[sp..] + [Programs.Code(END)])
    {
      ghost var before := Program();
      Store(Programs.Code(END));
      Store(Programs.Code(END));
      ghost var longer := Program();
      assert longer == before + [Programs.Code(END), Programs.Code(END)];
      var k := mp - 1;
      while k > sp
        invariant sp <= k <= mp - 1 && mp == |longer| <= dfa.Length
        invariant forall l :: 0 <= l <= k ==> dfa[l] == longer[l]
        invariant forall l :: k < l < mp ==> dfa[l] == longer[l - 1]
      {
        dfa[k] := dfa[k - 1];
        k := k - 1;
      }
      dfa[sp] := Programs.Code(CLO);
      MovedUp(before, Program(), sp);
    }

    /** Stores the cells from lp to mp once more. */
    method Double(lp0: nat)
      requires Valid() && lp0 < mp && 2 * mp - lp0 <= dfa.Length
      modifies this`mp, dfa
      ensures Valid() && mp == 2 * old(mp) - lp0 && Program() == old(Program()) + old(Program())[lp0..]
    {
      ghost var before := Program();
      var lp, sp := lp0, mp;
      while lp < sp
        invariant lp0 <= lp <= sp == |before| && mp == sp + (lp - lp0) && Valid()
        invariant Program() == before + before[lp0..lp]
      {
        assert dfa[lp] == Program()[lp] == before[lp];
        Store(dfa[lp]);
        lp := lp + 1;
      }
      assert before[lp0..sp] == before[lp0..];
    }

    /** The program so far is that of the elements read, and there is room for the rest. */
    ghost predicate Built(pat: seq<int>, p: nat, done: seq<Element>)
      reads this, bittab, dfa
    {
      Valid() && Encodes(Program(), done) && mp + RoomFor(pat, p) <= dfa.Length
    }

    /** Marks the program as unusable. */
    method Munge()
      requires Valid() && dfa.Length > 0
      modifies dfa
      ensures Valid() && dfa[0] == Cell.Code(END)
    {
      dfa[0] := Cell.Code(END);
    }

    method StoreAny(pat: seq<int>, p: nat, ghost done: seq<Element>)
      requires Built(pat, p, done) && p < |pat|
      modifies this`mp, dfa
      ensures Built(pat, p + 1, done + [One(AnyChar)]) && mp == old(mp) + 1
    {
      hide Encodes;
      ghost var before := Program();
      Store(Cell.Code(ANY));
      EncodesNext(before, done, [Cell.Code(ANY)], One(AnyChar));
    }

    method StoreAnchor(pat: seq<int>, p: nat, ghost done: seq<Element>, start: bool)
      requires Built(pat, p, done) && p < |pat|
      modifies this`mp, dfa
      ensures Built(pat, p + 1, done + [if start then LineStart else LineEnd]) && mp == old(mp) + 1
    {
      hide Encodes;
      ghost var before := Program();
      Store(Cell.Code(if start then BOL else EOL));
      EncodesNext(before, done, [Cell.Code(if start then BOL else EOL)], if start then LineStart else LineEnd);
    }

    /** c stands at p of the pattern, or behind the backslash that does. */
    method StoreChar(pat: seq<int>, p: nat, n: nat, c: int, ghost done: seq<Element>)
      requires Built(pat, p, done) && p < |pat| && n > 0
      modifies this`mp, dfa
      ensures Built(pat, p + n, done + [One(Chr(c))]) && mp == old(mp) + 2
    {
      hide Encodes;
      ghost var before := Program();
      Store(Cell.Code(CHR));
      Store(Cell.Code(c));
      assert Program() == before + [Cell.Code(CHR), Cell.Code(c)];
      EncodesNext(before, done, [Cell.Code(CHR), Cell.Code(c)], One(Chr(c)));
    }

    /** A bracketed class from p on: q is where it closes, the end of the pattern if it does not. */
    method CompileClass(pat: seq<int>, p: nat, ghost done: seq<Element>)
      returns (q: nat, ghost negated: bool, ghost members: set<int>)
      requires Built(pat, p, done) && p < |pat| && PatternOk(pat)
      modifies this`mp, dfa, bittab
      ensures negated == (At(pat, p + 1) == '^' as int) &&
        (members, q) == ClassAfterDash(pat, if negated then p + 2 else p + 1, old(Bits()))
      ensures Valid()
      ensures q < |pat| ==> mp == old(mp) + 17
      ensures if q >= |pat| then Bits() == members
        else Bits() == {} && Built(pat, q + 1, done + [One(CharClass(negated, members))])
    {
      hide Encodes, TableSet, ClassAfterDash;
      ghost var before := Program();
      q := p + 1;
      negated := At(pat, q) == '^' as int;
      if At(pat, q) == '^' as int {
        Store(Cell.Code(NCL));
        q := q + 1;
      } else {
        Store(Cell.Code(CCL));
      }
      q := ReadClass(pat, q);
      members := Bits();
      if q >= |pat| {
        return;
      }
      ghost var table := bittab[..];
      StoreTable();
      ghost var code := [Cell.Code(if negated then NCL else CCL)] + Blocks(table);
      assert Program() == before + code;
      BlocksAre(table, negated);
      EncodesNext(before, done, code, One(CharClass(negated, members)));
      ClassLength(pat, if negated then p + 2 else p + 1, old(Bits()));
    }

    /** A closure over the last element: with a plus sign, over a second copy of it. */
    method CompileClosure(pat: seq<int>, p: nat, plus: bool, sp: nat, ghost done: seq<Element>) returns (lp: nat)
      requires Built(pat, p, done) && p < |pat| && done != [] && done[|done| - 1].One?
      requires sp + Size(done[|done| - 1]) == mp
      modifies this`mp, dfa
      ensures lp <= mp && Built(pat, p + 1, (if plus then done else done[..|done| - 1]) + [Star(done[|done| - 1].atom)])
      ensures lp + Size(Star(done[|done| - 1].atom)) == mp
    {
      hide Encodes;
      ghost var before, e := Program(), done[|done| - 1];
      ghost var s := EncodesLast(before, done);
      ClosureCode(before[s..], e.atom);
      lp := sp;
      if plus {
        lp := mp;
        Double(sp);
        assert Program()[lp..] == before[s..] && Program()[..lp] == before;
      }
      Close(lp);
      EncodesNext(if plus then before else before[..s], if plus then done else done[..|done| - 1],
                  [Cell.Code(CLO)] + before[s..] + [Cell.Code(END)], Star(e.atom));
    }

    /** myre_compX. An empty pattern stands for the one compiled last. */
    method MyreComp(pat: seq<int>) returns (ok: bool, message: Message, ghost elements: seq<Element>)
      requires Valid() && PatternOk(pat) && Parse(pat, 0, [], Bits()) != Tagged && RoomFor(pat, 0) <= dfa.Length
      modifies this, dfa, bittab
      ensures dfa == old(dfa) && bittab == old(bittab) && Valid()
      ensures pat == [] ==> Bits() == old(Bits()) && ok == old(sta) && sta == old(sta)
      ensures pat == [] ==> if ok then dfa[..] == old(dfa[..]) else dfa[0] == Cell.Code(END) && message == NoPrevious
      ensures pat != [] ==>
        match Parse(pat, 0, [], old(Bits()))
        case Good(e, bits) => ok && sta && elements == e && ProgramAt(dfa[..], 0, e) && Bits() == bits
        case Bad(m, bits) => !ok && !sta && message == m && dfa[0] == Cell.Code(END) && Bits() == bits
        case Tagged => false
    {
      hide Encodes, TableSet, ProgramAt, ClassAfterDash;
      ok, message, elements := true, NoPrevious, [];
      if pat == [] {
        if !sta {
          ok := false;
          Munge();
        }
        return;
      }
      sta := false;
      mp := 0;
      var p: nat, sp: nat := 0, 0;
      ghost var parsed := Parse(pat, 0, [], Bits());
      NothingBuilt(dfa[..0]);
      while p < |pat|
        invariant dfa == old(dfa) && bittab == old(bittab) && !sta && p <= |pat|
        invariant p > 0 ==> elements != [] && sp + Size(elements[|elements| - 1]) == mp
        invariant Built(pat, p, elements) && Parse(pat, p, elements, Bits()) == parsed
        decreases |pat| - p
      {
        ok, message, p, sp, elements := CompileOne(pat, p, sp, elements, parsed);
        if !ok {
          Munge();
          return;
        }
      }
      ghost var before := Program();
      Store(Cell.Code(END));
      sta := true;
      FinishProgram(dfa[..], before, elements);
    }

    /** One round of the loop over the pattern. */
    method CompileOne(pat: seq<int>, p: nat, sp: nat, ghost done: seq<Element>, ghost parsed: Parsed)
      returns (ok: bool, message: Message, p': nat, sp': nat, ghost done': seq<Element>)
      requires p < |pat| && PatternOk(pat) && Built(pat, p, done) && parsed != Tagged
      requires p > 0 ==> done != [] && sp + Size(done[|done| - 1]) == mp
      requires Parse(pat, p, done, Bits()) == parsed
      modifies this`mp, dfa, bittab
      ensures Valid() && !ok ==> parsed == Bad(message, Bits())
      ensures Valid()
      ensures ok ==> p < p' <= |pat| && Built(pat, p', done') && done' != [] && sp' + Size(done'[|done'| - 1]) == mp
      ensures ok ==> Parse(pat, p', done', Bits()) == parsed
    {
      hide Encodes, TableSet, ClassAfterDash;
      ok, message, p', sp', done' := true, NoPrevious, p + 1, mp, done;
      var c := pat[p];
      if c == '.' as int {
        StoreAny(pat, p, done);
        done' := done + [One(AnyChar)];
      } else if c == '^' as int && p == 0 {
        StoreAnchor(pat, p, done, true);
        done' := done + [LineStart];
      } else if c == '$' as int && p + 1 == |pat| {
        StoreAnchor(pat, p, done, false);
        done' := done + [LineEnd];
      } else if c == '[' as int {
        var q;
        ghost var negated, members;
        q, negated, members := CompileClass(pat, p, done);
        if q >= |pat| {
          ok, message := false, MissingBracket;
          return;
        }
        p' := q + 1;
        done' := done + [One(CharClass(negated, members))];
      } else if c == '*' as int || c == '+' as int {
        if p == 0 {
          ok, message := false, EmptyClosure;
          return;
        }
        LastCell(Program(), done, sp);
        assert dfa[sp] == Program()[sp];
        if dfa[sp] == Cell.Code(CLO) {
          sp' := sp;
        } else if dfa[sp] == Cell.Code(BOL) {
          ok, message := false, IllegalClosure;
          return;
        } else {
          sp' := CompileClosure(pat, p, c == '+' as int, sp, done);
          done' := (if c == '+' as int then done else done[..|done| - 1]) + [Star(done[|done| - 1].atom)];
        }
      } else if c == '\\' as int {
        StoreChar(pat, p, 2, pat[p + 1], done);
        p' := p + 2;
        done' := done + [One(Chr(pat[p + 1]))];
      } else {
        StoreChar(pat, p, 1, c, done);
        done' := done + [One(Chr(c))];
      }
    }
  }

  lemma NothingBuilt(d: seq<Cell>)
    requires d == []
    ensures Encodes(d, [])
  {
  }

  lemma FinishProgram(d: seq<Cell>, code: seq<Cell>, elements: seq<Element>)
    requires Encodes(code, elements) && |code| < |d| && d[..|code| + 1] == code + [Cell.Code(END)]
    ensures ProgramAt(d, 0, elements)
  {
    assert d[..|code|] == d[..|code| + 1][..|code|] == code;
    assert d[|code|] == d[..|code| + 1][|code|];
    EncodedProgram(d, |code|, elements, []);
    assert elements + [] == elements;
  }

  /** What the cell at the start of the last element says about the element. */
  lemma LastCell(d: seq<Cell>, elements: seq<Element>, sp: nat)
    requires Encodes(d, elements) && elements != [] && sp + Size(elements[|elements| - 1]) == |d|
    ensures sp < |d| && match elements[|elements| - 1]
      case Star(_) => d[sp] == Cell.Code(CLO)
      case LineStart => d[sp] == Cell.Code(BOL)
      case LineEnd => d[sp] == Cell.Code(EOL)
      case One(_) => d[sp].Code? && d[sp].code < BOL
  {
    hide AtomAt;
    var s := EncodesLast(d, elements);
    var e, code := elements[|elements| - 1], d[s..];
    assert code[0] == d[s];
    if e.One? {
      AtomFirst(code, e.atom);
    }
  }

  lemma AtomFirst(d: seq<Cell>, a: Atom)
    requires AtomAt(d, 0, a)
    ensures |d| > 0 && d[0].Code? && d[0].code < BOL
  {
  }

  lemma ClassLength(pat: seq<int>, p: nat, members: set<int>)
    requires 0 < p
    ensures ClassAfterDash(pat, p, members).1 >= p
  {
  }

  // ---------- Compiling and executing ----------

  /** What is compiled from characters contains no 0. */
  lemma {:induction false} ParseIsOk(pat: seq<int>, p: nat, done: seq<Element>, bits: set<int>)
    requires PatternOk(pat) && ElementsOk(done) && 0 !in bits && (p > 0 ==> done != [])
    ensures Parse(pat, p, done, bits).Good? ==>
      ElementsOk(Parse(pat, p, done, bits).elements) && 0 !in Parse(pat, p, done, bits).bits
    ensures Parse(pat, p, done, bits).Good? && (done != [] || p < |pat|) ==> Parse(pat, p, done, bits).elements != []
    ensures Parse(pat, p, done, bits).Bad? ==> 0 !in Parse(pat, p, done, bits).bits
    decreases |pat| - p
  {
    hide ClassAfterDash;
    if p < |pat| {
      if pat[p] == '[' as int {
        var negated := At(pat, p + 1) == '^' as int;
        var (members, q) := ClassAfterDash(pat, if negated then p + 2 else p + 1, bits);
        ClassIsOk(pat, if negated then p + 2 else p + 1, bits);
        if q < |pat| {
          ParseIsOk(pat, q + 1, done + [One(CharClass(negated, members))], {});
        }
      } else if pat[p] == '*' as int || pat[p] == '+' as int {
        if p > 0 {
          var last := done[|done| - 1];
          if last.Star? {
            ParseIsOk(pat, p + 1, done, bits);
          } else if last.One? {
            ParseIsOk(pat, p + 1, (if pat[p] == '+' as int then done else done[..|done| - 1]) + [Star(last.atom)], bits);
          }
        }
      } else if pat[p] == '\\' as int {
        if p + 1 < |pat| {
          ParseIsOk(pat, p + 2, done + [One(Chr(pat[p + 1]))], bits);
        }
      } else {
        ParseIsOk(pat, p + 1, done + [One(AnyChar)], bits);
        ParseIsOk(pat, p + 1, done + [LineStart], bits);
        ParseIsOk(pat, p + 1, done + [LineEnd], bits);
        ParseIsOk(pat, p + 1, done + [One(Chr(pat[p]))], bits);
      }
    }
  }

  lemma {:induction false} RangeAbove(c1: int, c2: int)
    requires c1 > 0
    ensures 0 !in Range(c1, c2)
    decreases c2 - c1
  {
    if c1 <= c2 {
      RangeAbove(c1, c2 - 1);
    }
  }

  lemma {:induction false} MembersAreOk(pat: seq<int>, p: nat, members: set<int>)
    requires PatternOk(pat) && 0 < p && 0 !in members
    ensures 0 !in ClassFrom(pat, p, members).0
    decreases |pat| - p
  {
    if p < |pat| && pat[p] != ']' as int {
      if pat[p] == '-' as int && At(pat, p + 1) != 0 && At(pat, p + 1) != ']' as int {
        RangeAbove(pat[p - 1] + 1, pat[p + 1]);
        MembersAreOk(pat, p + 2, members + Range(pat[p - 1] + 1, pat[p + 1]));
      } else {
        MembersAreOk(pat, p + 1, members + {pat[p]});
      }
    }
  }

  lemma ClassIsOk(pat: seq<int>, p: nat, members: set<int>)
    requires PatternOk(pat) && 0 < p && 0 !in members
    ensures 0 !in ClassAfterDash(pat, p, members).0
  {
    hide ClassFrom;
    var p1, m1 := if At(pat, p) == '-' as int then p + 1 else p, if At(pat, p) == '-' as int then members + {'-' as int} else members;
    MembersAreOk(pat, p1 + 1, m1 + {']' as int});
    MembersAreOk(pat, p1, m1);
  }

  /** The start anchor stands only at the start of a compiled pattern, the end anchor only at its end. */
  lemma {:induction false} ParseIsShaped(pat: seq<int>, p: nat, done: seq<Element>, bits: set<int>)
    requires p == 0 <==> done == []
    requires IsShaped(done) && LineEnd !in done
    ensures Parse(pat, p, done, bits).Good? ==> IsShaped(Parse(pat, p, done, bits).elements)
    decreases |pat| - p
  {
    hide ClassAfterDash;
    if p < |pat| {
      if pat[p] == '[' as int {
        var negated := At(pat, p + 1) == '^' as int;
        var (members, q) := ClassAfterDash(pat, if negated then p + 2 else p + 1, bits);
        if q < |pat| {
          ParseIsShaped(pat, q + 1, done + [One(CharClass(negated, members))], {});
        }
      } else if pat[p] == '*' as int || pat[p] == '+' as int {
        if p > 0 {
          var last := done[|done| - 1];
          if last.Star? {
            ParseIsShaped(pat, p + 1, done, bits);
          } else if last.One? {
            ParseIsShaped(pat, p + 1, (if pat[p] == '+' as int then done else done[..|done| - 1]) + [Star(last.atom)], bits);
          }
        }
      } else if pat[p] == '\\' as int {
        if p + 1 < |pat| {
          ParseIsShaped(pat, p + 2, done + [One(Chr(pat[p + 1]))], bits);
        }
      } else if pat[p] == '^' as int && p == 0 {
        ParseIsShaped(pat, p + 1, [LineStart], bits);
        assert done + [LineStart] == [LineStart];
      } else {
        ParseIsShaped(pat, p + 1, done + [One(AnyChar)], bits);
        ParseIsShaped(pat, p + 1, done + [One(Chr(pat[p]))], bits);
      }
    }
  }

  /** What the search for a pattern reports: a stretch that it matches, or that it matches none from
      the places looked at; and that it matches nothing from before the start reported. */
  ghost predicate FoundAs(p: Pattern, text: seq<int>, r: Outcome, start: nat) {
    && (r.EndAt? ==> PatternMatches(p, text, start, r.end))
    && (r == NoMatch ==> forall i: nat, j: nat :: (if p.start then i == 0 else i < |text|) ==>
          !PatternMatches(p, text, i, j))
    && (r != NoMatch ==> if p.start then start == 0 else start < |text|)
    && (r != NoMatch ==> forall i: nat, j: nat :: i < start ==> !PatternMatches(p, text, i, j))
  }

  lemma SearchFinds(pat: seq<int>, p: Pattern, elements: seq<Element>, text: seq<int>, r: Outcome, start: nat)
    requires IsWritten(pat, p) && Parse(pat, 0, [], {}) == Good(elements, {}) && elements != []
    requires r.EndAt? ==> IsBest(elements, text, start, r.end)
    requires r == NoMatch ==> forall i: nat :: IsStart(elements, text, i) ==> !HasMatch(elements, text, i)
    requires r != NoMatch ==> IsStart(elements, text, start)
    requires r != NoMatch ==> forall i: nat :: i < start ==> !HasMatch(elements, text, i)
    ensures FoundAs(p, text, r, start)
  {
    hide Parse, Matches, PatternMatches, IsWritten, HasMatch, IsStart, IsBest;
    forall i: nat, j: nat | PatternMatches(p, text, i, j) ensures HasMatch(elements, text, i) {
      WrittenMeans(pat, p, elements, text, i, j);
      MatchIsThere(elements, text, i, j);
    }
    forall i: nat ensures IsStart(elements, text, i) <==> if p.start then i == 0 else i < |text| {
      WrittenMeans(pat, p, elements, text, i, i);
      StartIs(elements, text, i);
    }
    if r == NoMatch {
      forall i: nat, j: nat | if p.start then i == 0 else i < |text| ensures !PatternMatches(p, text, i, j) {
        assert IsStart(elements, text, i);
      }
    } else {
      forall i: nat, j: nat | i < start ensures !PatternMatches(p, text, i, j) {
        assert !HasMatch(elements, text, i);
      }
    }
    if r.EndAt? {
      WrittenMeans(pat, p, elements, text, start, r.end);
      BestMatches(elements, text, start, r.end);
    }
  }

  lemma BestMatches(elements: seq<Element>, text: seq<int>, i: nat, end: nat)
    requires IsBest(elements, text, i, end)
    ensures exists way :: Matches(elements, text, i, way, end)
  {
    var way :| IsPreferred(elements, text, i, way, end);
    assert Matches(elements, text, i, way, end);
  }

  lemma StartIs(elements: seq<Element>, text: seq<int>, i: nat)
    requires elements != []
    ensures IsStart(elements, text, i) <==> if elements[0] == LineStart then i == 0 else i < |text|
  {
  }

  lemma MatchIsThere(elements: seq<Element>, text: seq<int>, i: nat, j: nat)
    ensures (exists way :: Matches(elements, text, i, way, j)) ==> HasMatch(elements, text, i)
  {
  }

  /** Compiles a pattern and looks for it in a text: unless the search runs past the end, the pattern
      is found if and only if it matches somewhere before the end of the text, at the leftmost such
      place, and up to the best end. The search runs past the end for no text, or for some, as the
      elements tell. */
  method Search(pat: seq<int>, text: seq<int>) returns (ok: bool, r: Outcome, start: nat, ghost elements: seq<Element>)
    requires PatternOk(pat) && TextOk(text) && pat != [] && Parse(pat, 0, [], {}) != Tagged
    ensures ok <==> Parse(pat, 0, [], {}).Good?
    ensures if ok then Parse(pat, 0, [], {}) == Good(elements, {}) && elements != [] else r == NoMatch
    ensures ok && r.EndAt? ==> HasMatch(elements, text, start) && IsBest(elements, text, start, r.end)
    ensures ok && r == NoMatch ==> forall i: nat :: IsStart(elements, text, i) ==> !HasMatch(elements, text, i)
    ensures ok && r != NoMatch ==> IsStart(elements, text, start) && forall i: nat :: i < start ==>
      !HasMatch(elements, text, i)
    ensures ok && r == PastEnd ==> CanRunPast(elements, elements[0] != LineStart)
    ensures ok <==> exists p :: IsWritten(pat, p)
    ensures ok ==> forall p :: IsWritten(pat, p) ==> FoundAs(p, text, r, start)
  {
    hide Parse, Greedy, HasMatch, IsLeftmost, TableSet, IsBest, CanRunPast, IsShaped, IsStart, FoundAs, IsWritten;
    var regex := new Regex(RoomFor(pat, 0));
    var message;
    ok, message, elements := regex.MyreComp(pat);
    if !ok {
      elements := [];
    }
    ParseIsOk(pat, 0, [], {});
    GoodIsClear(pat, 0, []);
    r, start := MyreExec(regex.dfa[..], text, elements);
    if ok {
      ExecFinds(elements, text, r, start);
      NothingShaped();
      ParseIsShaped(pat, 0, [], {});
      ExecRunsPast(elements);
      forall p | IsWritten(pat, p) ensures FoundAs(p, text, r, start) {
        SearchFinds(pat, p, elements, text, r, start);
      }
    }
    CompilesIfWritten(pat);
  }

  lemma NothingShaped()
    ensures IsShaped([])
  {
  }
}
