/** What compiling a pattern leaves in the class table of src/regex.c, and what that does to the
    pattern compiled next. */
module ClassTables {
  import opened Patterns

  // ---------- The classes in the text of a pattern ----------

  /** Behind the bracket at p, and a caret. */
  function Inside(pat: seq<int>, p: nat): nat {
    if At(pat, p + 1) == '^' as int then p + 2 else p + 1
  }

  /** The first closing bracket from p on, or the end. */
  function NextBracket(pat: seq<int>, p: nat): nat
    decreases |pat| - p
  {
    if p >= |pat| || pat[p] == ']' as int then p else NextBracket(pat, p + 1)
  }

  /** Where the class whose bracket stands at p is closed: a dash and a bracket at its start are members. */
  function ClosesAt(pat: seq<int>, p: nat): nat {
    var s := Inside(pat, p);
    var d := if At(pat, s) == '-' as int then s + 1 else s;
    NextBracket(pat, if At(pat, d) == ']' as int then d + 1 else d)
  }

  /** The first bracket from p on that opens a class, or the end. */
  function FirstBracket(pat: seq<int>, p: nat): nat
    decreases |pat| - p
  {
    if p >= |pat| || pat[p] == '[' as int then p
    else FirstBracket(pat, if pat[p] == '\\' as int then p + 2 else p + 1)
  }

  lemma {:induction false} BracketIsAhead(pat: seq<int>, p: nat)
    ensures FirstBracket(pat, p) >= p && NextBracket(pat, p) >= p && ClosesAt(pat, p) > p
    decreases |pat| - p
  {
    if p < |pat| {
      BracketIsAhead(pat, p + 1);
      BracketIsAhead(pat, p + 2);
    }
    var s := Inside(pat, p);
    var d := if At(pat, s) == '-' as int then s + 1 else s;
    if d < |pat| {
      NextIsAhead(pat, if At(pat, d) == ']' as int then d + 1 else d);
    }
  }

  lemma {:induction false} NextIsAhead(pat: seq<int>, p: nat)
    ensures NextBracket(pat, p) >= p
    decreases |pat| - p
  {
    if p < |pat| {
      NextIsAhead(pat, p + 1);
    }
  }

  /** The bracket of the first class from p on that is left open, or the end. */
  function OpenBracket(pat: seq<int>, p: nat): nat
    decreases |pat| - p
  {
    BracketIsAhead(pat, p);
    var b := FirstBracket(pat, p);
    BracketIsAhead(pat, b);
    if b >= |pat| || ClosesAt(pat, b) >= |pat| then b else OpenBracket(pat, ClosesAt(pat, b) + 1)
  }

  predicate Repeats(c: int) {
    c == '*' as int || c == '+' as int
  }

  /** The pattern begins with a closure that has nothing to repeat. */
  predicate BadStart(pat: seq<int>) {
    Repeats(At(pat, 0)) || (At(pat, 0) == '^' as int && Repeats(At(pat, 1)))
  }

  /** A class is left open, and a character follows its bracket and caret. */
  predicate LeavesMembers(pat: seq<int>) {
    !BadStart(pat) && OpenBracket(pat, 0) < |pat| && Inside(pat, OpenBracket(pat, 0)) < |pat|
  }

  // ---------- Reading a class ----------

  lemma {:induction false} ClassEnds(pat: seq<int>, p: nat, members: set<int>)
    requires PatternOk(pat) && 0 < p
    ensures ClassFrom(pat, p, members).1 == NextBracket(pat, p) && members <= ClassFrom(pat, p, members).0
    decreases |pat| - p
  {
    hide Range;
    if p < |pat| && pat[p] != ']' as int {
      if pat[p] == '-' as int && At(pat, p + 1) != 0 && At(pat, p + 1) != ']' as int {
        ClassEnds(pat, p + 2, members + Range(pat[p - 1] + 1, pat[p + 1]));
      } else {
        ClassEnds(pat, p + 1, members + {pat[p]});
      }
    }
  }

  /** A class takes over what is in the table already. */
  lemma {:induction false} ClassAdds(pat: seq<int>, p: nat, members: set<int>, bits: set<int>)
    requires 0 < p
    ensures ClassFrom(pat, p, members + bits) == (ClassFrom(pat, p, members).0 + bits, ClassFrom(pat, p, members).1)
    decreases |pat| - p
  {
    hide Range;
    if p < |pat| && pat[p] != ']' as int {
      if pat[p] == '-' as int && At(pat, p + 1) != 0 && At(pat, p + 1) != ']' as int {
        var range := Range(pat[p - 1] + 1, pat[p + 1]);
        assert members + bits + range == members + range + bits;
        ClassAdds(pat, p + 2, members + range, bits);
      } else {
        assert members + bits + {pat[p]} == members + {pat[p]} + bits;
        ClassAdds(pat, p + 1, members + {pat[p]}, bits);
      }
    }
  }

  /** The class read at p, and what the table holds at its end. */
  function ReadAt(pat: seq<int>, p: nat, bits: set<int>): (set<int>, nat) {
    ClassAfterDash(pat, Inside(pat, p), bits)
  }

  lemma ReadAdds(pat: seq<int>, p: nat, bits: set<int>)
    ensures ReadAt(pat, p, bits) == (ReadAt(pat, p, {}).0 + bits, ReadAt(pat, p, {}).1)
  {
    hide ClassFrom;
    var s := Inside(pat, p);
    var d, m := if At(pat, s) == '-' as int then s + 1 else s, if At(pat, s) == '-' as int then {'-' as int} else {};
    assert bits + {'-' as int} == {'-' as int} + bits && {} + bits == bits && {} + {'-' as int} == {'-' as int};
    assert m + bits + {']' as int} == m + {']' as int} + bits;
    ClassAdds(pat, d + 1, m + {']' as int}, bits);
    ClassAdds(pat, d, m, bits);
  }

  lemma ReadCloses(pat: seq<int>, p: nat)
    requires PatternOk(pat)
    ensures ReadAt(pat, p, {}).1 == ClosesAt(pat, p)
    ensures ReadAt(pat, p, {}).0 == {} <==> Inside(pat, p) >= |pat|
  {
    hide ClassFrom;
    var s := Inside(pat, p);
    var d, m := if At(pat, s) == '-' as int then s + 1 else s, if At(pat, s) == '-' as int then {'-' as int} else {};
    assert {} + {'-' as int} == {'-' as int};
    ClassEnds(pat, d + 1, m + {']' as int});
    ClassEnds(pat, d, m);
    if s < |pat| && At(pat, s) != '-' as int && At(pat, s) != ']' as int {
      ClassEnds(pat, s + 1, {} + {pat[s]});
      assert ClassFrom(pat, s, {}) == ClassFrom(pat, s + 1, {} + {pat[s]}) by { ClassStart(pat, s); }
    } else if s >= |pat| {
      assert ClassFrom(pat, s, {}) == ({}, s) by { ClassStart(pat, s); }
    }
  }

  lemma ClassStart(pat: seq<int>, s: nat)
    requires 0 < s
    ensures s >= |pat| ==> ClassFrom(pat, s, {}) == ({}, s)
    ensures s < |pat| && pat[s] != '-' as int && pat[s] != ']' as int ==>
      ClassFrom(pat, s, {}) == ClassFrom(pat, s + 1, {} + {pat[s]})
  {
  }

  // ---------- What is left in the table ----------

  /** No closure at p lacks something to repeat. */
  predicate GoesOn(pat: seq<int>, p: nat, done: seq<Element>) {
    if p == 0 then !BadStart(pat) else done != [] && (Repeats(At(pat, p)) ==> done[|done| - 1] != LineStart)
  }

  lemma OpenNext(pat: seq<int>, p: nat)
    ensures p >= |pat| ==> OpenBracket(pat, p) == p
    ensures p < |pat| && pat[p] == '[' as int ==>
      OpenBracket(pat, p) == if ClosesAt(pat, p) >= |pat| then p else OpenBracket(pat, ClosesAt(pat, p) + 1)
    ensures p < |pat| && pat[p] != '[' as int ==>
      OpenBracket(pat, p) == OpenBracket(pat, if pat[p] == '\\' as int then p + 2 else p + 1)
  {
    hide ClosesAt;
  }

  lemma {:induction false} LeftOver(pat: seq<int>, p: nat, done: seq<Element>)
    requires PatternOk(pat) && (p == 0 <==> done == []) && Parse(pat, p, done, {}) != Tagged
    ensures Parse(pat, p, done, {}).bits != {} <==>
      GoesOn(pat, p, done) && OpenBracket(pat, p) < |pat| && Inside(pat, OpenBracket(pat, p)) < |pat|
    ensures Parse(pat, p, done, {}).Good? <==> GoesOn(pat, p, done) && OpenBracket(pat, p) >= |pat|
    decreases |pat| - p
  {
    hide ClassAfterDash, ClosesAt, OpenBracket;
    OpenNext(pat, p);
    if p < |pat| {
      if pat[p] == '[' as int {
        var negated := At(pat, p + 1) == '^' as int;
        var (members, q) := ReadAt(pat, p, {});
        ReadCloses(pat, p);
        if q < |pat| {
          LeftOver(pat, q + 1, done + [One(CharClass(negated, members))]);
        }
      } else if Repeats(pat[p]) {
        if p > 0 {
          var last := done[|done| - 1];
          if last.Star? {
            LeftOver(pat, p + 1, done);
          } else if last.One? {
            LeftOver(pat, p + 1, (if pat[p] == '+' as int then done else done[..|done| - 1]) + [Star(last.atom)]);
          }
        }
      } else if pat[p] == '\\' as int {
        LeftOver(pat, p + 2, done + [One(Chr(pat[p + 1]))]);
      } else if pat[p] == '.' as int {
        LeftOver(pat, p + 1, done + [One(AnyChar)]);
      } else if pat[p] == '^' as int && p == 0 {
        LeftOver(pat, p + 1, done + [LineStart]);
      } else if pat[p] == '$' as int && p + 1 == |pat| {
        LeftOver(pat, p + 1, done + [LineEnd]);
      } else {
        LeftOver(pat, p + 1, done + [One(Chr(pat[p]))]);
      }
    }
  }

  /** From a clear table, a pattern leaves something in the table exactly when a class is left open
      and a character follows its bracket and caret. */
  lemma LeftOverExactly(pat: seq<int>)
    requires PatternOk(pat) && Parse(pat, 0, [], {}) != Tagged
    ensures Parse(pat, 0, [], {}).bits != {} <==> LeavesMembers(pat)
  {
    hide Parse, OpenBracket, Inside;
    LeftOver(pat, 0, []);
  }

  /** A pattern compiles exactly when its first closure has something to repeat and no class is left open. */
  lemma CompilesExactly(pat: seq<int>)
    requires PatternOk(pat) && Parse(pat, 0, [], {}) != Tagged
    ensures Parse(pat, 0, [], {}).Good? <==> !BadStart(pat) && OpenBracket(pat, 0) >= |pat|
  {
    hide Parse, OpenBracket, Inside;
    LeftOver(pat, 0, []);
  }

  lemma {:induction false} MissingBehind(pat: seq<int>, p: nat, done: seq<Element>, bits: set<int>)
    requires p > 0 && done != [] && (Repeats(At(pat, p)) ==> done[|done| - 1] != LineStart)
    ensures Parse(pat, p, done, bits).Bad? ==> Parse(pat, p, done, bits).message == MissingBracket
    decreases |pat| - p
  {
    hide ClassAfterDash;
    if p < |pat| {
      if pat[p] == '.' as int {
        MissingBehind(pat, p + 1, done + [One(AnyChar)], bits);
      } else if pat[p] == '$' as int && p + 1 == |pat| {
      } else if pat[p] == '[' as int {
        var (members, q) := ReadAt(pat, p, bits);
        if q < |pat| {
          MissingBehind(pat, q + 1, done + [One(CharClass(At(pat, p + 1) == '^' as int, members))], {});
        }
      } else if Repeats(pat[p]) {
        var last := done[|done| - 1];
        if last.Star? {
          MissingBehind(pat, p + 1, done, bits);
        } else if last.One? {
          var before := if pat[p] == '+' as int then done else done[..|done| - 1];
          MissingBehind(pat, p + 1, before + [Star(last.atom)], bits);
        }
      } else if pat[p] == '\\' as int {
        if At(pat, p + 1) != 0 && !IsTag(At(pat, p + 1)) {
          MissingBehind(pat, p + 2, done + [One(Chr(pat[p + 1]))], bits);
        }
      } else {
        MissingBehind(pat, p + 1, done + [One(Chr(pat[p]))], bits);
      }
    }
  }

  /** Why a pattern fails: a closure at its very start is empty, one behind the anchor is illegal, and
      otherwise a bracket is missing. */
  lemma FailsBecause(pat: seq<int>, bits: set<int>)
    requires Parse(pat, 0, [], bits).Bad?
    ensures Parse(pat, 0, [], bits).message ==
      if Repeats(pat[0]) then EmptyClosure else if BadStart(pat) then IllegalClosure else MissingBracket
  {
    hide ClassAfterDash;
    if pat[0] == '.' as int {
      MissingBehind(pat, 1, [] + [One(AnyChar)], bits);
    } else if pat[0] == '^' as int {
      assert [] + [LineStart] == [LineStart];
      if !BadStart(pat) {
        MissingBehind(pat, 1, [LineStart], bits);
      }
    } else if pat[0] == '$' as int && |pat| == 1 {
    } else if pat[0] == '[' as int {
      var (members, q) := ReadAt(pat, 0, bits);
      if q < |pat| {
        MissingBehind(pat, q + 1, [] + [One(CharClass(At(pat, 1) == '^' as int, members))], {});
      }
    } else if pat[0] == '\\' as int {
      MissingBehind(pat, 2, [] + [One(Chr(pat[1]))], bits);
    } else if !Repeats(pat[0]) {
      MissingBehind(pat, 1, [] + [One(Chr(pat[0]))], bits);
    }
  }

  /** In particular, a pattern that compiles leaves nothing. */
  lemma {:induction false} GoodIsClear(pat: seq<int>, p: nat, done: seq<Element>)
    requires p > 0 ==> done != []
    ensures Parse(pat, p, done, {}).Good? ==> Parse(pat, p, done, {}).bits == {}
    decreases |pat| - p
  {
    hide ClassAfterDash;
    if p < |pat| {
      if pat[p] == '[' as int {
        var (members, q) := ReadAt(pat, p, {});
        if q < |pat| {
          GoodIsClear(pat, q + 1, done + [One(CharClass(At(pat, p + 1) == '^' as int, members))]);
        }
      } else if Repeats(pat[p]) {
        if p > 0 {
          var last := done[|done| - 1];
          if last.Star? {
            GoodIsClear(pat, p + 1, done);
          } else if last.One? {
            GoodIsClear(pat, p + 1, (if pat[p] == '+' as int then done else done[..|done| - 1]) + [Star(last.atom)]);
          }
        }
      } else if pat[p] == '\\' as int {
        if p + 1 < |pat| {
          GoodIsClear(pat, p + 2, done + [One(Chr(pat[p + 1]))]);
        }
      } else {
        GoodIsClear(pat, p + 1, done + [One(AnyChar)]);
        GoodIsClear(pat, p + 1, done + [LineStart]);
        GoodIsClear(pat, p + 1, done + [LineEnd]);
        GoodIsClear(pat, p + 1, done + [One(Chr(pat[p]))]);
      }
    }
  }

  // ---------- What it does to the next pattern ----------

  /** The same elements, or the same message. */
  predicate Agree(r: Parsed, s: Parsed) {
    match r
    case Good(elements, _) => s.Good? && s.elements == elements
    case Bad(message, _) => s.Bad? && s.message == message
    case Tagged => s.Tagged?
  }

  /** The same but for the members of classes. */
  predicate Alike(e: Element, f: Element) {
    (e.One? <==> f.One?) && (e.Star? <==> f.Star?) && (e == LineStart <==> f == LineStart)
  }

  predicate AllAlike(d: seq<Element>, e: seq<Element>) {
    |d| == |e| && forall k :: 0 <= k < |d| ==> Alike(d[k], e[k])
  }

  /** Neither the table nor the members of classes decide whether a pattern is read to its end. */
  lemma {:induction false} SameCourse(pat: seq<int>, p: nat, d: seq<Element>, e: seq<Element>, bits: set<int>,
                                      bits': set<int>)
    requires (p > 0 ==> d != []) && AllAlike(d, e)
    ensures var r, s := Parse(pat, p, d, bits), Parse(pat, p, e, bits');
      (r.Good? <==> s.Good?) && (r.Tagged? <==> s.Tagged?) && (r.Bad? && s.Bad? ==> r.message == s.message)
    decreases |pat| - p
  {
    hide ClassAfterDash;
    if p < |pat| {
      if pat[p] == '[' as int {
        var negated := At(pat, p + 1) == '^' as int;
        var (m, q) := ReadAt(pat, p, bits);
        var (m', q') := ReadAt(pat, p, bits');
        ReadAdds(pat, p, bits);
        ReadAdds(pat, p, bits');
        if q < |pat| {
          SameCourse(pat, q + 1, d + [One(CharClass(negated, m))], e + [One(CharClass(negated, m'))], {}, {});
        }
      } else if Repeats(pat[p]) {
        if p > 0 {
          var last, last' := d[|d| - 1], e[|e| - 1];
          if last.Star? {
            SameCourse(pat, p + 1, d, e, bits, bits');
          } else if last.One? {
            SameCourse(pat, p + 1, (if pat[p] == '+' as int then d else d[..|d| - 1]) + [Star(last.atom)],
                       (if pat[p] == '+' as int then e else e[..|e| - 1]) + [Star(last'.atom)], bits, bits');
          }
        }
      } else if pat[p] == '\\' as int {
        if p + 1 < |pat| {
          var x := [One(Chr(pat[p + 1]))];
          SameCourse(pat, p + 2, d + x, e + x, bits, bits');
        }
      } else {
        SameCourse(pat, p + 1, d + [One(AnyChar)], e + [One(AnyChar)], bits, bits');
        SameCourse(pat, p + 1, d + [LineStart], e + [LineStart], bits, bits');
        SameCourse(pat, p + 1, d + [LineEnd], e + [LineEnd], bits, bits');
        SameCourse(pat, p + 1, d + [One(Chr(pat[p]))], e + [One(Chr(pat[p]))], bits, bits');
      }
    }
  }

  /** The element at place k is x, or a closure of it. */
  predicate Holds(elements: seq<Element>, k: nat, x: Atom) {
    k < |elements| && (elements[k] == One(x) || elements[k] == Star(x))
  }

  /** What has been read keeps its atom. */
  lemma {:induction false} AtomStays(pat: seq<int>, p: nat, done: seq<Element>, bits: set<int>, k: nat, x: Atom)
    requires (p > 0 ==> done != []) && Holds(done, k, x)
    ensures Parse(pat, p, done, bits).Good? ==> Holds(Parse(pat, p, done, bits).elements, k, x)
    decreases |pat| - p
  {
    hide ClassAfterDash;
    if p < |pat| {
      if pat[p] == '[' as int {
        var (members, q) := ReadAt(pat, p, bits);
        if q < |pat| {
          AtomStays(pat, q + 1, done + [One(CharClass(At(pat, p + 1) == '^' as int, members))], {}, k, x);
        }
      } else if Repeats(pat[p]) {
        if p > 0 {
          var last := done[|done| - 1];
          if last.Star? {
            AtomStays(pat, p + 1, done, bits, k, x);
          } else if last.One? {
            AtomStays(pat, p + 1, (if pat[p] == '+' as int then done else done[..|done| - 1]) + [Star(last.atom)], bits, k, x);
          }
        }
      } else if pat[p] == '\\' as int {
        if p + 1 < |pat| {
          AtomStays(pat, p + 2, done + [One(Chr(pat[p + 1]))], bits, k, x);
        }
      } else {
        AtomStays(pat, p + 1, done + [One(AnyChar)], bits, k, x);
        AtomStays(pat, p + 1, done + [LineStart], bits, k, x);
        AtomStays(pat, p + 1, done + [LineEnd], bits, k, x);
        AtomStays(pat, p + 1, done + [One(Chr(pat[p]))], bits, k, x);
      }
    }
  }

  /** The first class from p on has the bits anyway, or there is none. */
  predicate Absorbs(pat: seq<int>, p: nat, bits: set<int>) {
    FirstBracket(pat, p) >= |pat| || bits <= ReadAt(pat, FirstBracket(pat, p), {}).0
  }

  lemma {:induction false} AgreesFrom(pat: seq<int>, p: nat, done: seq<Element>, bits: set<int>)
    requires p > 0 ==> done != []
    ensures var r, s := Parse(pat, p, done, {}), Parse(pat, p, done, bits);
      Agree(r, s) <==> !r.Good? || Absorbs(pat, p, bits)
    decreases |pat| - p
  {
    hide ClassAfterDash;
    if p < |pat| {
      if pat[p] == '[' as int {
        FirstClassDecides(pat, p, done, bits);
      } else if Repeats(pat[p]) {
        if p > 0 {
          var last := done[|done| - 1];
          if last.Star? {
            AgreesFrom(pat, p + 1, done, bits);
          } else if last.One? {
            AgreesFrom(pat, p + 1, (if pat[p] == '+' as int then done else done[..|done| - 1]) + [Star(last.atom)], bits);
          }
        }
      } else if pat[p] == '\\' as int {
        if p + 1 < |pat| {
          AgreesFrom(pat, p + 2, done + [One(Chr(pat[p + 1]))], bits);
        }
      } else {
        AgreesFrom(pat, p + 1, done + [One(AnyChar)], bits);
        AgreesFrom(pat, p + 1, done + [LineStart], bits);
        AgreesFrom(pat, p + 1, done + [LineEnd], bits);
        AgreesFrom(pat, p + 1, done + [One(Chr(pat[p]))], bits);
      }
    }
  }

  lemma FirstClassDecides(pat: seq<int>, p: nat, done: seq<Element>, bits: set<int>)
    requires (p > 0 ==> done != []) && p < |pat| && pat[p] == '[' as int
    ensures var r, s := Parse(pat, p, done, {}), Parse(pat, p, done, bits);
      Agree(r, s) <==> !r.Good? || Absorbs(pat, p, bits)
  {
    hide ClassAfterDash;
    var negated := At(pat, p + 1) == '^' as int;
    var (m, q) := ReadAt(pat, p, {});
    ReadAdds(pat, p, bits);
    if q < |pat| {
      var x, y := CharClass(negated, m), CharClass(negated, m + bits);
      SameCourse(pat, q + 1, done + [One(x)], done + [One(y)], {}, {});
      AtomStays(pat, q + 1, done + [One(x)], {}, |done|, x);
      AtomStays(pat, q + 1, done + [One(y)], {}, |done|, y);
      assert bits <= m <==> m + bits == m;
    }
  }

  /** A pattern compiled over leftover bits agrees with the same pattern compiled over a clear table
      exactly when it does not compile anyway, has no class, or has a first class with all the bits. */
  lemma AgreesExactly(pat: seq<int>, bits: set<int>)
    requires PatternOk(pat) && Parse(pat, 0, [], {}) != Tagged
    ensures Agree(Parse(pat, 0, [], {}), Parse(pat, 0, [], bits)) <==>
      BadStart(pat) || OpenBracket(pat, 0) < |pat| || FirstBracket(pat, 0) >= |pat| ||
        bits <= ReadAt(pat, FirstBracket(pat, 0), {}).0
  {
    hide Parse, ReadAt, FirstBracket, OpenBracket;
    CompilesExactly(pat);
    AgreesFrom(pat, 0, [], bits);
  }

  /** After the pattern [a, which is left open, the pattern [b] accepts a as well. */
  lemma OpenClassLeaks()
    ensures var first := Parse(['[' as int, 'a' as int], 0, [], {});
      first == Bad(MissingBracket, {'a' as int}) &&
      Parse(['[' as int, 'b' as int, ']' as int], 0, [], first.bits) == Good([One(CharClass(false, {'a' as int, 'b' as int}))], {})
  {
    var open, closed := ['[' as int, 'a' as int], ['[' as int, 'b' as int, ']' as int];
    var a, ab := {'a' as int}, {'a' as int, 'b' as int};
    assert {} + {open[1]} == a && a + {closed[1]} == ab;
    assert ClassFrom(open, 2, a) == (a, 2) && ClassFrom(closed, 2, ab) == (ab, 2);
    assert ClassFrom(open, 1, {}) == ClassFrom(open, 2, a);
    assert ClassFrom(closed, 1, a) == ClassFrom(closed, 2, ab);
    assert ClassAfterDash(open, 1, {}) == (a, 2) && ClassAfterDash(closed, 1, a) == (ab, 2);
    assert Parse(closed, 3, [One(CharClass(false, ab))], {}) == Good([One(CharClass(false, ab))], {});
  }
}
