/** The language of the patterns of src/regex.c, told from how they are written: a pattern is a text of
    symbols and closure marks, which Parse reads as elements that match the same stretches. */
module PatternTexts {
  import opened Patterns
  import opened ClassTables

  // ---------- How patterns are written ----------

  /** Characters joined by dashes, as in a, a-z or a-m-z. */
  datatype Run = Run(first: int, more: seq<int>)

  /** Between brackets: perhaps a caret, some runs, and perhaps a dash before the closing bracket. */
  datatype Class = Class(negated: bool, runs: seq<Run>, dash: bool)

  datatype Symbol = Plain(c: int) | Escaped(c: int) | Dot | Bracketed(cls: Class)

  /** A symbol and the closure marks behind it, of which the first one counts. */
  datatype Piece = Piece(symbol: Symbol, marks: seq<int>)

  datatype Pattern = Pattern(start: bool, pieces: seq<Piece>, end: bool)

  function MoreText(more: seq<int>): seq<int> {
    if more == [] then [] else ['-' as int, more[0]] + MoreText(more[1..])
  }

  function RunsText(runs: seq<Run>): seq<int> {
    if runs == [] then [] else [runs[0].first] + (MoreText(runs[0].more) + RunsText(runs[1..]))
  }

  function Closing(dash: bool): seq<int> {
    if dash then ['-' as int, ']' as int] else [']' as int]
  }

  function ClassText(cls: Class): seq<int> {
    (if cls.negated then ['[' as int, '^' as int] else ['[' as int]) + (RunsText(cls.runs) + Closing(cls.dash))
  }

  function SymbolText(s: Symbol): seq<int> {
    match s
    case Plain(c) => [c]
    case Escaped(c) => ['\\' as int, c]
    case Dot => ['.' as int]
    case Bracketed(cls) => ClassText(cls)
  }

  function PiecesText(pieces: seq<Piece>): seq<int> {
    if pieces == [] then [] else SymbolText(pieces[0].symbol) + (pieces[0].marks + PiecesText(pieces[1..]))
  }

  function TextOf(p: Pattern): seq<int> {
    (if p.start then ['^' as int] else []) + (PiecesText(p.pieces) + (if p.end then ['$' as int] else []))
  }

  // Which of these are written as they are meant.

  predicate MoreOk(more: seq<int>) {
    forall k :: 0 <= k < |more| ==> IsChar(more[k]) && more[k] != ']' as int
  }

  predicate RunOk(run: Run) {
    IsChar(run.first) && MoreOk(run.more)
  }

  /** A dash begins a run only at the start of the class, and a bracket there or behind a single dash. */
  predicate ClassOk(cls: Class) {
    && cls.runs != [] && (forall k :: 0 <= k < |cls.runs| ==> RunOk(cls.runs[k]))
    && (forall k :: 0 < k < |cls.runs| ==> cls.runs[k].first != '-' as int)
    && (forall k :: 0 < k < |cls.runs| && cls.runs[k].first == ']' as int ==>
          k == 1 && cls.runs[0] == Run('-' as int, []))
    && (cls.runs == [Run('-' as int, [])] ==> cls.dash) && (!cls.negated ==> cls.runs[0].first != '^' as int)
  }

  predicate SymbolOk(s: Symbol) {
    match s
    case Plain(c) => IsChar(c) && c != '.' as int && c != '[' as int && !Repeats(c) && c != '\\' as int
    case Escaped(c) => IsChar(c) && !IsTag(c)
    case Dot => true
    case Bracketed(cls) => ClassOk(cls)
  }

  predicate PieceOk(piece: Piece) {
    SymbolOk(piece.symbol) && forall k :: 0 <= k < |piece.marks| ==> Repeats(piece.marks[k])
  }

  predicate PiecesOk(pieces: seq<Piece>) {
    forall k :: 0 <= k < |pieces| ==> PieceOk(pieces[k])
  }

  /** A caret at the start and a dollar sign at the end are anchors. */
  predicate PatternIsOk(p: Pattern) {
    && PiecesOk(p.pieces)
    && (p.pieces != [] && !p.start ==> p.pieces[0].symbol != Plain('^' as int))
    && (p.pieces != [] && !p.end ==> p.pieces[|p.pieces| - 1] != Piece(Plain('$' as int), []))
  }

  // ---------- What they match ----------

  /** c lies behind the character before place k, up to the one there. */
  predicate Between(first: int, more: seq<int>, k: nat, c: int) {
    k < |more| && (if k == 0 then first else more[k - 1]) < c <= more[k]
  }

  predicate InMore(first: int, more: seq<int>, c: int) {
    exists k :: 0 <= k < |more| && Between(first, more, k, c)
  }

  predicate InRun(run: Run, c: int) {
    c == run.first || InMore(run.first, run.more, c)
  }

  predicate InRuns(runs: seq<Run>, c: int) {
    exists k :: 0 <= k < |runs| && InRun(runs[k], c)
  }

  /** Symbol s accepts character c. */
  predicate Takes(s: Symbol, c: int) {
    match s
    case Plain(x) => c == x
    case Escaped(x) => c == x
    case Dot => true
    case Bracketed(cls) => (InRuns(cls.runs, c) || (cls.dash && c == '-' as int)) != cls.negated
  }

  predicate TakesAll(s: Symbol, text: seq<int>, i: nat, j: nat) {
    i <= j <= |text| && forall l :: i <= l < j ==> Takes(s, text[l])
  }

  /** A piece matches from i to j: one character, with a star any number, with a plus at least one. */
  predicate PieceMatches(piece: Piece, text: seq<int>, i: nat, j: nat) {
    && TakesAll(piece.symbol, text, i, j)
    && (piece.marks == [] ==> j == i + 1)
    && (piece.marks != [] && piece.marks[0] == '+' as int ==> j >= i + 1)
  }

  ghost predicate PiecesMatch(pieces: seq<Piece>, text: seq<int>, i: nat, j: nat)
    decreases |pieces|
  {
    if pieces == [] then i == j
    else exists k: nat :: PieceMatches(pieces[0], text, i, k) && PiecesMatch(pieces[1..], text, k, j)
  }

  ghost predicate PatternMatches(p: Pattern, text: seq<int>, i: nat, j: nat) {
    (p.start ==> i == 0) && PiecesMatch(p.pieces, text, i, j) && (p.end ==> j == |text|)
  }

  /** A run of two characters in order is a range; a run of one is that character. */
  lemma RunIsRange(x: int, y: int, c: int)
    ensures InRun(Run(x, []), c) <==> c == x
    ensures x <= y ==> (InRun(Run(x, [y]), c) <==> x <= c <= y)
  {
    assert Between(x, [y], 0, c) <==> x < c <= y;
  }

  // ---------- Elements ----------

  function ClassSet(cls: Class): set<int> {
    set c: int | 0 < c < 128 && (InRuns(cls.runs, c) || (cls.dash && c == '-' as int))
  }

  function AtomOf(s: Symbol): Atom {
    match s
    case Plain(c) => Chr(c)
    case Escaped(c) => Chr(c)
    case Dot => AnyChar
    case Bracketed(cls) => CharClass(cls.negated, ClassSet(cls))
  }

  function Repeated(a: Atom, marks: seq<int>): seq<Element> {
    if marks == [] then [One(a)] else if marks[0] == '+' as int then [One(a), Star(a)] else [Star(a)]
  }

  function PieceElements(piece: Piece): seq<Element> {
    Repeated(AtomOf(piece.symbol), piece.marks)
  }

  /** The elements of the pieces and of the anchor behind them. */
  function ElementsFrom(pieces: seq<Piece>, end: bool): seq<Element> {
    if pieces == [] then (if end then [LineEnd] else [])
    else PieceElements(pieces[0]) + ElementsFrom(pieces[1..], end)
  }

  function ElementsOf(p: Pattern): seq<Element> {
    (if p.start then [LineStart] else []) + ElementsFrom(p.pieces, p.end)
  }

  lemma InMoreFirst(first: int, more: seq<int>, c: int)
    requires more != []
    ensures InMore(first, more, c) <==> first < c <= more[0] || InMore(more[0], more[1..], c)
  {
    assert Between(first, more, 0, c) <==> first < c <= more[0];
    assert forall k: nat :: Between(first, more, k + 1, c) <==> Between(more[0], more[1..], k, c);
    if k: nat :| k < |more| && Between(first, more, k, c) {
      assert k > 0 ==> Between(more[0], more[1..], k - 1, c);
    }
    if k: nat :| k < |more[1..]| && Between(more[0], more[1..], k, c) {
      assert Between(first, more, k + 1, c);
    }
  }

  lemma InRunsFirst(runs: seq<Run>, c: int)
    requires runs != []
    ensures InRuns(runs, c) <==> InRun(runs[0], c) || InRuns(runs[1..], c)
  {
    hide InRun;
    if k :| 0 <= k < |runs| && InRun(runs[k], c) {
      assert k > 0 ==> runs[k] == runs[1..][k - 1];
    }
    if k :| 0 <= k < |runs[1..]| && InRun(runs[1..][k], c) {
      assert runs[k + 1] == runs[1..][k];
    }
  }

  // ---------- Texts at a place ----------

  /** t stands in pat from p on. */
  predicate Here(pat: seq<int>, p: nat, t: seq<int>) {
    p + |t| <= |pat| && forall k :: 0 <= k < |t| ==> pat[p + k] == t[k]
  }

  lemma HereSplit(pat: seq<int>, p: nat, a: seq<int>, b: seq<int>)
    ensures Here(pat, p, a + b) <==> Here(pat, p, a) && Here(pat, p + |a|, b)
  {
    var t := a + b;
    if Here(pat, p, a) && Here(pat, p + |a|, b) {
      forall k | 0 <= k < |t| ensures pat[p + k] == t[k] {
        if k >= |a| {
          assert pat[p + |a| + (k - |a|)] == b[k - |a|];
        }
      }
    }
    if Here(pat, p, t) {
      forall k | 0 <= k < |a| ensures pat[p + k] == a[k] {
        assert a[k] == t[k];
      }
      forall k | 0 <= k < |b| ensures pat[p + |a| + k] == b[k] {
        assert pat[p + (|a| + k)] == t[|a| + k];
      }
    }
  }

  // ---------- Reading a class ----------

  lemma {:induction false} RangeIs(c1: int, c2: int, c: int)
    ensures c in Range(c1, c2) <==> c1 <= c <= c2
    decreases c2 - c1
  {
    if c1 <= c2 {
      RangeIs(c1, c2 - 1, c);
    }
  }

  /** The characters that the rest of a class adds, behind the character `first`. */
  predicate Adds(first: int, more: seq<int>, runs: seq<Run>, dash: bool, c: int) {
    InMore(first, more, c) || InRuns(runs, c) || (dash && c == '-' as int)
  }

  /** The rest of a class: what is left of a run, further runs, and the closing bracket. */
  function RestText(more: seq<int>, runs: seq<Run>, dash: bool): seq<int> {
    MoreText(more) + (RunsText(runs) + Closing(dash))
  }

  predicate RestOk(more: seq<int>, runs: seq<Run>) {
    && MoreOk(more) && (forall k :: 0 <= k < |runs| ==> RunOk(runs[k]))
    && forall k :: 0 <= k < |runs| ==> runs[k].first != '-' as int && runs[k].first != ']' as int
  }

  lemma FirstOfMore(pat: seq<int>, p: nat, more: seq<int>, runs: seq<Run>, dash: bool)
    requires Here(pat, p, RestText(more, runs, dash)) && more != []
    ensures p + 1 < |pat| && pat[p] == '-' as int && pat[p + 1] == more[0]
    ensures Here(pat, p + 2, RestText(more[1..], runs, dash))
    ensures |RestText(more, runs, dash)| == 2 + |RestText(more[1..], runs, dash)|
  {
    hide RestText;
    var t := ['-' as int, more[0]];
    MoreRest(more, runs, dash);
    HereSplit(pat, p, t, RestText(more[1..], runs, dash));
    assert pat[p + 0] == t[0] && pat[p + 1] == t[1];
  }

  lemma MoreRest(more: seq<int>, runs: seq<Run>, dash: bool)
    requires more != []
    ensures RestText(more, runs, dash) == ['-' as int, more[0]] + RestText(more[1..], runs, dash)
  {
    hide Closing, RunsText;
    Joined(['-' as int, more[0]], MoreText(more[1..]), RunsText(runs) + Closing(dash), []);
  }

  lemma FirstOfRuns(pat: seq<int>, p: nat, runs: seq<Run>, dash: bool)
    requires Here(pat, p, RestText([], runs, dash)) && runs != []
    ensures p < |pat| && pat[p] == runs[0].first && Here(pat, p + 1, RestText(runs[0].more, runs[1..], dash))
    ensures |RestText([], runs, dash)| == 1 + |RestText(runs[0].more, runs[1..], dash)|
  {
    hide RestText;
    var t := [runs[0].first];
    RunsRest(runs, dash);
    HereSplit(pat, p, t, RestText(runs[0].more, runs[1..], dash));
    assert pat[p + 0] == t[0];
  }

  lemma RunsRest(runs: seq<Run>, dash: bool)
    requires runs != []
    ensures RestText([], runs, dash) == [runs[0].first] + RestText(runs[0].more, runs[1..], dash)
  {
    hide Closing, RunsText, MoreText;
    RestOfNothing(runs, dash);
    RunsStart(runs);
    Joined([runs[0].first], MoreText(runs[0].more), RunsText(runs[1..]), Closing(dash));
  }

  lemma RunsStart(runs: seq<Run>)
    requires runs != []
    ensures RunsText(runs) == [runs[0].first] + (MoreText(runs[0].more) + RunsText(runs[1..]))
  {
  }

  lemma Joined(a: seq<int>, b: seq<int>, c: seq<int>, d: seq<int>)
    ensures a + (b + c) + d == a + (b + (c + d)) && a + b + c == a + (b + c)
  {
  }

  lemma AtClosing(pat: seq<int>, p: nat, dash: bool)
    requires Here(pat, p, RestText([], [], dash))
    ensures |RestText([], [], dash)| == if dash then 2 else 1
    ensures p < |pat| && pat[p] == (if dash then '-' as int else ']' as int)
    ensures dash ==> p + 1 < |pat| && pat[p + 1] == ']' as int
  {
    assert RestText([], [], dash) == Closing(dash);
    assert pat[p + 0] == Closing(dash)[0] && (dash ==> pat[p + 1] == Closing(dash)[1]);
  }

  /** The rest of a class is read to its closing bracket, with the members that it adds. */
  lemma {:induction false} ReadsRest(pat: seq<int>, p: nat, members: set<int>, more: seq<int>, runs: seq<Run>,
                                     dash: bool)
    requires 0 < p && Here(pat, p, RestText(more, runs, dash)) && RestOk(more, runs)
    ensures ClassFrom(pat, p, members).1 == p + |RestText(more, runs, dash)| - 1
    ensures forall c :: c in ClassFrom(pat, p, members).0 <==> c in members || Adds(pat[p - 1], more, runs, dash, c)
    decreases |pat| - p
  {
    hide Range, RestText, InMore, InRuns, InRun;
    if more != [] {
      FirstOfMore(pat, p, more, runs, dash);
      var range := Range(pat[p - 1] + 1, more[0]);
      ReadsRest(pat, p + 2, members + range, more[1..], runs, dash);
      forall c
        ensures c in ClassFrom(pat, p, members).0 <==> c in members || Adds(pat[p - 1], more, runs, dash, c)
      {
        RangeIs(pat[p - 1] + 1, more[0], c);
        InMoreFirst(pat[p - 1], more, c);
      }
    } else if runs != [] {
      FirstOfRuns(pat, p, runs, dash);
      ReadsRest(pat, p + 1, members + {pat[p]}, runs[0].more, runs[1..], dash);
      forall c
        ensures c in ClassFrom(pat, p, members).0 <==> c in members || Adds(pat[p - 1], more, runs, dash, c)
      {
        InRunsFirst(runs, c);
        RunParts(runs[0], pat[p - 1], c);
      }
    } else {
      AtClosing(pat, p, dash);
      NothingAdded(pat[p - 1]);
    }
  }

  lemma RunParts(run: Run, first: int, c: int)
    ensures InRun(run, c) <==> c == run.first || InMore(run.first, run.more, c)
    ensures !InMore(first, [], c)
  {
  }

  lemma NothingAdded(first: int)
    ensures forall c :: !InMore(first, [], c) && !InRuns([], c)
  {
  }

  /** Where reading the rest of a class starts: behind a leading dash, a leading bracket or both. */
  lemma ClassHead(pat: seq<int>, s: nat, cls: Class) returns (d: nat, more: seq<int>, runs: seq<Run>, m: set<int>)
    requires 0 < s && ClassOk(cls) && Here(pat, s, RunsText(cls.runs) + Closing(cls.dash))
    ensures s <= d <= |pat| && RestOk(more, runs) && Here(pat, d, RestText(more, runs, cls.dash))
    ensures d + |RestText(more, runs, cls.dash)| == s + |RunsText(cls.runs) + Closing(cls.dash)|
    ensures ClassAfterDash(pat, s, {}) == ClassFrom(pat, d, m)
    ensures forall c :: InRuns(cls.runs, c) <==> c in m || InMore(pat[d - 1], more, c) || InRuns(runs, c)
  {
    hide InMore, InRun, InRuns, ClassFrom, RestOk, RestText;
    var rs := cls.runs;
    assert RestText([], rs, cls.dash) == RunsText(rs) + Closing(cls.dash) by { RestOfNothing(rs, cls.dash); }
    FirstOfRuns(pat, s, rs, cls.dash);
    forall c ensures InRuns(rs, c) <==> InRun(rs[0], c) || InRuns(rs[1..], c) {
      InRunsFirst(rs, c);
    }
    forall run: Run, c ensures InRun(run, c) <==> c == run.first || InMore(run.first, run.more, c) {
      RunParts(run, 0, c);
    }
    forall first, c ensures !InMore(first, [], c) {
      RunParts(rs[0], first, c);
    }
    if rs[0] == Run('-' as int, []) && |rs| > 1 && rs[1].first == ']' as int {
      HeadIsOk(cls, 1);
      FirstOfRuns(pat, s + 1, rs[1..], cls.dash);
      forall c ensures InRuns(rs[1..], c) <==> InRun(rs[1], c) || InRuns(rs[2..], c) {
        InRunsFirst(rs[1..], c);
        assert rs[1..][1..] == rs[2..];
      }
      assert rs[1..][1..] == rs[2..];
      d, more, runs, m := s + 2, rs[1].more, rs[2..], {'-' as int, ']' as int};
      assert {} + {'-' as int} + {']' as int} == m;
    } else if rs[0].first == '-' as int {
      HeadIsOk(cls, 0);
      d, more, runs, m := s + 1, rs[0].more, rs[1..], {'-' as int};
      assert {} + {'-' as int} == m;
      BehindDash(pat, s + 1, rs, cls.dash);
    } else if rs[0].first == ']' as int {
      HeadIsOk(cls, 0);
      d, more, runs, m := s + 1, rs[0].more, rs[1..], {']' as int};
      assert {} + {']' as int} == m;
    } else {
      HeadIsOk(cls, 0);
      d, more, runs, m := s, [], rs, {};
    }
  }

  lemma RestOfNothing(runs: seq<Run>, dash: bool)
    ensures RestText([], runs, dash) == RunsText(runs) + Closing(dash)
  {
    assert MoreText([]) == [];
  }

  lemma HeadIsOk(cls: Class, j: nat)
    requires ClassOk(cls) && j <= 1 && j < |cls.runs|
    requires j == 0 && |cls.runs| > 1 ==> cls.runs[1].first != ']' as int || cls.runs[0] != Run('-' as int, [])
    ensures RestOk(cls.runs[j].more, cls.runs[j + 1..])
    ensures j == 0 && cls.runs[0].first != '-' as int && cls.runs[0].first != ']' as int ==> RestOk([], cls.runs)
  {
    var runs := cls.runs[j + 1..];
    assert RunOk(cls.runs[j]);
    assert forall k :: 0 <= k < |runs| ==> runs[k] == cls.runs[j + 1 + k];
  }

  /** Behind a dash that stands alone the class does not go on with a bracket. */
  lemma BehindDash(pat: seq<int>, p: nat, rs: seq<Run>, dash: bool)
    requires rs != [] && rs[0].first == '-' as int && Here(pat, p, RestText(rs[0].more, rs[1..], dash))
    requires rs == [Run('-' as int, [])] ==> dash
    requires rs[0].more == [] && |rs| > 1 ==> rs[1].first != ']' as int
    ensures At(pat, p) != ']' as int
  {
    hide RestText;
    if rs[0].more != [] {
      FirstOfMore(pat, p, rs[0].more, rs[1..], dash);
    } else if |rs| > 1 {
      FirstOfRuns(pat, p, rs[1..], dash);
    } else {
      AtClosing(pat, p, dash);
      assert rs == [Run('-' as int, [])];
    }
  }

  /** A class is read as it is meant, up to its closing bracket. */
  lemma ClassReads(pat: seq<int>, p: nat, cls: Class)
    requires ClassOk(cls) && Here(pat, p, ClassText(cls))
    ensures At(pat, p) == '[' as int && (At(pat, p + 1) == '^' as int <==> cls.negated)
    ensures ClassAfterDash(pat, if cls.negated then p + 2 else p + 1, {}) == (ClassSet(cls), p + |ClassText(cls)| - 1)
  {
    hide ClassAfterDash, ClassFrom, ClassOk, RestText, Here, InMore, InRuns;
    var head := if cls.negated then ['[' as int, '^' as int] else ['[' as int];
    var rest := RunsText(cls.runs) + Closing(cls.dash);
    HereSplit(pat, p, head, rest);
    var s := p + |head|;
    ClassOpens(pat, p, head, cls);
    var d, more, runs, m := ClassHead(pat, s, cls);
    ReadsRest(pat, d, m, more, runs, cls.dash);
    var r := ClassFrom(pat, d, m).0;
    forall c ensures c in r <==> InRuns(cls.runs, c) || (cls.dash && c == '-' as int) {
      assert Adds(pat[d - 1], more, runs, cls.dash, c) <==>
        (InMore(pat[d - 1], more, c) || InRuns(runs, c) || (cls.dash && c == '-' as int));
    }
    forall c | InRuns(cls.runs, c) ensures 0 < c < 128 {
      RunsAreChars(cls, c);
    }
    assert r == ClassSet(cls);
  }

  lemma ClassOpens(pat: seq<int>, p: nat, head: seq<int>, cls: Class)
    requires head == (if cls.negated then ['[' as int, '^' as int] else ['[' as int]) && Here(pat, p, head)
    requires ClassOk(cls) && Here(pat, p + |head|, RunsText(cls.runs) + Closing(cls.dash))
    ensures At(pat, p) == '[' as int && (At(pat, p + 1) == '^' as int <==> cls.negated)
  {
    hide ClassOk, RunsText, Closing, Here;
    TextBegins(pat, p, head);
    ClassStarts(cls);
    if !cls.negated {
      RestOfNothing(cls.runs, cls.dash);
      FirstOfRuns(pat, p + 1, cls.runs, cls.dash);
    }
  }

  lemma TextBegins(pat: seq<int>, p: nat, t: seq<int>)
    requires Here(pat, p, t) && |t| > 0
    ensures p + |t| <= |pat| && pat[p] == t[0] && (|t| > 1 ==> pat[p + 1] == t[1])
  {
    assert pat[p + 0] == t[0] && (|t| > 1 ==> pat[p + 1] == t[1]);
  }

  lemma ClassStarts(cls: Class)
    requires ClassOk(cls)
    ensures cls.runs != [] && (!cls.negated ==> cls.runs[0].first != '^' as int)
  {
  }

  lemma RunsAreChars(cls: Class, c: int)
    requires ClassOk(cls) && InRuns(cls.runs, c)
    ensures IsChar(c)
  {
    var k :| 0 <= k < |cls.runs| && InRun(cls.runs[k], c);
    var run := cls.runs[k];
    assert RunOk(run);
    if c != run.first {
      var l :| 0 <= l < |run.more| && Between(run.first, run.more, l, c);
      assert IsChar(run.more[l]) && (l > 0 ==> IsChar(run.more[l - 1]));
    }
  }

  // ---------- Reading symbols, marks and whole patterns ----------

  /** s can stand at p: a caret not at the start, a dollar sign not at the end. */
  predicate CanStand(pat: seq<int>, p: nat, s: Symbol) {
    (s == Plain('^' as int) ==> p > 0) && (s == Plain('$' as int) ==> p + 1 < |pat|)
  }

  lemma SymbolReads(pat: seq<int>, p: nat, done: seq<Element>, s: Symbol)
    requires SymbolOk(s) && Here(pat, p, SymbolText(s)) && CanStand(pat, p, s) && (p > 0 ==> done != [])
    ensures |SymbolText(s)| > 0
    ensures Parse(pat, p, done, {}) == Parse(pat, p + |SymbolText(s)|, done + [One(AtomOf(s))], {})
  {
    hide ClassAfterDash, ClassSet, ClassOk, ClassText;
    var t := SymbolText(s);
    match s
    case Plain(c) => assert pat[p + 0] == t[0];
    case Escaped(c) => assert pat[p + 0] == t[0] && pat[p + 1] == t[1];
    case Dot => assert pat[p + 0] == t[0];
    case Bracketed(cls) =>
      ClassReads(pat, p, cls);
      assert |ClassText(cls)| > 1 by { ClassIsLong(cls); }
  }

  lemma ClassIsLong(cls: Class)
    ensures |ClassText(cls)| > 1
  {
  }

  /** Marks behind a closure change nothing. */
  lemma {:induction false} MoreMarksRead(pat: seq<int>, p: nat, done: seq<Element>, a: Atom, marks: seq<int>)
    requires (forall k :: 0 <= k < |marks| ==> Repeats(marks[k])) && Here(pat, p, marks) && p > 0
    ensures Parse(pat, p, done + [Star(a)], {}) == Parse(pat, p + |marks|, done + [Star(a)], {})
    decreases |marks|
  {
    if marks != [] {
      assert pat[p + 0] == marks[0];
      HereSplit(pat, p, [marks[0]], marks[1..]);
      assert [marks[0]] + marks[1..] == marks;
      MoreMarksRead(pat, p + 1, done, a, marks[1..]);
    }
  }

  lemma MarksRead(pat: seq<int>, p: nat, done: seq<Element>, a: Atom, marks: seq<int>)
    requires (forall k :: 0 <= k < |marks| ==> Repeats(marks[k])) && Here(pat, p, marks) && p > 0
    ensures Parse(pat, p, done + [One(a)], {}) == Parse(pat, p + |marks|, done + Repeated(a, marks), {})
  {
    if marks != [] {
      assert pat[p + 0] == marks[0];
      HereSplit(pat, p, [marks[0]], marks[1..]);
      assert [marks[0]] + marks[1..] == marks;
      var d := if marks[0] == '+' as int then done + [One(a)] else done;
      assert (done + [One(a)])[..|done|] == done;
      assert d + [Star(a)] == done + Repeated(a, marks);
      MoreMarksRead(pat, p + 1, d, a, marks[1..]);
    }
  }

  function Ending(end: bool): seq<int> {
    if end then ['$' as int] else []
  }

  lemma PiecesFirst(pat: seq<int>, p: nat, pieces: seq<Piece>, end: bool)
    requires pieces != [] && Here(pat, p, PiecesText(pieces) + Ending(end))
    ensures var n, m := |SymbolText(pieces[0].symbol)|, |pieces[0].marks|;
      && Here(pat, p, SymbolText(pieces[0].symbol)) && Here(pat, p + n, pieces[0].marks)
      && Here(pat, p + n + m, PiecesText(pieces[1..]) + Ending(end))
      && |PiecesText(pieces) + Ending(end)| == n + m + |PiecesText(pieces[1..]) + Ending(end)|
  {
    hide Here, SymbolText, Ending;
    var t, marks, rest := SymbolText(pieces[0].symbol), pieces[0].marks, PiecesText(pieces[1..]) + Ending(end);
    assert PiecesText(pieces) + Ending(end) == t + (marks + rest);
    HereSplit(pat, p, t, marks + rest);
    HereSplit(pat, p + |t|, marks, rest);
  }

  /** Pieces up to the end of the pattern are read as their elements. */
  lemma {:induction false} PiecesRead(pat: seq<int>, p: nat, done: seq<Element>, pieces: seq<Piece>, end: bool)
    requires PiecesOk(pieces) && Here(pat, p, PiecesText(pieces) + Ending(end)) && (p > 0 ==> done != [])
    requires p + |PiecesText(pieces) + Ending(end)| == |pat|
    requires pieces != [] && p == 0 ==> pieces[0].symbol != Plain('^' as int)
    requires pieces != [] && !end ==> pieces[|pieces| - 1] != Piece(Plain('$' as int), [])
    ensures Parse(pat, p, done, {}) == Good(done + ElementsFrom(pieces, end), {})
    decreases |pieces|
  {
    hide Here, SymbolText, AtomOf, Repeated, SymbolOk, Parse;
    if pieces == [] {
      EndReads(pat, p, done, end);
    } else {
      var s, marks := pieces[0].symbol, pieces[0].marks;
      var n, m := |SymbolText(s)|, |marks|;
      assert PieceOk(pieces[0]);
      PiecesFirst(pat, p, pieces, end);
      if s == Plain('$' as int) {
        DollarIsInside(pieces, end);
      }
      SymbolReads(pat, p, done, s);
      MarksRead(pat, p + n, done, AtomOf(s), marks);
      assert forall k :: 0 <= k < |pieces[1..]| ==> pieces[1..][k] == pieces[k + 1];
      RepeatedNotEmpty(AtomOf(s), marks);
      PiecesRead(pat, p + n + m, done + Repeated(AtomOf(s), marks), pieces[1..], end);
      assert done + Repeated(AtomOf(s), marks) + ElementsFrom(pieces[1..], end) == done + ElementsFrom(pieces, end);
    }
  }

  lemma RepeatedNotEmpty(a: Atom, marks: seq<int>)
    ensures Repeated(a, marks) != []
  {
  }

  lemma EndReads(pat: seq<int>, p: nat, done: seq<Element>, end: bool)
    requires Here(pat, p, PiecesText([]) + Ending(end)) && (p > 0 ==> done != [])
    requires p + |PiecesText([]) + Ending(end)| == |pat|
    ensures Parse(pat, p, done, {}) == Good(done + ElementsFrom([], end), {})
  {
    assert PiecesText([]) + Ending(end) == Ending(end);
    if end {
      assert pat[p + 0] == Ending(end)[0];
      assert Parse(pat, p + 1, done + [LineEnd], {}) == Good(done + [LineEnd], {});
    } else {
      assert done + [] == done;
    }
  }

  /** A dollar sign that is meant as such has something behind it. */
  lemma DollarIsInside(pieces: seq<Piece>, end: bool)
    requires pieces != [] && pieces[0].symbol == Plain('$' as int)
    requires PiecesOk(pieces) && (!end ==> pieces[|pieces| - 1] != Piece(Plain('$' as int), []))
    ensures |PiecesText(pieces) + Ending(end)| > 1
  {
    hide SymbolText;
    assert |SymbolText(pieces[0].symbol)| == 1 by { PlainIsShort('$' as int); }
    if |pieces| > 1 {
      TextNotEmpty(pieces[1].symbol);
      assert |PiecesText(pieces[1..])| >= |SymbolText(pieces[1].symbol)|;
    }
  }

  lemma PlainIsShort(c: int)
    ensures |SymbolText(Plain(c))| == 1
  {
  }

  lemma TextNotEmpty(s: Symbol)
    ensures SymbolText(s) != []
  {
    if s.Bracketed? {
      ClassIsLong(s.cls);
    }
  }

  /** The text of a pattern compiles, and to its elements. */
  lemma PatternReads(r: Pattern)
    requires PatternIsOk(r)
    ensures Parse(TextOf(r), 0, [], {}) == Good(ElementsOf(r), {})
  {
    hide Parse, PiecesText, ElementsFrom, PiecesOk;
    var pat, t := TextOf(r), PiecesText(r.pieces) + Ending(r.end);
    if r.start {
      assert pat == ['^' as int] + t;
      HereSplit(pat, 0, ['^' as int], t);
      assert Here(pat, 0, pat);
      StartReads(pat);
      PiecesRead(pat, 1, [LineStart], r.pieces, r.end);
    } else {
      assert pat == t && Here(pat, 0, pat);
      PiecesRead(pat, 0, [], r.pieces, r.end);
      assert [] + ElementsFrom(r.pieces, r.end) == ElementsFrom(r.pieces, r.end);
    }
  }

  lemma StartReads(pat: seq<int>)
    requires pat != [] && pat[0] == '^' as int
    ensures Parse(pat, 0, [], {}) == Parse(pat, 1, [LineStart], {})
  {
    assert [] + [LineStart] == [LineStart];
  }

  // ---------- The elements match what the pattern matches ----------

  lemma TakesIsAccepts(s: Symbol, c: int)
    requires SymbolOk(s)
    ensures Accepts(AtomOf(s), c) <==> Takes(s, c)
  {
    hide InRuns, ClassOk;
    if s.Bracketed? && InRuns(s.cls.runs, c) {
      RunsAreChars(s.cls, c);
    }
  }

  lemma TakesAllIsRun(s: Symbol, text: seq<int>, i: nat, j: nat)
    requires SymbolOk(s)
    ensures RunOf(AtomOf(s), text, i, j) <==> TakesAll(s, text, i, j)
  {
    hide Accepts, Takes, SymbolOk;
    forall c ensures Accepts(AtomOf(s), c) <==> Takes(s, c) {
      TakesIsAccepts(s, c);
    }
  }

  /** A way through the elements shows where the first piece ends. */
  lemma WayOfPiece(piece: Piece, rest: seq<Element>, text: seq<int>, i: nat, way: seq<nat>, j: nat)
    returns (k: nat, way': seq<nat>)
    requires PieceOk(piece) && Matches(PieceElements(piece) + rest, text, i, way, j)
    ensures PieceMatches(piece, text, i, k) && Matches(rest, text, k, way', j)
  {
    hide AtomOf, Takes, SymbolOk;
    var es, s := PieceElements(piece) + rest, piece.symbol;
    assert forall k: nat :: RunOf(AtomOf(s), text, i, k) <==> TakesAll(s, text, i, k) by {
      forall k: nat ensures RunOf(AtomOf(s), text, i, k) <==> TakesAll(s, text, i, k) { TakesAllIsRun(s, text, i, k); }
    }
    if piece.marks == [] {
      assert es[1..] == rest;
      k, way' := i + 1, way;
      assert RunOf(AtomOf(s), text, i, k);
    } else if piece.marks[0] == '+' as int {
      assert es[1..] == [Star(AtomOf(s))] + rest && es[1..][1..] == rest;
      k, way' := way[0], way[1..];
      assert RunOf(AtomOf(s), text, i, k);
    } else {
      assert es[1..] == rest;
      k, way' := way[0], way[1..];
    }
  }

  lemma PieceHasWay(piece: Piece, rest: seq<Element>, text: seq<int>, i: nat, k: nat, way: seq<nat>, j: nat)
    returns (way': seq<nat>)
    requires PieceOk(piece) && PieceMatches(piece, text, i, k) && Matches(rest, text, k, way, j)
    ensures Matches(PieceElements(piece) + rest, text, i, way', j)
  {
    hide AtomOf, Takes, SymbolOk;
    var es, s := PieceElements(piece) + rest, piece.symbol;
    TakesAllIsRun(s, text, i, k);
    if piece.marks == [] {
      assert es[1..] == rest;
      way' := way;
    } else {
      way' := [k] + way;
      assert way'[1..] == way;
      if piece.marks[0] == '+' as int {
        assert es[1..] == [Star(AtomOf(s))] + rest && es[1..][1..] == rest;
        assert Matches(es[1..], text, i + 1, way', j);
      } else {
        assert es[1..] == rest;
      }
    }
  }

  lemma {:induction false} WayOfPieces(pieces: seq<Piece>, end: bool, text: seq<int>, i: nat, way: seq<nat>, j: nat)
    requires PiecesOk(pieces) && Matches(ElementsFrom(pieces, end), text, i, way, j)
    ensures PiecesMatch(pieces, text, i, j) && (end ==> j == |text|)
    decreases |pieces|
  {
    hide PieceElements, PieceMatches, Matches, PieceOk;
    if pieces == [] {
      EndMatches(end, text, i, way, j);
    } else {
      assert PieceOk(pieces[0]) && forall k :: 0 <= k < |pieces[1..]| ==> pieces[1..][k] == pieces[k + 1];
      var k, way' := WayOfPiece(pieces[0], ElementsFrom(pieces[1..], end), text, i, way, j);
      WayOfPieces(pieces[1..], end, text, k, way', j);
    }
  }

  lemma {:induction false} PiecesHaveWay(pieces: seq<Piece>, end: bool, text: seq<int>, i: nat, j: nat)
    returns (way: seq<nat>)
    requires PiecesOk(pieces) && PiecesMatch(pieces, text, i, j) && (end ==> j == |text|)
    ensures Matches(ElementsFrom(pieces, end), text, i, way, j)
    decreases |pieces|
  {
    hide PieceElements, PieceMatches, Matches, PieceOk;
    if pieces == [] {
      way := [];
      EndMatches(end, text, i, way, j);
    } else {
      assert PieceOk(pieces[0]) && forall k :: 0 <= k < |pieces[1..]| ==> pieces[1..][k] == pieces[k + 1];
      var k: nat :| PieceMatches(pieces[0], text, i, k) && PiecesMatch(pieces[1..], text, k, j);
      way := PiecesHaveWay(pieces[1..], end, text, k, j);
      way := PieceHasWay(pieces[0], ElementsFrom(pieces[1..], end), text, i, k, way, j);
    }
  }

  lemma EndMatches(end: bool, text: seq<int>, i: nat, way: seq<nat>, j: nat)
    ensures Matches(ElementsFrom([], end), text, i, way, j) <==> i == j && way == [] && (end ==> j == |text|)
  {
    if end {
      assert [LineEnd][1..] == [];
    }
  }

  /** A pattern as written is compiled, and its elements match exactly the stretches that it matches. */
  lemma PatternMeans(r: Pattern, text: seq<int>, i: nat, j: nat)
    requires PatternIsOk(r)
    ensures Parse(TextOf(r), 0, [], {}) == Good(ElementsOf(r), {})
    ensures (exists way :: Matches(ElementsOf(r), text, i, way, j)) <==> PatternMatches(r, text, i, j)
  {
    hide Matches, ElementsFrom, PiecesMatch, PiecesOk, Parse, TextOf;
    PatternReads(r);
    if way :| Matches(ElementsOf(r), text, i, way, j) {
      StartMatches(r, text, i, way, j);
      WayOfPieces(r.pieces, r.end, text, i, way, j);
    }
    if PatternMatches(r, text, i, j) {
      var way := PiecesHaveWay(r.pieces, r.end, text, i, j);
      StartMatches(r, text, i, way, j);
    }
  }

  lemma StartMatches(r: Pattern, text: seq<int>, i: nat, way: seq<nat>, j: nat)
    ensures Matches(ElementsOf(r), text, i, way, j) <==>
      (r.start ==> i == 0) && Matches(ElementsFrom(r.pieces, r.end), text, i, way, j)
  {
    hide ElementsFrom;
    var rest := ElementsFrom(r.pieces, r.end);
    assert ([LineStart] + rest)[1..] == rest && [] + rest == rest;
  }

  // ---------- Every pattern that compiles is written so ----------

  /** The rest of a class, from behind a character on. */
  lemma {:induction false} RestIsWritten(pat: seq<int>, p: nat, members: set<int>)
    returns (more: seq<int>, runs: seq<Run>, dash: bool)
    requires PatternOk(pat) && 0 < p && ClassFrom(pat, p, members).1 < |pat|
    ensures RestOk(more, runs) && Here(pat, p, RestText(more, runs, dash))
    ensures p + |RestText(more, runs, dash)| == ClassFrom(pat, p, members).1 + 1
    ensures p < |pat| && pat[p] != '-' as int ==> more == []
    ensures p < |pat| && pat[p] != '-' as int && pat[p] != ']' as int ==> runs != [] && runs[0].first == pat[p]
    decreases |pat| - p
  {
    hide Range, RestText, Here, RestOk;
    if pat[p] == ']' as int {
      more, runs, dash := [], [], false;
      ClosingIsWritten(pat, p, dash);
    } else if pat[p] == '-' as int && At(pat, p + 1) != 0 && At(pat, p + 1) != ']' as int {
      more, runs, dash := RestIsWritten(pat, p + 2, members + Range(pat[p - 1] + 1, pat[p + 1]));
      MoreIsWritten(pat, p, more, runs, dash);
      more := [pat[p + 1]] + more;
    } else {
      more, runs, dash := RestIsWritten(pat, p + 1, members + {pat[p]});
      if pat[p] == '-' as int {
        LastDash(pat, p, members);
        more, runs, dash := [], [], true;
        ClosingIsWritten(pat, p, dash);
      } else {
        RunIsWritten(pat, p, more, runs, dash);
        more, runs := [], [Run(pat[p], more)] + runs;
      }
    }
  }

  lemma ClosingIsWritten(pat: seq<int>, p: nat, dash: bool)
    requires p < |pat| && pat[p] == if dash then '-' as int else ']' as int
    requires dash ==> p + 1 < |pat| && pat[p + 1] == ']' as int
    ensures RestOk([], []) && Here(pat, p, RestText([], [], dash)) && |RestText([], [], dash)| == if dash then 2 else 1
  {
    assert RestText([], [], dash) == Closing(dash);
  }

  lemma LastDash(pat: seq<int>, p: nat, members: set<int>)
    requires PatternOk(pat) && 0 < p < |pat| && pat[p] == '-' as int && ClassFrom(pat, p, members).1 < |pat|
    requires At(pat, p + 1) == 0 || At(pat, p + 1) == ']' as int
    ensures p + 1 < |pat| && pat[p + 1] == ']' as int && ClassFrom(pat, p, members).1 == p + 1
  {
    if p + 1 < |pat| {
      assert IsChar(pat[p + 1]);
    }
  }

  lemma MoreIsWritten(pat: seq<int>, p: nat, more: seq<int>, runs: seq<Run>, dash: bool)
    requires PatternOk(pat) && p + 1 < |pat| && pat[p] == '-' as int && pat[p + 1] != ']' as int
    requires RestOk(more, runs) && Here(pat, p + 2, RestText(more, runs, dash))
    ensures RestOk([pat[p + 1]] + more, runs) && Here(pat, p, RestText([pat[p + 1]] + more, runs, dash))
    ensures |RestText([pat[p + 1]] + more, runs, dash)| == 2 + |RestText(more, runs, dash)|
  {
    hide RestText;
    var t, more' := ['-' as int, pat[p + 1]], [pat[p + 1]] + more;
    assert more'[1..] == more;
    MoreRest(more', runs, dash);
    assert Here(pat, p, t);
    HereSplit(pat, p, t, RestText(more, runs, dash));
  }

  lemma RunIsWritten(pat: seq<int>, p: nat, more: seq<int>, runs: seq<Run>, dash: bool)
    requires PatternOk(pat) && p < |pat| && pat[p] != '-' as int && pat[p] != ']' as int
    requires RestOk(more, runs) && Here(pat, p + 1, RestText(more, runs, dash))
    ensures var runs' := [Run(pat[p], more)] + runs;
      && RestOk([], runs') && Here(pat, p, RestText([], runs', dash))
      && |RestText([], runs', dash)| == 1 + |RestText(more, runs, dash)|
  {
    hide RestText, RunsText, Here, Closing;
    var run := Run(pat[p], more);
    FirstIsWritten(pat, p, run, runs, dash);
    RestOfNothing([run] + runs, dash);
    assert RestOk([], [run] + runs) by { RunInFront(run, more, runs); }
  }

  lemma RunInFront(run: Run, more: seq<int>, runs: seq<Run>)
    requires RestOk(more, runs) && run.more == more && IsChar(run.first)
    requires run.first != '-' as int && run.first != ']' as int
    ensures RestOk([], [run] + runs)
  {
  }

  /** A class that is closed. */
  lemma ClassIsWritten(pat: seq<int>, p: nat) returns (cls: Class)
    requires PatternOk(pat) && At(pat, p) == '[' as int
    requires var negated := At(pat, p + 1) == '^' as int;
      ClassAfterDash(pat, if negated then p + 2 else p + 1, {}).1 < |pat|
    ensures ClassOk(cls) && Here(pat, p, ClassText(cls))
  {
    hide ClassFrom, RestText, Here, RestOk, ClassOk, ClassText;
    var negated := At(pat, p + 1) == '^' as int;
    var s := if negated then p + 2 else p + 1;
    var d := if At(pat, s) == '-' as int then s + 1 else s;
    var m: set<int> := if At(pat, s) == '-' as int then {} + {'-' as int} else {};
    var e := if At(pat, d) == ']' as int then d + 1 else d;
    var more, runs, dash := RestIsWritten(pat, e, if e > d then m + {']' as int} else m);
    var rs := if e > d && d > s then [Run('-' as int, []), Run(']' as int, more)] + runs
              else if e > s then [Run(pat[s], more)] + runs
              else runs;
    cls := Class(negated, rs, dash);
    HeadIsWritten(pat, s, d, e, more, runs, dash, rs);
    RunsAreOk(pat, s, d, e, more, runs, dash, rs, negated);
    ClassIsHere(pat, p, cls);
  }

  lemma HeadIsWritten(pat: seq<int>, s: nat, d: nat, e: nat, more: seq<int>, runs: seq<Run>, dash: bool, rs: seq<Run>)
    requires Here(pat, e, RestText(more, runs, dash)) && s <= d <= e <= |pat|
    requires d == if At(pat, s) == '-' as int then s + 1 else s
    requires e == if At(pat, d) == ']' as int then d + 1 else d
    requires e == s ==> more == []
    requires rs == (if e > d && d > s then [Run('-' as int, []), Run(']' as int, more)] + runs
                    else if e > s then [Run(pat[s], more)] + runs else runs)
    ensures Here(pat, s, RunsText(rs) + Closing(dash))
  {
    hide Closing, RestText, RunsText, Here;
    var rest := RestText(more, runs, dash);
    if e > d && d > s {
      var tail := [Run(']' as int, more)] + runs;
      assert rs == [Run('-' as int, [])] + tail;
      FirstIsWritten(pat, d, Run(']' as int, more), runs, dash);
      RestOfNothing(tail, dash);
      FirstIsWritten(pat, s, Run('-' as int, []), tail, dash);
    } else if e > s {
      FirstIsWritten(pat, s, Run(pat[s], more), runs, dash);
    } else {
      RestOfNothing(runs, dash);
    }
  }

  lemma FirstIsWritten(pat: seq<int>, p: nat, run: Run, runs: seq<Run>, dash: bool)
    requires p < |pat| && pat[p] == run.first && Here(pat, p + 1, RestText(run.more, runs, dash))
    ensures Here(pat, p, RunsText([run] + runs) + Closing(dash))
    ensures |RunsText([run] + runs) + Closing(dash)| == 1 + |RestText(run.more, runs, dash)|
  {
    hide Closing, RestText, RunsText;
    assert ([run] + runs)[1..] == runs;
    RunsRest([run] + runs, dash);
    RestOfNothing([run] + runs, dash);
    assert Here(pat, p, [run.first]);
    HereSplit(pat, p, [run.first], RestText(run.more, runs, dash));
  }

  lemma RunsAreOk(pat: seq<int>, s: nat, d: nat, e: nat, more: seq<int>, runs: seq<Run>, dash: bool, rs: seq<Run>,
                  negated: bool)
    requires PatternOk(pat) && Here(pat, e, RestText(more, runs, dash)) && 0 < s <= d <= e <= |pat|
    requires RestOk(more, runs)
    requires d == if At(pat, s) == '-' as int then s + 1 else s
    requires e == if At(pat, d) == ']' as int then d + 1 else d
    requires e == s ==> e < |pat| && more == [] && runs != [] && runs[0].first == pat[e]
    requires rs == (if e > d && d > s then [Run('-' as int, []), Run(']' as int, more)] + runs
                    else if e > s then [Run(pat[s], more)] + runs else runs)
    requires !negated ==> At(pat, s) != '^' as int
    ensures ClassOk(Class(negated, rs, dash))
  {
    hide RestText, Here;
    if rs == [Run('-' as int, [])] && !dash {
      assert rs[0].first == '-' as int && rs[0].more == [] && |rs| == 1;
      assert runs == [] && more == [];
      AtClosing(pat, e, dash);
      assert false;
    }
  }

  lemma ClassIsHere(pat: seq<int>, p: nat, cls: Class)
    requires At(pat, p) == '[' as int && (cls.negated <==> At(pat, p + 1) == '^' as int)
    requires Here(pat, if cls.negated then p + 2 else p + 1, RunsText(cls.runs) + Closing(cls.dash))
    ensures Here(pat, p, ClassText(cls))
  {
    hide RunsText, Closing;
    var head := if cls.negated then ['[' as int, '^' as int] else ['[' as int];
    assert Here(pat, p, head);
    HereSplit(pat, p, head, RunsText(cls.runs) + Closing(cls.dash));
  }

  /** A place where a symbol stands: no anchor, and no mark. */
  predicate AtSymbol(pat: seq<int>, p: nat) {
    && p < |pat| && !Repeats(pat[p]) && (pat[p] == '^' as int ==> p > 0) && (pat[p] == '$' as int ==> p + 1 < |pat|)
  }

  lemma SymbolIsWritten(pat: seq<int>, p: nat, done: seq<Element>) returns (s: Symbol)
    requires PatternOk(pat) && AtSymbol(pat, p) && (p > 0 ==> done != []) && Parse(pat, p, done, {}).Good?
    ensures SymbolOk(s) && Here(pat, p, SymbolText(s)) && CanStand(pat, p, s)
  {
    hide ClassAfterDash, ClassOk, ClassText;
    assert IsChar(pat[p]);
    if pat[p] == '.' as int {
      s := Dot;
    } else if pat[p] == '[' as int {
      var cls := ClassIsWritten(pat, p);
      s := Bracketed(cls);
    } else if pat[p] == '\\' as int {
      assert p + 1 < |pat| && IsChar(pat[p + 1]);
      s := Escaped(pat[p + 1]);
    } else {
      s := Plain(pat[p]);
    }
  }

  /** All the closure marks from p on. */
  lemma {:induction false} MarksAt(pat: seq<int>, p: nat) returns (marks: seq<int>)
    requires p <= |pat|
    ensures (forall k :: 0 <= k < |marks| ==> Repeats(marks[k])) && Here(pat, p, marks)
    ensures p + |marks| < |pat| ==> !Repeats(pat[p + |marks|])
    decreases |pat| - p
  {
    marks := [];
    if p < |pat| && Repeats(pat[p]) {
      var rest := MarksAt(pat, p + 1);
      marks := [pat[p]] + rest;
      HereSplit(pat, p, [pat[p]], rest);
    }
  }

  lemma {:induction false} PiecesAreWritten(pat: seq<int>, p: nat, done: seq<Element>)
    returns (pieces: seq<Piece>, end: bool)
    requires PatternOk(pat) && p <= |pat| && (p > 0 ==> done != []) && Parse(pat, p, done, {}).Good?
    requires p < |pat| ==> !Repeats(pat[p]) && (pat[p] == '^' as int ==> p > 0)
    ensures PiecesOk(pieces) && Here(pat, p, PiecesText(pieces) + Ending(end))
    ensures p + |PiecesText(pieces) + Ending(end)| == |pat|
    ensures pieces != [] && p == 0 ==> pieces[0].symbol != Plain('^' as int)
    ensures pieces != [] && !end ==> pieces[|pieces| - 1] != Piece(Plain('$' as int), [])
    decreases |pat| - p
  {
    hide Parse, Here, SymbolText, SymbolOk, PiecesText, Ending, AtomOf, Repeated, PiecesOk;
    if p == |pat| || (pat[p] == '$' as int && p + 1 == |pat|) {
      pieces, end := [], p < |pat|;
      EndIsWritten(pat, p, end);
    } else {
      var s := SymbolIsWritten(pat, p, done);
      var n := |SymbolText(s)|;
      SymbolReads(pat, p, done, s);
      HereFits(pat, p, SymbolText(s));
      var marks := MarksAt(pat, p + n);
      var m := |marks|;
      HereFits(pat, p + n, marks);
      MarksRead(pat, p + n, done, AtomOf(s), marks);
      RepeatedNotEmpty(AtomOf(s), marks);
      var rest;
      rest, end := PiecesAreWritten(pat, p + n + m, done + Repeated(AtomOf(s), marks));
      pieces := [Piece(s, marks)] + rest;
      PieceIsWritten(pat, p, s, marks, rest, end);
    }
  }

  lemma HereFits(pat: seq<int>, p: nat, t: seq<int>)
    requires Here(pat, p, t)
    ensures p + |t| <= |pat|
  {
  }

  lemma EndIsWritten(pat: seq<int>, p: nat, end: bool)
    requires if end then p + 1 == |pat| && pat[p] == '$' as int else p == |pat|
    ensures PiecesOk([]) && Here(pat, p, PiecesText([]) + Ending(end)) && p + |PiecesText([]) + Ending(end)| == |pat|
  {
    assert PiecesText([]) + Ending(end) == Ending(end);
  }

  lemma PieceIsWritten(pat: seq<int>, p: nat, s: Symbol, marks: seq<int>, rest: seq<Piece>, end: bool)
    requires SymbolOk(s) && (forall k :: 0 <= k < |marks| ==> Repeats(marks[k])) && PiecesOk(rest)
    requires Here(pat, p, SymbolText(s)) && Here(pat, p + |SymbolText(s)|, marks) && CanStand(pat, p, s)
    requires Here(pat, p + |SymbolText(s)| + |marks|, PiecesText(rest) + Ending(end))
    requires p + |SymbolText(s)| + |marks| + |PiecesText(rest) + Ending(end)| == |pat|
    ensures var pieces := [Piece(s, marks)] + rest;
      && PiecesOk(pieces) && Here(pat, p, PiecesText(pieces) + Ending(end))
      && p + |PiecesText(pieces) + Ending(end)| == |pat|
      && (rest == [] && !end ==> pieces[|pieces| - 1] != Piece(Plain('$' as int), []))
  {
    hide Here, SymbolText, SymbolOk, Ending, Repeats;
    var pieces, tail := [Piece(s, marks)] + rest, PiecesText(rest) + Ending(end);
    assert PieceOk(Piece(s, marks));
    assert pieces[1..] == rest;
    assert PiecesText(pieces) + Ending(end) == SymbolText(s) + (marks + tail);
    HereSplit(pat, p + |SymbolText(s)|, marks, tail);
    HereSplit(pat, p, SymbolText(s), marks + tail);
    if rest == [] && !end && s == Plain('$' as int) && marks == [] {
      PlainIsShort('$' as int);
      NothingBehind();
      assert false;
    }
  }

  lemma NothingBehind()
    ensures |PiecesText([]) + Ending(false)| == 0
  {
  }

  /** Every pattern that compiles is the text of one. */
  lemma PatternIsWritten(pat: seq<int>) returns (r: Pattern)
    requires PatternOk(pat) && Parse(pat, 0, [], {}).Good?
    ensures PatternIsOk(r) && TextOf(r) == pat
  {
    hide PiecesText, PiecesOk;
    var start := pat != [] && pat[0] == '^' as int;
    if start {
      StartIsWritten(pat);
    }
    var p := if start then 1 else 0;
    var pieces, end := PiecesAreWritten(pat, p, if start then [LineStart] else []);
    r := Pattern(start, pieces, end);
    WholeIsWritten(pat, start, PiecesText(pieces) + Ending(end));
  }

  lemma WholeIsWritten(pat: seq<int>, start: bool, t: seq<int>)
    requires Here(pat, if start then 1 else 0, t) && |pat| == |t| + (if start then 1 else 0)
    requires start ==> pat[0] == '^' as int
    ensures (if start then ['^' as int] else []) + t == pat
  {
  }

  lemma StartIsWritten(pat: seq<int>)
    requires pat != [] && pat[0] == '^' as int && Parse(pat, 0, [], {}).Good?
    ensures Parse(pat, 1, [LineStart], {}).Good? && (|pat| > 1 ==> !Repeats(pat[1]))
  {
    StartReads(pat);
  }

  // ---------- The language of a pattern ----------

  ghost predicate IsWritten(pat: seq<int>, r: Pattern) {
    PatternIsOk(r) && TextOf(r) == pat
  }

  /** What compiles, of the patterns that are modelled, are the texts of patterns. */
  lemma CompilesIfWritten(pat: seq<int>)
    requires PatternOk(pat)
    ensures Parse(pat, 0, [], {}).Good? <==> exists r :: IsWritten(pat, r)
  {
    hide Parse, PatternIsOk, TextOf, ElementsOf;
    if Parse(pat, 0, [], {}).Good? {
      var r := PatternIsWritten(pat);
      assert IsWritten(pat, r);
    }
    if r :| IsWritten(pat, r) {
      PatternReads(r);
    }
  }

  /** Compiled elements match exactly what the pattern matches, and start at the start of a line
      exactly when it does. */
  lemma WrittenMeans(pat: seq<int>, r: Pattern, elements: seq<Element>, text: seq<int>, i: nat, j: nat)
    requires IsWritten(pat, r) && Parse(pat, 0, [], {}) == Good(elements, {})
    ensures (exists way :: Matches(elements, text, i, way, j)) <==> PatternMatches(r, text, i, j)
    ensures elements != [] && elements[0] == LineStart <==> r.start
  {
    hide Parse, Matches, PatternMatches, PatternIsOk, TextOf;
    PatternMeans(r, text, i, j);
    if !r.start && r.pieces != [] {
      RepeatedNotEmpty(AtomOf(r.pieces[0].symbol), r.pieces[0].marks);
    }
  }
}
