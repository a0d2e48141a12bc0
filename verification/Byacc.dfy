/** The whole of byacc: from a packed grammar to the tables of its parser, and a run of that
    parser. */
module Byacc {
  import opened Bits
  import opened Grammars
  import opened Derives
  import opened Nullable
  import opened Automata
  import opened Lr0
  import opened Gotos
  import opened Lookaheads
  import opened Lalr
  import opened Actions
  import opened Conflicts
  import opened Vectors
  import opened MakeParser
  import opened Output
  import opened Driver
  import opened Acceptance
  import opened Termination
  import opened StackBound
  import opened Reader
  import opened Languages

  /** lr0, lalr, make_parser and output in a row. There are no tables if the maximum size would be
      exceeded. */
  method Generate(g: Grammar, pr: Precedences, values: seq<int>)
    returns (ok: bool, t: Tables, SRtotal: nat, RRtotal: nat, ghost s: Setup)
    requires Valid(g) && Covers(g, pr) && ValuesOk(g, values)
    ensures s.t == t && s.g == g && s.values == values && s.pr == pr
    ensures IsAutomaton(g, s.a) && IsGotoTable(g, s.a, s.m) && IsParser(g, s.a, s.m, pr, s.raw, s.p)
    ensures (ok <==> !TooBig(g, s.m, values, s.p)) && (ok ==> Generated(s))
    ensures SRtotal + RRtotal == TotalOnes(s.p.rows)
  {
    hide Valid, IsAutomaton, IsGotoTable, ValuesOk, IsDerives, IsLaTable, LookaheadsOk, IsParser, IsTables, Rows,
      TotalOnes;
    var derives, rules := SetDerives(g);
    var nullable := SetNullable(g);
    var a := GenerateStates(g, derives, rules);
    var m, la, LA := ComputeLalr(g, a, derives, rules, nullable);
    ghost var raw;
    var p;
    p, raw, SRtotal, RRtotal := MakeParser.MakeParser(g, a, m, pr, la, LA);
    ok, t := OutputTables(g, a, m, pr, values, raw, p);
    s := Setup(g, a, m, pr, values, raw, p, t);
  }

  /** What comes of generating a parser and running it. */
  datatype Result = NoTables | Finished(outcome: Outcome)

  /** The parser decides the language: it has no conflicts, every nonterminal derives a string of tokens, and
      there is room and time for this input. */
  ghost predicate MustDecide(s: Setup, input: seq<int>, yystacksize: nat, budget: nat) {
    && NoConflicts(s) && Valid(s.g) && AllProductive(s.g)
    && yystacksize > Depth(s, input) && budget >= Rounds(s.g, input, yystacksize)
  }

  /** From end to end: what the generated parser accepts, the grammar derives. If the grammar has no
      conflicts, an input with a parse tree that stack and budget have room for is accepted, and given
      enough rounds the run ends, with an error only for what is no sentence; if moreover every nonterminal
      derives a string of tokens and the stack is large enough for the input, the parser accepts exactly the
      sentences and reports an error for the rest. There is no parser exactly when its tables would be too big. */
  method GenerateAndParse(g: Grammar, pr: Precedences, values: seq<int>, input: seq<int>, yystacksize: nat, budget: nat)
    returns (r: Result, ghost s: Setup, ghost trace: seq<Config>)
    requires Valid(g) && Covers(g, pr) && ValuesOk(g, values) && yystacksize >= 2
    ensures s.g == g && s.values == values && s.pr == pr
    ensures IsAutomaton(g, s.a) && IsGotoTable(g, s.a, s.m) && IsParser(g, s.a, s.m, pr, s.raw, s.p)
    ensures (r.Finished? <==> !TooBig(g, s.m, values, s.p)) && (r.Finished? ==> Generated(s))
    ensures r.Finished? ==> IsRun(s, input, yystacksize, trace, r.outcome, budget) && trace[0] == Config([0], -1, 0)
    ensures r == Finished(Accepted) ==> exists w :: IsSentence(s, input, w)
    ensures r.Finished? && NoConflicts(s) ==>
      forall n: nat :: n < yystacksize && n <= budget && HasTree(s, input, n) ==> r == Finished(Accepted)
    ensures r.Finished? && NoConflicts(s) && budget >= Rounds(s.g, input, yystacksize) ==>
      r.outcome != Running && (r.outcome == SyntaxError ==> !exists w :: IsSentence(s, input, w))
    ensures r.Finished? && MustDecide(s, input, yystacksize, budget) ==>
      r == Finished(if exists w :: IsSentence(s, input, w) then Accepted else SyntaxError)
  {
    hide Valid, IsAutomaton, IsGotoTable, IsParser, ValuesOk, Generated, IsRun, TooBig, IsSentence, NoConflicts,
      HasTree, Rounds, AllProductive, Depth;
    var ok, t, SRtotal, RRtotal;
    ok, t, SRtotal, RRtotal, s := Generate(g, pr, values);
    if !ok {
      return NoTables, s, [];
    }
    var parser := new YyParser(s, t, input, yystacksize);
    var outcome;
    outcome, trace := parser.Parse(s, budget);
    r := Finished(outcome);
    if outcome == Accepted {
      assert IsSentence(s, input, parser.consumed);
    }
    if NoConflicts(s) {
      forall n: nat | n < yystacksize && n <= budget && HasTree(s, input, n) ensures outcome == Accepted {
        SentenceIsAccepted(s, input, n, yystacksize, trace, outcome, budget);
      }
      if budget >= Rounds(g, input, yystacksize) {
        RunDecides(s, input, yystacksize, trace, outcome, budget);
      }
      if MustDecide(s, input, yystacksize, budget) {
        ParserDecides(s, input, yystacksize, trace, outcome, budget);
      }
    }
  }

  /** The same from the symbols and rules as read, and in terms of them: the grammar is theirs, and its sentences
      are what the rules derive from the goal. */
  method CompileAndParse(buckets: seq<Bucket>, goal: nat, ghost rules: seq<RuleRead>, plhs: seq<nat>, pitem: seq<int>,
                         prec: seq<int>, assoc: seq<int>,
                         input: seq<int>, yystacksize: nat, budget: nat)
    returns (r: Result, ghost index: seq<int>, ghost s: Setup, ghost trace: seq<Config>)
    requires SymbolsRead(buckets, goal) && NumbersFit(buckets) && RulesRead(buckets, rules) && IsItems(rules, pitem)
    requires yystacksize >= 2
    requires |plhs| == |prec| == |assoc| == |rules| + 3
    requires forall k :: 0 <= k < |rules| ==> RuleHeader(rules, plhs, prec, assoc, k)
    ensures Valid(s.g) && Covers(s.g, s.pr) && IsRead(buckets, goal, rules, s.g, s.pr, s.values, index)
    ensures IsAutomaton(s.g, s.a) && IsGotoTable(s.g, s.a, s.m) && IsParser(s.g, s.a, s.m, s.pr, s.raw, s.p)
    ensures (r.Finished? <==> !TooBig(s.g, s.m, s.values, s.p)) && (r.Finished? ==> Generated(s))
    ensures r.Finished? ==> IsRun(s, input, yystacksize, trace, r.outcome, budget) && trace[0] == Config([0], -1, 0)
    ensures r == Finished(Accepted) ==> HasReading(buckets, goal, rules, Taken(s.values, index), input)
    ensures r.Finished? && NoConflicts(s) ==>
      forall n: nat :: n < yystacksize && n <= budget && HasTree(s, input, n) ==> r == Finished(Accepted)
    ensures r.Finished? && NoConflicts(s) && budget >= Rounds(s.g, input, yystacksize) ==>
      r.outcome != Running
    ensures r == Finished(SyntaxError) && NoConflicts(s) && budget >= Rounds(s.g, input, yystacksize) ==>
      !HasReading(buckets, goal, rules, Taken(s.values, index), input)
    ensures r.Finished? && MustDecide(s, input, yystacksize, budget) ==>
      r == Finished(if HasReading(buckets, goal, rules, Taken(s.values, index), input) then Accepted else SyntaxError)
  {
    hide ValuesOk, SymbolsRead, NumbersFit, RulesRead, IsItems, Valid, IsAutomaton, IsGotoTable, IsParser, IsRead,
      Taken, Generated, TooBig, IsRun, IsSentence, NoConflicts, HasTree, Rounds, MustDecide;
    var g, pr, values, numbers := ReadGrammar(buckets, goal, rules, plhs, pitem, prec, assoc);
    index := numbers;
    r, s, trace := GenerateAndParse(g, pr, values, input, yystacksize, budget);
    SentencesAsRead(buckets, goal, rules, s, index, input);
  }
}
