/** The generated parser of byacc/skeleton.c without its error recovery: yyparse as a stack
    machine over the packed tables, and what an accepting run proves about its input. */
module Driver {
  import opened Grammars
  import opened Automata
  import opened Gotos
  import opened Relations
  import opened Actions
  import opened Conflicts
  import opened Vectors
  import opened Packing
  import opened MakeParser
  import opened Output
  import opened Decisions
  import opened Stacks
  import opened Prefixes

  /** Everything the tables were generated from. */
  datatype Setup = Setup(g: Grammar, a: Automaton, m: GotoTable, pr: Precedences, values: seq<int>,
                         raw: seq<seq<Action>>, p: Parser, t: Tables)

  ghost predicate Generated(s: Setup) {
    Emitted(s.g, s.a, s.m, s.pr, s.values, s.raw, s.p, s.t)
  }

  // ---------- The tables never mislead the driver ----------

  /** Rule r may be reduced in state q, before some token. */
  ghost predicate HasReduction(s: Setup, q: nat, r: nat) {
    Valid(s.g) && exists t :: MayReduce(s.g, s.a, s.m, q, r, t)
  }

  /** The same for the rule of this number in the tables. */
  ghost predicate Reducible(s: Setup, q: nat, rule: nat) {
    Valid(s.g) && IsRule(s.g, rule + 2) && rule + 2 > FIRST_RULE && HasReduction(s, q, rule + 2)
  }

  lemma HasTables(s: Setup, q: nat)
    requires Generated(s) && q < |s.a.states|
    ensures HasState(s.t, q)
  {
    hide Valid, IsAutomaton, IsGotoTable, ValuesOk, IsParser, IsTables;
    EmittedState(s.g, s.a, s.m, s.pr, s.values, s.raw, s.p, s.t, q);
  }

  /** A reduction of a row is by a rule that may be reduced there. */
  lemma RowReduces(s: Setup, q: nat, k: nat)
    requires Generated(s) && q < |s.a.states| == |s.p.rows| && k < |s.p.rows[q]| && Reduces(s.p.rows[q], k)
    ensures s.p.rows[q][k].number >= 2 && Reducible(s, q, s.p.rows[q][k].number - 2)
  {
    hide Valid, IsAutomaton, IsGotoTable, ValuesOk, IsParser, IsTables, FateOf, StateTables, Sorted, Complete, Edge;
    EmittedState(s.g, s.a, s.m, s.pr, s.values, s.raw, s.p, s.t, q);
    LiveAction(s.g, s.a, s.m, s.pr, s.raw[q], s.p.rows[q], q, s.p.finalState, k);
    CompleteRule(s.g, s.a, q, s.p.rows[q][k].number);
  }

  /** A default reduction is by a complete rule. */
  lemma DefaultSound(s: Setup, q: nat)
    requires Generated(s) && q < |s.a.states| && HasState(s.t, q) && s.t.yydefred[q] != 0
    ensures Reducible(s, q, s.t.yydefred[q])
  {
    hide Valid, IsAutomaton, IsGotoTable, ValuesOk, IsParser, IsTables, RowMade, Reducible;
    EmittedState(s.g, s.a, s.m, s.pr, s.values, s.raw, s.p, s.t, q);
    var row, defred := s.p.rows[q], s.p.defred[q];
    assert IsSole(row, defred);
    var k :| 0 <= k < |row| && Reduces(row, k) && row[k].symbol != 1;
    RowReduces(s, q, k);
  }

  /** A shift found in the tables is a transition on a token of the value looked up. */
  lemma ShiftSound(s: Setup, q: nat, yychar: int) returns (x: nat)
    requires Generated(s) && q < |s.a.states| && HasState(s.t, q) && yychar >= 0
    requires Probe(s.t.yytable, s.t.yycheck, s.t.yytablesize, s.t.yysindex[q], yychar)
    ensures 0 < x < s.g.ntokens < |s.values| && s.values[x] == yychar
    ensures Edge(s.a, q, x, s.t.yytable[s.t.yysindex[q] + yychar])
  {
    hide Valid, IsAutomaton, IsGotoTable, ValuesOk, IsParser, IsTables, FateOf, Sorted, Complete, Edge, RowReady;
    EmittedState(s.g, s.a, s.m, s.pr, s.values, s.raw, s.p, s.t, q);
    var row := s.p.rows[q];
    ProbeFinds(s.t, s.t.yysindex[q], yychar);
    var k :| 0 <= k < |row| && Shifts(row, k) && row[k].symbol < |s.values| && s.values[row[k].symbol] == yychar
      && row[k].number == s.t.yytable[s.t.yysindex[q] + yychar];
    LiveAction(s.g, s.a, s.m, s.pr, s.raw[q], row, q, s.p.finalState, k);
    x := row[k].symbol;
    EdgeGivesKernel(s.g, s.a, q, x, row[k].number);
    TokenValues(s.g, s.values);
  }

  lemma ReduceSound(s: Setup, q: nat, yychar: int)
    requires Generated(s) && q < |s.a.states| && HasState(s.t, q) && yychar >= 0
    requires Probe(s.t.yytable, s.t.yycheck, s.t.yytablesize, s.t.yyrindex[q], yychar)
    ensures Reducible(s, q, s.t.yytable[s.t.yyrindex[q] + yychar])
  {
    hide Valid, IsAutomaton, IsGotoTable, ValuesOk, IsParser, IsTables, RowMade, RowReady, Reducible;
    EmittedState(s.g, s.a, s.m, s.pr, s.values, s.raw, s.p, s.t, q);
    var row := s.p.rows[q];
    ProbeFinds(s.t, s.t.yyrindex[q], yychar);
    var k :| 0 <= k < |row| && Reduces(row, k) && row[k].number == s.t.yytable[s.t.yyrindex[q] + yychar] + 2;
    RowReduces(s, q, k);
  }

  /** yylen and yylhs describe the rule reduced, and the goto on its left-hand side is exact. */
  lemma RuleSound(s: Setup, rule: nat)
    requires Generated(s) && IsRule(s.g, rule + 2) && rule + 2 > FIRST_RULE
    ensures rule < |s.t.yylen| == |s.t.yylhs| && s.t.yylen[rule] == |Rhs(s.g, rule + 2)|
    ensures s.g.ntokens < s.g.rlhs[rule + 2] < s.g.nsyms == |s.values|
    ensures s.t.yylhs[rule] == s.values[s.g.rlhs[rule + 2]] == s.g.rlhs[rule + 2] - s.g.ntokens - 1
    ensures s.t.yyfinal == s.p.finalState
  {
    hide Valid, IsAutomaton, IsGotoTable, IsParser, ShiftsFound, ReductionsFound, GotosFound;
    assert RuleEntryOk(s.g, s.values, s.t.yylhs, s.t.yylen, rule + 2);
    LhsAboveStart(s.g, rule + 2);
    VarValue(s.g, s.values, s.g.rlhs[rule + 2]);
  }

  lemma LhsAboveStart(g: Grammar, r: nat)
    requires Valid(g) && IsRule(g, r) && r > FIRST_RULE
    ensures g.ntokens < g.rlhs[r] < g.nsyms
  {
    assert ValidRule(g, r);
  }

  // ---------- Input ----------

  /** What the i-th call of yylex amounts to: end of input is 0, as is any negative value. */
  function InputAt(input: seq<int>, i: nat): (v: int)
    ensures v >= 0
  {
    if i < |input| && input[i] >= 0 then input[i] else 0
  }

  /** The token values in w are the input from its start. */
  ghost predicate Spells(s: Setup, input: seq<int>, w: seq<int>) {
    && (forall i :: 0 <= i < |w| ==> 0 < w[i] < s.g.ntokens && w[i] < |s.values| && s.values[w[i]] == InputAt(input, i))
  }

  /** w is the input up to its end, token by token. */
  ghost predicate IsInput(s: Setup, input: seq<int>, w: seq<int>) {
    Spells(s, input, w) && InputAt(input, |w|) == 0
  }

  /** The input up to its end is a sentence of the grammar. */
  ghost predicate IsSentence(s: Setup, input: seq<int>, w: seq<int>) {
    Valid(s.g) && IsInput(s, input, w) && Derives(s.g, [Goal(s.g)], w)
  }

  // ---------- yyparse ----------

  datatype Outcome = Running | Accepted | SyntaxError | StackOverflow

  /** The state stack, the lookahead (-1 when there is none) and the position of the lexer. */
  datatype Config = Config(stack: seq<nat>, yychar: int, next: nat)

  ghost predicate Consistent(s: Setup, input: seq<int>, c: Config, consumed: seq<int>) {
    && Valid(s.g) && IsStack(s.a, c.stack)
    && Derives(s.g, Symbols(s.a, c.stack), consumed) && Spells(s, input, consumed)
    && (c.yychar < 0 ==> c.yychar == -1 && c.next == |consumed|)
    && (c.yychar >= 0 ==> c.next == |consumed| + 1 && c.yychar == InputAt(input, |consumed|))
  }

  /** The configuration once the lookahead has been read. */
  function WithLookahead(input: seq<int>, c: Config): Config {
    if c.yychar >= 0 then c else c.(yychar := InputAt(input, c.next), next := c.next + 1)
  }

  function Top(c: Config): nat
    requires c.stack != []
  {
    c.stack[|c.stack| - 1]
  }

  /** A default reduction is decided without looking at the input. */
  function Prepared(t: Tables, input: seq<int>, c: Config): Config
    requires c.stack != [] && HasState(t, Top(c))
  {
    if t.yydefred[Top(c)] != 0 then c else WithLookahead(input, c)
  }

  /** One round of yyloop does what the tables decide. */
  ghost predicate Follows(s: Setup, input: seq<int>, size: nat, c: Config, c': Config, outcome: Outcome) {
    && c.stack != [] && HasState(s.t, Top(c))
    && var d := Prepared(s.t, input, c);
    match Decide(s.t, Top(c), d.yychar)
    case ToError => outcome == SyntaxError
    case ToShift(p) =>
      if |c.stack| >= size then outcome == StackOverflow
      else outcome == Running && c' == Config(c.stack + [p], -1, d.next)
    case ToReduce(rule) =>
      && rule < |s.t.yylen| == |s.t.yylhs| && s.t.yylen[rule] < |c.stack|
      && ReduceFollows(s, input, size, d, c.stack[..|c.stack| - s.t.yylen[rule]], s.t.yylhs[rule], c', outcome)
  }

  ghost predicate ReduceFollows(s: Setup, input: seq<int>, size: nat, d: Config, rest: seq<nat>, yym: int, c': Config,
                                outcome: Outcome) {
    && rest != []
    && var q := rest[|rest| - 1];
    if q == 0 && yym == 0 then
      && c' == WithLookahead(input, d.(stack := rest + [s.t.yyfinal]))
      && outcome == (if c'.yychar == 0 then Accepted else Running)
    else
      && 0 <= yym < |s.t.yygindex| == |s.t.yydgoto|
      && if |rest| >= size then outcome == StackOverflow
         else outcome == Running && c' == d.(stack := rest + [GotoOf(s.t, q, yym)])
  }

  // ---------- Whole runs ----------

  /** A run of at most `budget` rounds: each configuration follows from the one before, and the
      last one gives the outcome, unless the rounds run out. */
  ghost predicate IsRun(s: Setup, input: seq<int>, size: nat, trace: seq<Config>, outcome: Outcome, budget: nat) {
    && |trace| > 0 && Chained(s, input, size, trace)
    && if outcome == Running then |trace| == budget + 1
       else |trace| <= budget && Ends(s, input, size, trace[|trace| - 1], outcome)
  }

  ghost predicate Chained(s: Setup, input: seq<int>, size: nat, trace: seq<Config>) {
    forall k :: 0 < k < |trace| ==> Follows(s, input, size, trace[k - 1], trace[k], Running)
  }

  ghost predicate Ends(s: Setup, input: seq<int>, size: nat, c: Config, outcome: Outcome) {
    outcome != Running && exists c' :: Follows(s, input, size, c, c', outcome)
  }

  /** The stack is a path of the automaton that derives what has been consumed, and that begins a
      sentential form. */
  ghost predicate IsViable(s: Setup, input: seq<int>, c: Config) {
    exists w :: Consistent(s, input, c, w) && Begins(s.g, w)
  }

  lemma ChainedNext(s: Setup, input: seq<int>, size: nat, trace: seq<Config>, c: Config)
    requires |trace| > 0 && Chained(s, input, size, trace) && Follows(s, input, size, trace[|trace| - 1], c, Running)
    ensures Chained(s, input, size, trace + [c])
  {
    hide Follows;
  }

  lemma ChainedAt(s: Setup, input: seq<int>, size: nat, trace: seq<Config>, n: nat)
    requires Chained(s, input, size, trace) && n > 0
    ensures n < |trace| ==> Follows(s, input, size, trace[n - 1], trace[n], Running)
  {
    hide Follows;
  }

  lemma OneOutcome(s: Setup, input: seq<int>, size: nat, c: Config, c1: Config, o1: Outcome, c2: Config, o2: Outcome)
    requires Follows(s, input, size, c, c1, o1) && Follows(s, input, size, c, c2, o2)
    ensures o1 == o2 && (o1 == Running ==> c1 == c2)
  {
    hide Decide, GotoOf;
  }

  lemma EndIsOnly(s: Setup, input: seq<int>, size: nat, c: Config, o: Outcome)
    requires Ends(s, input, size, c, o)
    ensures forall d :: !Follows(s, input, size, c, d, Running)
    ensures forall p :: Ends(s, input, size, c, p) ==> p == o
  {
    hide Follows;
    var e :| Follows(s, input, size, c, e, o);
    forall d | Follows(s, input, size, c, d, Running) ensures false {
      OneOutcome(s, input, size, c, e, o, d, Running);
    }
    forall p | Ends(s, input, size, c, p) ensures p == o {
      var d :| Follows(s, input, size, c, d, p);
      OneOutcome(s, input, size, c, e, o, d, p);
    }
  }

  /** The run from a configuration is determined: a larger budget only continues it. */
  lemma RunIsUnique(s: Setup, input: seq<int>, size: nat, short: seq<Config>, o1: Outcome, b1: nat,
                    long: seq<Config>, o2: Outcome, b2: nat)
    requires IsRun(s, input, size, short, o1, b1) && IsRun(s, input, size, long, o2, b2) && short[0] == long[0]
    requires b1 <= b2
    ensures short <= long && (o1 != Running ==> short == long && o1 == o2)
  {
    hide Follows, Ends;
    var n := 1;
    while n < |short|
      invariant 1 <= n <= |short| && n <= |long| && forall k :: 0 <= k < n ==> short[k] == long[k]
    {
      assert Follows(s, input, size, short[n - 1], short[n], Running);
      if o2 != Running {
        EndIsOnly(s, input, size, long[|long| - 1], o2);
      }
      assert n < |long|;
      OneOutcome(s, input, size, short[n - 1], short[n], Running, long[n], Running);
      n := n + 1;
    }
    assert short <= long;
    if o1 != Running {
      EndIsOnly(s, input, size, short[|short| - 1], o1);
      ChainedAt(s, input, size, long, |short|);
    }
  }

  function FoundEntry(t: Tables, base: int, s: int): nat
    requires Probe(t.yytable, t.yycheck, t.yytablesize, base, s)
  {
    t.yytable[base + s]
  }

  class YyParser {
    const t: Tables
    const input: seq<int>
    var yyss: array<nat>
    var yyssp: nat
    var yystate: nat
    var yychar: int
    var next: nat
    ghost var consumed: seq<int>

    ghost predicate Shape()
      reads this, yyss
    {
      yyssp < yyss.Length && yyss.Length >= 2 && yystate == yyss[yyssp]
    }

    ghost function Current(): Config
      requires Shape()
      reads this, yyss
    {
      Config(yyss[..yyssp + 1], yychar, next)
    }

    ghost predicate Valid(s: Setup)
      reads this, yyss
    {
      Shape() && Generated(s) && s.t == t && Consistent(s, input, Current(), consumed)
    }

    constructor (ghost s: Setup, t: Tables, input: seq<int>, yystacksize: nat)
      requires Generated(s) && s.t == t && yystacksize >= 2
      ensures Valid(s) && fresh(yyss) && yyss.Length == yystacksize
      ensures this.t == t && this.input == input && Current() == Config([0], -1, 0)
    {
      hide Generated, Consistent;
      this.t, this.input := t, input;
      yychar := -1;
      yyss := new nat[yystacksize](_ => 0);
      yyssp, yystate, next := 0, 0, 0;
      consumed := [];
      new;
      assert yyss[..1] == [0];
      EmptyStack(s, input);
    }

    method ReadToken()
      requires Shape() && yychar < 0
      modifies this`yychar, this`next
      ensures Shape() && Current() == WithLookahead(input, old(Current()))
    {
      yychar := if next < |input| then input[next] else 0;
      next := next + 1;
      if yychar < 0 {
        yychar := 0;
      }
    }

    method Push(state: nat)
      requires Shape() && yyssp + 1 < yyss.Length
      modifies this`yyssp, this`yystate, yyss
      ensures Shape() && Current() == old(Current()).(stack := old(Current()).stack + [state])
    {
      ghost var before := yyss[..yyssp + 1];
      yyssp, yystate := yyssp + 1, state;
      yyss[yyssp] := state;
      assert yyss[..yyssp] == before;
      assert yyss[..yyssp + 1] == before + [state];
    }

    /** The tests from yyloop on: which action the tables give, reading the next token first
        unless the state has a default reduction. x is the token of a shift. */
    method Choose(ghost s: Setup) returns (d: Decision, ghost x: nat)
      requires Valid(s)
      modifies this`yychar, this`next
      ensures Valid(s) && HasState(t, Top(old(Current())))
      ensures Current() == Prepared(t, input, old(Current())) && d == Decide(t, yystate, yychar)
      ensures d.ToReduce? ==> Reducible(s, yystate, d.rule)
      ensures d.ToShift? ==>
        yychar >= 0 && 0 < x < s.g.ntokens < |s.values| && s.values[x] == yychar && Edge(s.a, yystate, x, d.state)
    {
      hide Generated, Consistent, Probe, Reducible, Edge;
      ghost var c := Current();
      x := 0;
      TopHasTables(s, input, c, consumed);
      if t.yydefred[yystate] != 0 {
        DefaultSound(s, yystate);
        return ToReduce(t.yydefred[yystate]), 0;
      }
      if yychar < 0 {
        LookaheadConsistent(s, input, c, consumed);
        ReadToken();
      }
      CharRead(s, input, Current(), consumed);
      if Probe(t.yytable, t.yycheck, t.yytablesize, t.yysindex[yystate], yychar) {
        x := ShiftSound(s, yystate, yychar);
        d := ToShift(FoundEntry(t, t.yysindex[yystate], yychar));
      } else if Probe(t.yytable, t.yycheck, t.yytablesize, t.yyrindex[yystate], yychar) {
        ReduceSound(s, yystate, yychar);
        d := ToReduce(FoundEntry(t, t.yyrindex[yystate], yychar));
      } else {
        d := ToError;
      }
    }

    /** One round: from yyloop to the next goto yyloop, or to the end. */
    method Step(ghost s: Setup) returns (outcome: Outcome)
      requires Valid(s)
      modifies this, yyss
      ensures yyss == old(yyss) && Shape()
      ensures Follows(s, input, yyss.Length, old(Current()), Current(), outcome)
      ensures outcome == Running || outcome == Accepted ==> Valid(s)
      ensures outcome == Accepted ==> IsSentence(s, input, consumed)
    {
      hide Generated, Consistent, Decide, IsSentence, Reducible, Edge;
      var d;
      ghost var x;
      d, x := Choose(s);
      match d {
        case ToError =>
          outcome := SyntaxError;
        case ToShift(state) =>
          if yyssp >= yyss.Length - 1 {
            return StackOverflow;
          }
          ShiftConsistent(s, input, Current(), consumed, x, state);
          Push(state);
          yychar := -1;
          consumed := consumed + [x];
          outcome := Running;
        case ToReduce(yyn) =>
          outcome := Reduce(s, yyn);
      }
    }

    /** yyparse, for at most `budget` rounds: the run that the tables determine. Acceptance proves
        that the input is a sentence. */
    method Parse(ghost s: Setup, budget: nat) returns (outcome: Outcome, ghost trace: seq<Config>)
      requires Valid(s)
      modifies this, yyss
      ensures yyss == old(yyss) && IsRun(s, input, yyss.Length, trace, outcome, budget) && trace[0] == old(Current())
      ensures forall c :: c in trace ==> IsViable(s, input, c)
      ensures outcome == Running ==> Valid(s)
      ensures outcome == Accepted ==> IsSentence(s, input, consumed)
    {
      hide Generated, Consistent, IsSentence, Follows, IsViable;
      outcome := Running;
      var rounds := 0;
      ConsumedBegins(s, input, Current(), consumed);
      trace := [Current()];
      while rounds < budget && outcome == Running
        invariant yyss == old(yyss) && rounds <= budget
        invariant |trace| > 0 && trace[0] == old(Current()) && Chained(s, input, yyss.Length, trace)
        invariant forall c :: c in trace ==> IsViable(s, input, c)
        invariant outcome == Running ==> Valid(s) && trace[|trace| - 1] == Current() && |trace| == rounds + 1
        invariant outcome != Running ==> |trace| == rounds && Ends(s, input, yyss.Length, trace[|trace| - 1], outcome)
        invariant outcome == Accepted ==> IsSentence(s, input, consumed)
      {
        ghost var c := Current();
        outcome := Step(s);
        rounds := rounds + 1;
        if outcome == Running {
          ChainedNext(s, input, yyss.Length, trace, Current());
          ConsumedBegins(s, input, Current(), consumed);
          trace := trace + [Current()];
        } else {
          assert Follows(s, input, yyss.Length, c, Current(), outcome);
        }
      }
    }

    /** From yyreduce on. */
    method Reduce(ghost s: Setup, yyn: nat) returns (outcome: Outcome)
      requires Valid(s) && Reducible(s, yystate, yyn)
      modifies this, yyss
      ensures yyss == old(yyss) && consumed == old(consumed)
      ensures yyn < |t.yylen| == |t.yylhs| && t.yylen[yyn] < |old(Current()).stack|
      ensures var d := old(Current());
        Shape() && ReduceFollows(s, input, yyss.Length, d, d.stack[..|d.stack| - t.yylen[yyn]], t.yylhs[yyn], Current(), outcome)
      ensures outcome == Running || outcome == Accepted ==> Valid(s)
      ensures outcome == Accepted ==> IsSentence(s, input, consumed)
    {
      hide Generated, Consistent, Probe, Spells, IsSentence, Reducible, IsStack, GotoOf;
      ghost var d := Current();
      ReduceConsistent(s, input, d, consumed, yyn);
      var yym: int := t.yylen[yyn];
      yyssp := yyssp - yym;
      yystate := yyss[yyssp];
      ghost var rest := d.stack[..|d.stack| - yym];
      assert yyss[..yyssp + 1] == rest;
      yym := t.yylhs[yyn];
      if yystate == 0 && yym == 0 {
        Push(t.yyfinal);
        if yychar < 0 {
          LookaheadConsistent(s, input, Current(), consumed);
          ReadToken();
        }
        if yychar == 0 {
          GoalIsSentence(s, input, Current(), consumed);
          return Accepted;
        }
        return Running;
      }
      var state := GotoOf(t, yystate, yym);
      if yyssp >= yyss.Length - 1 {
        return StackOverflow;
      }
      Push(state);
      return Running;
    }
  }

  /** What has been consumed begins a sentential form: no token is shifted that cannot come next. */
  lemma ConsumedBegins(s: Setup, input: seq<int>, c: Config, consumed: seq<int>)
    requires Generated(s) && Consistent(s, input, c, consumed)
    ensures Begins(s.g, consumed) && IsViable(s, input, c)
  {
    hide Begins, IsStack, Derives, Spells, IsAutomaton, Symbols;
    SetupAutomaton(s);
    StackBegins(s.g, s.a, c.stack);
    DerivedBegins(s.g, Symbols(s.a, c.stack), consumed);
  }

  lemma SetupAutomaton(s: Setup)
    requires Generated(s)
    ensures Valid(s.g) && IsAutomaton(s.g, s.a)
  {
  }

  /** An error is reported only where conflict removal kept no action for the input. */
  lemma ErrorIsGenuine(s: Setup, q: nat, yychar: int, x: Action)
    requires Generated(s) && q < |s.a.states| == |s.raw| && HasState(s.t, q) && Decide(s.t, q, yychar) == ToError
    requires x in s.raw[q] && x.symbol < |s.values| && s.values[x.symbol] == yychar
    ensures FateOf(s.raw[q], x, q == s.p.finalState) != Kept
  {
    hide Valid, IsAutomaton, IsGotoTable, ValuesOk, IsTables, FateOf, Edge, Complete;
    if FateOf(s.raw[q], x, q == s.p.finalState) == Kept {
      KeptIsTaken(s.g, s.a, s.m, s.pr, s.values, s.raw, s.p, s.t, q, x);
      KeptHasMeaning(s, q, x);
    }
  }

  /** So a run that ends in an error got to a state where no action was kept for the input ahead,
      and all that it consumed begins a sentential form. */
  lemma RunErrorIsGenuine(s: Setup, input: seq<int>, size: nat, trace: seq<Config>, budget: nat, w: seq<int>, x: Action)
    requires Generated(s) && IsRun(s, input, size, trace, SyntaxError, budget)
    requires Consistent(s, input, trace[|trace| - 1], w)
    ensures Begins(s.g, w)
    ensures Top(trace[|trace| - 1]) < |s.raw| == |s.a.states|
    ensures var q := Top(trace[|trace| - 1]);
      (x in s.raw[q] && x.symbol < |s.values| && s.values[x.symbol] == InputAt(input, |w|)) ==>
        FateOf(s.raw[q], x, q == s.p.finalState) != Kept
  {
    hide Decide, Probe, FateOf, Begins;
    var c := trace[|trace| - 1];
    ConsumedBegins(s, input, c, w);
    TopHasTables(s, input, c, w);
    var c' :| Follows(s, input, size, c, c', SyntaxError);
    assert Decide(s.t, Top(c), Prepared(s.t, input, c).yychar) == ToError;
    assert |s.raw| == |s.a.states| by { RawLength(s); }
    assert Prepared(s.t, input, c).yychar == InputAt(input, |w|) by { DefaultIsNoError(s.t, Top(c), c.yychar); }
    if x in s.raw[Top(c)] && x.symbol < |s.values| && s.values[x.symbol] == InputAt(input, |w|) {
      ErrorIsGenuine(s, Top(c), InputAt(input, |w|), x);
    }
  }

  lemma RawLength(s: Setup)
    requires Generated(s)
    ensures |s.raw| == |s.a.states|
  {
  }

  lemma DefaultIsNoError(t: Tables, q: nat, yychar: int)
    requires HasState(t, q)
    ensures t.yydefred[q] != 0 ==> Decide(t, q, yychar) != ToError
  {
  }

  lemma KeptHasMeaning(s: Setup, q: nat, x: Action)
    requires Generated(s) && q < |s.a.states| == |s.raw| && x in s.raw[q]
    ensures Meaning(x) != ToError
  {
    hide IsAutomaton, IsGotoTable, ValuesOk, IsTables, FateOf, Edge, IsLookahead;
    EmittedState(s.g, s.a, s.m, s.pr, s.values, s.raw, s.p, s.t, q);
  }

  lemma TopHasTables(s: Setup, input: seq<int>, c: Config, consumed: seq<int>)
    requires Generated(s) && Consistent(s, input, c, consumed)
    ensures c.stack != [] && Top(c) < |s.a.states| && HasState(s.t, Top(c))
  {
    hide Valid, IsAutomaton, IsGotoTable, ValuesOk, IsParser, IsTables, Derives;
    HasTables(s, Top(c));
  }

  lemma LookaheadConsistent(s: Setup, input: seq<int>, c: Config, consumed: seq<int>)
    requires Generated(s) && Consistent(s, input, c, consumed)
    ensures Consistent(s, input, WithLookahead(input, c), consumed)
  {
    hide Valid, IsAutomaton, IsGotoTable, ValuesOk, IsParser, IsTables, Derives, Spells;
  }

  lemma CharRead(s: Setup, input: seq<int>, c: Config, consumed: seq<int>)
    requires Generated(s) && Consistent(s, input, c, consumed)
    ensures c.yychar >= 0 || c.yychar == -1
  {
  }

  /** Shifting the lookahead. */
  lemma ShiftConsistent(s: Setup, input: seq<int>, c: Config, consumed: seq<int>, x: nat, p: nat)
    requires Generated(s) && Consistent(s, input, c, consumed) && c.yychar >= 0
    requires 0 < x < s.g.ntokens < |s.values| && s.values[x] == c.yychar && c.stack != [] && Edge(s.a, Top(c), x, p)
    ensures Consistent(s, input, Config(c.stack + [p], -1, c.next), consumed + [x])
  {
    hide Valid, IsAutomaton, IsGotoTable, ValuesOk, IsParser, IsTables, Derives, IsStack, Edge;
    ShiftDerives(s.g, s.a, c.stack, consumed, x, p);
  }

  /** Reducing by a complete rule never empties the stack, and the goto from the tables is that
      of the automaton. */
  lemma ReduceConsistent(s: Setup, input: seq<int>, c: Config, consumed: seq<int>, rule: nat)
    requires Generated(s) && Consistent(s, input, c, consumed) && c.stack != [] && Reducible(s, Top(c), rule)
    ensures rule < |s.t.yylen| == |s.t.yylhs| && s.t.yylen[rule] < |c.stack|
    ensures var rest, yym := c.stack[..|c.stack| - s.t.yylen[rule]], s.t.yylhs[rule];
      var q := rest[|rest| - 1];
      if q == 0 && yym == 0 then
        |rest| == 1 && Consistent(s, input, c.(stack := rest + [s.t.yyfinal]), consumed) &&
          Edge(s.a, q, s.g.rlhs[rule + 2], s.t.yyfinal)
      else
        && 0 <= yym < |s.t.yygindex| == |s.t.yydgoto|
        && Consistent(s, input, c.(stack := rest + [GotoOf(s.t, q, yym)]), consumed)
        && Edge(s.a, q, s.g.rlhs[rule + 2], GotoOf(s.t, q, yym))
  {
    hide Valid, IsAutomaton, IsGotoTable, ValuesOk, IsParser, IsTables, Derives, Edge, Complete, GotoOf, Spells;
    var g, r := s.g, rule + 2;
    RuleSound(s, rule);
    var p := ReduceDerives(g, s.a, c.stack, consumed, r);
    var rest := c.stack[..|c.stack| - |Rhs(g, r)|];
    var q := rest[|rest| - 1];
    if q == 0 && s.t.yylhs[rule] == 0 {
      ParserFinal(s);
      EdgeUnique(g, s.a, 0, Goal(g), p, s.t.yyfinal);
      ZeroIsBottom(g, s.a, c.stack, |rest| - 1);
    } else {
      GotoExact(g, s.a, s.m, s.pr, s.values, s.raw, s.p, s.t, q, g.rlhs[r], p);
    }
  }

  lemma ParserFinal(s: Setup)
    requires Generated(s)
    ensures Edge(s.a, 0, Goal(s.g), s.p.finalState)
  {
  }

  lemma ZeroIsBottom(g: Grammar, a: Automaton, stack: seq<nat>, i: nat)
    requires Valid(g) && IsAutomaton(g, a) && IsStack(a, stack) && i < |stack| && stack[i] == 0
    ensures i == 0
  {
    hide Valid, IsAutomaton, Edge;
    if i > 0 {
      assert Edge(a, stack[i - 1], a.states[stack[i]].symbol, stack[i]);
      EdgeGivesKernel(g, a, stack[i - 1], a.states[stack[i]].symbol, stack[i]);
    }
  }

  /** With the goal alone on the stack and the end of the input ahead, the input is a sentence. */
  lemma GoalIsSentence(s: Setup, input: seq<int>, c: Config, consumed: seq<int>)
    requires Generated(s) && Consistent(s, input, c, consumed) && c.stack == [0, s.t.yyfinal] && c.yychar == 0
    ensures IsSentence(s, input, consumed)
  {
    hide IsAutomaton, IsGotoTable, ValuesOk, IsParser, Derives;
    ParserFinal(s);
    FinalIsOutput(s);
    assert Symbols(s.a, c.stack) == [Goal(s.g)];
  }

  lemma FinalIsOutput(s: Setup)
    requires Generated(s)
    ensures s.t.yyfinal == s.p.finalState
  {
  }

  lemma EmptyStack(s: Setup, input: seq<int>)
    requires Generated(s)
    ensures Consistent(s, input, Config([0], -1, 0), [])
  {
    assert |s.a.states| > 0;
    assert Symbols(s.a, [0]) == [];
    DerivesRefl(s.g, []);
  }
}
