/** The language of the rules as read, over the symbols as declared, and that the packed grammar has the
    same one. */
module Languages {
  import opened Grammars
  import opened Actions
  import opened Reader
  import opened Driver

  /** b is a with the symbol at place p replaced by the right-hand side of rule k. */
  ghost predicate ReadStepAt(rules: seq<RuleRead>, a: seq<nat>, b: seq<nat>, p: nat, k: nat) {
    p < |a| && k < |rules| && a[p] == rules[k].lhs && b == a[..p] + rules[k].rhs + a[p + 1..]
  }

  ghost predicate ReadStep(rules: seq<RuleRead>, a: seq<nat>, b: seq<nat>) {
    exists p, k :: ReadStepAt(rules, a, b, p, k)
  }

  ghost predicate ReadDerivesBy(rules: seq<RuleRead>, d: seq<seq<nat>>, a: seq<nat>, b: seq<nat>) {
    |d| > 0 && d[0] == a && d[|d| - 1] == b && forall i :: 0 <= i < |d| - 1 ==> ReadStep(rules, d[i], d[i + 1])
  }

  /** By the rules as read, a derives b. */
  ghost predicate ReadDerives(rules: seq<RuleRead>, a: seq<nat>, b: seq<nat>) {
    exists d :: ReadDerivesBy(rules, d, a, b)
  }

  /** The tokens w, which have these values, are the input up to its end, and the goal derives them. */
  ghost predicate IsReadSentence(buckets: seq<Bucket>, goal: nat, rules: seq<RuleRead>, value: seq<int>,
                                 input: seq<int>, w: seq<nat>) {
    && AreSymbols(buckets, w) && |value| == |buckets|
    && (forall i :: 0 <= i < |w| ==> buckets[w[i]].term && value[w[i]] == InputAt(input, i))
    && InputAt(input, |w|) == 0
    && ReadDerives(rules, [goal], w)
  }

  /** The input up to its end is a sentence of the rules as read. */
  ghost predicate HasReading(buckets: seq<Bucket>, goal: nat, rules: seq<RuleRead>, value: seq<int>, input: seq<int>) {
    exists w :: IsReadSentence(buckets, goal, rules, value, input, w)
  }

  ghost predicate AreSymbols(buckets: seq<Bucket>, w: seq<nat>) {
    forall i :: 0 <= i < |w| ==> w[i] < |buckets|
  }

  // ---------- Numbers of symbols ----------

  /** Distinct symbols have distinct numbers, and every number but those of $end and of the start symbol belongs
      to a symbol: tokens have those below ntokens. */
  ghost predicate NumbersMatch(buckets: seq<Bucket>, g: Grammar, index: seq<int>) {
    && |index| == |buckets|
    && (forall b, c :: 0 <= b < |index| && 0 <= c < |index| && index[b] == index[c] ==> b == c)
    && (forall b :: 0 <= b < |index| ==> 0 < index[b] < g.nsyms && index[b] != StartSymbol(g))
    && (forall b :: 0 <= b < |index| ==> (buckets[b].term <==> index[b] < g.ntokens))
    && forall x :: 0 < x < g.nsyms && x != StartSymbol(g) ==> x in index
  }

  lemma ReadNumbersMatch(buckets: seq<Bucket>, goal: nat, rules: seq<RuleRead>, g: Grammar, pr: Precedences,
                         values: seq<int>, index: seq<int>)
    requires Valid(g) && SymbolsRead(buckets, goal) && IsRead(buckets, goal, rules, g, pr, values, index)
    ensures NumbersMatch(buckets, g, index)
  {
    hide Valid, IndexOf, NTokens, TokensGiven, Says, PrecSays;
    var s := Symbols(g.ntokens, g.nsyms, index, values, pr.symbolPrec, pr.symbolAssoc);
    forall b | 0 <= b < |buckets| ensures index[b] == IndexOf(buckets, goal, b) {
      assert SymbolPacked(buckets, goal, s, b);
    }
    forall b, c | 0 <= b < |index| && 0 <= c < |index|
      ensures index[b] == index[c] ==> b == c
      ensures 0 < index[b] < g.nsyms && index[b] != StartSymbol(g) && (buckets[b].term <==> index[b] < g.ntokens)
    {
      IndexDistinct(buckets, goal, b, c);
    }
    forall x | 0 < x < g.nsyms && x != StartSymbol(g) ensures x in index {
      var b := IndexIsTaken(buckets, goal, x);
      assert index[b] == x;
    }
  }

  // ---------- Steps ----------

  /** The numbers of the symbols of a. */
  function Named(index: seq<int>, a: seq<nat>): (w: seq<int>)
    ensures |w| == |a|
  {
    seq(|a|, i requires 0 <= i < |a| => if a[i] < |index| then index[a[i]] else 0)
  }

  lemma NamedParts(index: seq<int>, a: seq<nat>, b: seq<nat>, c: seq<nat>)
    ensures Named(index, a + b + c) == Named(index, a) + Named(index, b) + Named(index, c)
  {
  }

  lemma NamedSplit(index: seq<int>, a: seq<nat>, p: nat)
    requires p < |a|
    ensures Named(index, a)[..p] == Named(index, a[..p]) && Named(index, a)[p + 1..] == Named(index, a[p + 1..])
  {
  }

  /** Different symbols have different numbers. */
  lemma NamedOnce(buckets: seq<Bucket>, g: Grammar, index: seq<int>, a: seq<nat>, b: seq<nat>)
    requires NumbersMatch(buckets, g, index) && AreSymbols(buckets, a) && AreSymbols(buckets, b)
    requires Named(index, a) == Named(index, b)
    ensures a == b
  {
    assert |a| == |Named(index, a)| == |b|;
    forall i | 0 <= i < |a| ensures a[i] == b[i] {
      assert Named(index, a)[i] == Named(index, b)[i];
    }
  }

  /** A rule as read is the rule of the grammar three places on. */
  lemma RuleIs(g: Grammar, index: seq<int>, rules: seq<RuleRead>, k: nat)
    requires Valid(g) && k < |rules| && Says(g, index, rules, k)
    ensures IsRule(g, k + 3) && rules[k].lhs < |index| && g.rlhs[k + 3] == index[rules[k].lhs]
    ensures Rhs(g, k + 3) == Named(index, rules[k].rhs)
  {
    hide Valid;
    assert Numbers(index, rules[k].rhs) == Named(index, rules[k].rhs);
  }

  lemma StepIsDone(g: Grammar, index: seq<int>, rules: seq<RuleRead>, a: seq<nat>, b: seq<nat>, p: nat, k: nat)
    requires Valid(g) && ReadStepAt(rules, a, b, p, k) && Says(g, index, rules, k)
    ensures StepAt(g, Named(index, a), Named(index, b), p, k + 3)
  {
    hide Valid, Says;
    RuleIs(g, index, rules, k);
    NamedParts(index, a[..p], rules[k].rhs, a[p + 1..]);
    NamedSplit(index, a, p);
  }

  /** A step of the grammar is one by a rule as read. */
  lemma StepWasRead(buckets: seq<Bucket>, g: Grammar, index: seq<int>, rules: seq<RuleRead>, a: seq<nat>, w: seq<int>,
                    p: nat, r: nat)
    returns (b: seq<nat>)
    requires Valid(g) && NumbersMatch(buckets, g, index) && |g.rlhs| == |rules| + 3 && RulesRead(buckets, rules)
    requires forall k :: 0 <= k < |rules| ==> Says(g, index, rules, k)
    requires AreSymbols(buckets, a) && StepAt(g, Named(index, a), w, p, r)
    ensures AreSymbols(buckets, b) && ReadStep(rules, a, b) && Named(index, b) == w
  {
    hide Says, RulesRead;
    StartIsFirst(g, r);
    var k := r - 3;
    RuleIs(g, index, rules, k);
    RuleSymbols(buckets, rules, k);
    b := a[..p] + rules[k].rhs + a[p + 1..];
    NamedParts(index, a[..p], rules[k].rhs, a[p + 1..]);
    NamedSplit(index, a, p);
    assert ReadStepAt(rules, a, b, p, k);
  }

  lemma StartIsFirst(g: Grammar, r: nat)
    requires Valid(g) && IsRule(g, r)
    ensures r == FIRST_RULE ==> g.rlhs[r] == StartSymbol(g)
  {
  }

  lemma RuleSymbols(buckets: seq<Bucket>, rules: seq<RuleRead>, k: nat)
    requires RulesRead(buckets, rules) && k < |rules|
    ensures AreSymbols(buckets, rules[k].rhs) && rules[k].lhs < |buckets|
  {
    assert RuleOk(buckets, rules[k]);
  }

  // ---------- Derivations ----------

  lemma {:induction false} DerivationIsDone(g: Grammar, index: seq<int>, rules: seq<RuleRead>, d: seq<seq<nat>>,
                                            a: seq<nat>, b: seq<nat>)
    requires Valid(g) && ReadDerivesBy(rules, d, a, b) && forall k :: 0 <= k < |rules| ==> Says(g, index, rules, k)
    ensures Derives(g, Named(index, a), Named(index, b))
    decreases |d|
  {
    hide Valid, Says, Derives, StepAt;
    if |d| == 1 {
      DerivesRefl(g, Named(index, a));
    } else {
      var n := |d| - 2;
      assert ReadStep(rules, d[n], d[n + 1]);
      var p: nat, k: nat :| ReadStepAt(rules, d[n], d[n + 1], p, k);
      DerivationIsDone(g, index, rules, d[..n + 1], a, d[n]);
      StepIsDone(g, index, rules, d[n], b, p, k);
      OneStep(g, Named(index, d[n]), Named(index, b), p, k + 3);
      DerivesTrans(g, Named(index, a), Named(index, d[n]), Named(index, b));
    }
  }

  lemma OneStep(g: Grammar, a: seq<int>, b: seq<int>, p: nat, r: nat)
    requires Valid(g) && StepAt(g, a, b, p, r)
    ensures Derives(g, a, b)
  {
    hide Valid, StepAt;
    assert DerivesBy(g, [a, b], a, b);
  }

  lemma {:induction false} DerivationWasRead(buckets: seq<Bucket>, g: Grammar, index: seq<int>, rules: seq<RuleRead>,
                                             d: seq<seq<int>>, a: seq<nat>)
    returns (b: seq<nat>)
    requires Valid(g) && NumbersMatch(buckets, g, index) && |g.rlhs| == |rules| + 3 && RulesRead(buckets, rules)
    requires forall k :: 0 <= k < |rules| ==> Says(g, index, rules, k)
    requires AreSymbols(buckets, a) && IsDerivation(g, d) && d[0] == Named(index, a)
    ensures AreSymbols(buckets, b) && ReadDerives(rules, a, b) && Named(index, b) == d[|d| - 1]
    decreases |d|
  {
    hide Valid, Says, RulesRead, NumbersMatch, StepAt, ReadStep, Named;
    if |d| == 1 {
      b := a;
      assert ReadDerivesBy(rules, [a], a, a);
    } else {
      var n := |d| - 2;
      var c := DerivationWasRead(buckets, g, index, rules, d[..n + 1], a);
      assert Step(g, d[n], d[n + 1]);
      var p: nat, r: nat :| StepAt(g, d[n], d[n + 1], p, r);
      b := StepWasRead(buckets, g, index, rules, c, d[n + 1], p, r);
      var e :| ReadDerivesBy(rules, e, a, c);
      assert ReadDerivesBy(rules, e + [b], a, b);
    }
  }

  // ---------- Languages ----------

  /** Between symbols, the grammar derives what the rules as read derive. */
  lemma DerivesAsRead(buckets: seq<Bucket>, goal: nat, rules: seq<RuleRead>, g: Grammar, pr: Precedences,
                      values: seq<int>, index: seq<int>, a: seq<nat>, b: seq<nat>)
    requires Valid(g) && SymbolsRead(buckets, goal) && RulesRead(buckets, rules)
    requires IsRead(buckets, goal, rules, g, pr, values, index) && AreSymbols(buckets, a) && AreSymbols(buckets, b)
    ensures Derives(g, Named(index, a), Named(index, b)) <==> ReadDerives(rules, a, b)
  {
    hide Valid, Says, SymbolsRead, RulesRead, IsPacked, PrecSays, NumbersMatch, Named, Step, ReadStep;
    ReadNumbersMatch(buckets, goal, rules, g, pr, values, index);
    if Derives(g, Named(index, a), Named(index, b)) {
      var d :| DerivesBy(g, d, Named(index, a), Named(index, b));
      var c := DerivationWasRead(buckets, g, index, rules, d, a);
      NamedOnce(buckets, g, index, b, c);
    }
    if ReadDerives(rules, a, b) {
      var d :| ReadDerivesBy(rules, d, a, b);
      DerivationIsDone(g, index, rules, d, a, b);
    }
  }

  /** Tokens as declared for tokens as numbered. */
  lemma Unnamed(buckets: seq<Bucket>, g: Grammar, index: seq<int>, w: seq<int>) returns (v: seq<nat>)
    requires Valid(g) && NumbersMatch(buckets, g, index) && forall i :: 0 <= i < |w| ==> 0 < w[i] < g.ntokens
    ensures AreSymbols(buckets, v) && Named(index, v) == w
  {
    v := [];
    for n := 0 to |w|
      invariant |v| == n && AreSymbols(buckets, v) && forall i :: 0 <= i < n ==> v[i] < |index| && index[v[i]] == w[i]
    {
      assert w[n] in index;
      var b :| 0 <= b < |index| && index[b] == w[n];
      v := v + [b];
    }
  }

  /** The sentences of the packed grammar are those of the rules as read. */
  lemma SentencesAsRead(buckets: seq<Bucket>, goal: nat, rules: seq<RuleRead>, s: Setup, index: seq<int>,
                        input: seq<int>)
    requires Valid(s.g) && SymbolsRead(buckets, goal) && RulesRead(buckets, rules)
    requires IsRead(buckets, goal, rules, s.g, s.pr, s.values, index)
    ensures (exists w :: IsSentence(s, input, w)) <==>
      HasReading(buckets, goal, rules, Taken(s.values, index), input)
  {
    hide Valid, IsRead, Named, NumbersMatch, Derives, ReadDerives, Taken, SymbolsRead, RulesRead;
    ReadNumbersMatch(buckets, goal, rules, s.g, s.pr, s.values, index);
    GoalNamed(buckets, goal, rules, s, index);
    if w :| IsSentence(s, input, w) {
      var v := Unnamed(buckets, s.g, index, w);
      DerivesAsRead(buckets, goal, rules, s.g, s.pr, s.values, index, [goal], v);
      TokensNamed(buckets, s, index, input, v);
      assert IsReadSentence(buckets, goal, rules, Taken(s.values, index), input, v);
    }
    if v :| IsReadSentence(buckets, goal, rules, Taken(s.values, index), input, v) {
      DerivesAsRead(buckets, goal, rules, s.g, s.pr, s.values, index, [goal], v);
      TokensNamed(buckets, s, index, input, v);
      assert IsSentence(s, input, Named(index, v));
    }
  }

  lemma GoalNamed(buckets: seq<Bucket>, goal: nat, rules: seq<RuleRead>, s: Setup, index: seq<int>)
    requires Valid(s.g) && IsRead(buckets, goal, rules, s.g, s.pr, s.values, index)
    ensures AreSymbols(buckets, [goal]) && Named(index, [goal]) == [Goal(s.g)] && |s.values| == s.g.nsyms
  {
  }

  lemma TokensNamed(buckets: seq<Bucket>, s: Setup, index: seq<int>, input: seq<int>, v: seq<nat>)
    requires NumbersMatch(buckets, s.g, index) && AreSymbols(buckets, v) && |s.values| == s.g.nsyms
    ensures |Taken(s.values, index)| == |buckets| && |Named(index, v)| == |v|
    ensures Spells(s, input, Named(index, v)) <==>
      forall i :: 0 <= i < |v| ==> buckets[v[i]].term && Taken(s.values, index)[v[i]] == InputAt(input, i)
  {
    forall i | 0 <= i < |v|
      ensures Named(index, v)[i] == index[v[i]] && Taken(s.values, index)[v[i]] == s.values[index[v[i]]]
    {
    }
  }
}
