/** LR(0) items, their closure, and GOTO, as a grammar defines them. An item is a
    position in ritem: the symbol there is the one after the dot. */
module Items {
  import opened Grammars
  import opened Graphs

  ghost function NVars(g: Grammar): nat
    requires Valid(g)
  {
    g.nsyms - g.ntokens
  }

  /** Some rule of nonterminal a starts with nonterminal b. */
  ghost predicate LeftEdge(g: Grammar, a: int, b: int)
    requires Valid(g)
  {
    exists r :: IsRule(g, r) && g.rlhs[r] == a && Leftmost(g, r) == b
  }

  ghost predicate LeftNodes(g: Grammar, v: nat, w: nat)
    requires Valid(g)
  {
    LeftEdge(g, g.ntokens + v, g.ntokens + w)
  }

  /** The first item of rule r: a symbol, or the end marker when the rule is empty. */
  function Leftmost(g: Grammar, r: int): int
    requires Valid(g) && IsRule(g, r)
  {
    assert ValidRule(g, r);
    g.ritem[g.rrhs[r]]
  }

  /** The leftmost-nonterminal relation, nonterminals being numbered from zero. */
  ghost function LeftGraph(g: Grammar): (h: Graph)
    requires Valid(g)
    ensures |h| == NVars(g) && Closed(h)
  {
    seq(NVars(g), (v: nat) => set w: nat | w < NVars(g) && LeftNodes(g, v, w))
  }

  /** The rules whose first item enters the closure with an item in front of nonterminal a. */
  ghost function FirstRules(g: Grammar, a: int): set<nat>
    requires Valid(g) && IsVar(g, a) && IsSymbol(g, a)
  {
    set r: nat | r < |g.rlhs| && IsFirstRule(g, a, r)
  }

  ghost predicate IsFirstRule(g: Grammar, a: int, r: nat)
    requires Valid(g) && IsVar(g, a) && IsSymbol(g, a)
  {
    IsRule(g, r) && IsVar(g, g.rlhs[r]) && Reach(LeftGraph(g), a - g.ntokens, g.rlhs[r] - g.ntokens)
  }

  ghost predicate AreItems(g: Grammar, k: set<nat>) {
    forall i :: i in k ==> 1 <= i < |g.ritem|
  }

  /** The dot of item i stands before nonterminal a. */
  predicate Before(g: Grammar, i: nat, a: int) {
    i < |g.ritem| && g.ritem[i] == a && IsVar(g, a) && IsSymbol(g, a)
  }

  /** Rule r is pulled into the closure of k. */
  ghost predicate Pulled(g: Grammar, k: set<nat>, r: nat)
    requires Valid(g)
  {
    exists i, a :: i in k && Before(g, i, a) && IsFirstRule(g, a, r)
  }

  ghost function ClosureSet(g: Grammar, k: set<nat>): set<nat>
    requires Valid(g)
  {
    k + set r: nat | r < |g.rlhs| && Pulled(g, k, r) :: g.rrhs[r]
  }

  /** GOTO: the items of c with x after the dot, moved past x. */
  ghost function GotoSet(g: Grammar, c: set<nat>, x: int): set<nat> {
    set i | i in c && i < |g.ritem| && g.ritem[i] == x :: i + 1
  }

  /** s holds, with each item before a nonterminal, the first items of its rules. */
  ghost predicate ClosedItems(g: Grammar, s: set<nat>)
    requires Valid(g)
  {
    forall i, r :: i in s && i < |g.ritem| && IsRule(g, r) && g.ritem[i] == g.rlhs[r] ==> g.rrhs[r] in s
  }

  lemma LhsIsVar(g: Grammar, r: nat)
    requires Valid(g) && r < |g.rlhs|
    ensures IsRule(g, r) <==> IsVar(g, g.rlhs[r])
    ensures IsRule(g, r) ==> IsSymbol(g, g.rlhs[r])
  {
    if IsRule(g, r) {
      assert ValidRule(g, r);
    }
  }

  lemma SelfIsFirst(g: Grammar, r: nat)
    requires Valid(g) && IsRule(g, r)
    ensures IsVar(g, g.rlhs[r]) && IsSymbol(g, g.rlhs[r]) && IsFirstRule(g, g.rlhs[r], r)
  {
    LhsIsVar(g, r);
    ReachRefl(LeftGraph(g), g.rlhs[r] - g.ntokens);
  }

  /** The closure of k holds k and is closed. */
  lemma ClosureIsClosed(g: Grammar, k: set<nat>)
    requires Valid(g)
    ensures k <= ClosureSet(g, k) && ClosedItems(g, ClosureSet(g, k))
  {
    var c := ClosureSet(g, k);
    forall i, r: nat | i in c && i < |g.ritem| && IsRule(g, r) && g.ritem[i] == g.rlhs[r] ensures g.rrhs[r] in c {
      LhsIsVar(g, r);
      SelfIsFirst(g, r);
      if i in k {
        assert Before(g, i, g.rlhs[r]);
        assert Pulled(g, k, r);
      } else {
        var q: nat :| q < |g.rlhs| && Pulled(g, k, q) && g.rrhs[q] == i;
        PulledStep(g, k, q, r);
      }
    }
  }

  lemma PulledStep(g: Grammar, k: set<nat>, q: nat, r: nat)
    requires Valid(g) && IsRule(g, q) && IsRule(g, r)
    requires Pulled(g, k, q) && Leftmost(g, q) == g.rlhs[r]
    ensures Pulled(g, k, r)
  {
    var i, a :| i in k && Before(g, i, a) && IsFirstRule(g, a, q);
    var h := LeftGraph(g);
    LhsIsVar(g, q);
    LhsIsVar(g, r);
    assert LeftNodes(g, g.rlhs[q] - g.ntokens, g.rlhs[r] - g.ntokens);
    ReachEdge(h, g.rlhs[q] - g.ntokens, g.rlhs[r] - g.ntokens);
    ReachTrans(h, a - g.ntokens, g.rlhs[q] - g.ntokens, g.rlhs[r] - g.ntokens);
  }

  /** The closure of k lies in every closed set that holds k. */
  lemma ClosureIsLeast(g: Grammar, k: set<nat>, s: set<nat>)
    requires Valid(g) && k <= s && ClosedItems(g, s)
    ensures ClosureSet(g, k) <= s
  {
    forall r: nat | r < |g.rlhs| && Pulled(g, k, r) ensures g.rrhs[r] in s {
      var i, a :| i in k && Before(g, i, a) && IsFirstRule(g, a, r);
      var p :| PathFromTo(LeftGraph(g), p, a - g.ntokens, g.rlhs[r] - g.ntokens);
      ChainStays(g, s, p, i, r);
    }
  }

  /** Following the leftmost relation from an item of s never leaves s. */
  lemma {:induction false} ChainStays(g: Grammar, s: set<nat>, p: seq<nat>, i: nat, r: nat)
    requires Valid(g) && ClosedItems(g, s) && i in s && IsRule(g, r)
    requires IsPath(LeftGraph(g), p) && Before(g, i, g.ntokens + p[0])
    requires g.rlhs[r] == g.ntokens + p[|p| - 1]
    ensures g.rrhs[r] in s
    decreases |p|
  {
    var h := LeftGraph(g);
    if |p| > 1 {
      assert p[0 + 1] in h[p[0]];
      assert LeftNodes(g, p[0], p[1]);
      var q :| IsRule(g, q) && g.rlhs[q] == g.ntokens + p[0] && Leftmost(g, q) == g.ntokens + p[1];
      assert g.rrhs[q] in s;
      RuleStarts(g, q);
      SubPath(h, p, 1, |p| - 1);
      assert p[1..|p| - 1 + 1] == p[1..];
      ChainStays(g, s, p[1..], g.rrhs[q], r);
    }
  }

  lemma ItemSymbol(g: Grammar, i: nat)
    requires Valid(g) && 1 <= i < |g.ritem|
    ensures g.ritem[i] < g.nsyms
  {
    var r := RuleOfItem(g, i, |g.rlhs|);
    AtItem(g, r, i);
  }
}
