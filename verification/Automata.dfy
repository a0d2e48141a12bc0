/** The LR(0) automaton that byacc/lr0.c builds, and what makes it the right one. */
module Automata {
  import opened Grammars
  import opened Sequences
  import opened Items

  /** A core: its accessing symbol and its kernel items. Its number is its position. */
  datatype State = State(symbol: nat, items: seq<nat>)

  /** shifts[q] and reductions[q] are what shift_table and reduction_table hold for state q;
      an absent table entry is an empty list. */
  datatype Automaton = Automaton(states: seq<State>, shifts: seq<seq<nat>>, reductions: seq<seq<nat>>)

  const START_STATE := State(0, [1])

  ghost predicate StateOk(g: Grammar, s: State)
    requires Valid(g)
  {
    && |s.items| > 0 && Ascending(s.items)
    && (forall k :: 0 <= k < |s.items| ==> 1 < s.items[k] < |g.ritem| && g.ritem[s.items[k] - 1] == s.symbol)
    && 0 < s.symbol < g.nsyms
  }

  /** All items of a state: the closure of its kernel. */
  ghost function ItemsOf(g: Grammar, s: State): set<nat>
    requires Valid(g)
  {
    ClosureSet(g, SetOf(s.items))
  }

  /** x, other than $end, stands after the dot of some item of c. */
  ghost predicate CanMove(g: Grammar, c: set<nat>, x: int) {
    x > 0 && exists i :: i in c && i < |g.ritem| && g.ritem[i] == x
  }

  /** list is the list of successor states of items c: one for each symbol that can be
      moved over, in ascending order of symbols, each with the kernel that GOTO gives. */
  ghost predicate ShiftsOk(g: Grammar, states: seq<State>, c: set<nat>, list: seq<nat>) {
    && (forall j :: 0 <= j < |list| ==> MoveOk(g, states, c, list[j]))
    && (forall i, j :: 0 <= i < j < |list| ==> states[list[i]].symbol < states[list[j]].symbol)
    && (forall x :: CanMove(g, c, x) ==> MoveListed(states, list, x))
  }

  ghost predicate MoveOk(g: Grammar, states: seq<State>, c: set<nat>, q: nat) {
    && 0 < q < |states|
    && CanMove(g, c, states[q].symbol)
    && SetOf(states[q].items) == GotoSet(g, c, states[q].symbol)
  }

  ghost predicate MoveListed(states: seq<State>, list: seq<nat>, x: int) {
    exists j :: 0 <= j < |list| && list[j] < |states| && states[list[j]].symbol == x
  }

  /** list holds exactly the rules whose last item is in c, in ascending order. */
  ghost predicate ReductionsOk(g: Grammar, c: set<nat>, list: seq<nat>)
    requires Valid(g)
  {
    && Ascending(list)
    && forall r: nat :: r in list <==> Complete(g, c, r)
  }

  /** The whole right-hand side of rule r lies before the dot. */
  ghost predicate Complete(g: Grammar, c: set<nat>, r: nat)
    requires Valid(g)
  {
    IsRule(g, r) && g.rrhs[r + 1] >= 1 && (g.rrhs[r + 1] - 1) in c
  }

  ghost predicate Distinct(states: seq<State>) {
    forall p, q :: 0 <= p < q < |states| ==> SetOf(states[p].items) != SetOf(states[q].items)
  }

  /** The cores found so far. */
  ghost predicate StatesOk(g: Grammar, states: seq<State>)
    requires Valid(g)
  {
    && |states| > 0 && states[0] == START_STATE
    && (forall q :: 0 < q < |states| ==> StateOk(g, states[q]))
    && Distinct(states)
  }

  ghost predicate RowOk(g: Grammar, states: seq<State>, shifts: seq<nat>, reductions: seq<nat>, q: nat)
    requires Valid(g) && q < |states|
  {
    ShiftsOk(g, states, ItemsOf(g, states[q]), shifts) && ReductionsOk(g, ItemsOf(g, states[q]), reductions)
  }

  /** Every state but the first is the successor of an earlier one. */
  ghost predicate Found(states: seq<State>, shifts: seq<seq<nat>>) {
    forall q: nat :: 0 < q < |states| ==> FoundFrom(shifts, q)
  }

  ghost predicate FoundFrom(shifts: seq<seq<nat>>, q: nat) {
    exists p :: 0 <= p < q && p < |shifts| && q in shifts[p]
  }

  ghost predicate IsAutomaton(g: Grammar, a: Automaton)
    requires Valid(g)
  {
    && StatesOk(g, a.states)
    && |a.shifts| == |a.reductions| == |a.states|
    && (forall q :: 0 <= q < |a.states| ==> RowOk(g, a.states, a.shifts[q], a.reductions[q], q))
    && Found(a.states, a.shifts)
  }

  // ---------- Moving along the automaton ----------

  /** State q has a successor p on symbol x. */
  ghost predicate Edge(a: Automaton, q: nat, x: int, p: nat) {
    q < |a.shifts| && p in a.shifts[q] && p < |a.states| && a.states[p].symbol == x
  }

  lemma StateItems(g: Grammar, a: Automaton, q: nat)
    requires Valid(g) && IsAutomaton(g, a) && q < |a.states|
    ensures Ascending(a.states[q].items) && AreItems(g, SetOf(a.states[q].items))
    ensures q > 0 ==> StateOk(g, a.states[q])
  {
  }

  lemma {:induction false} EdgeGivesKernel(g: Grammar, a: Automaton, q: nat, x: int, p: nat)
    requires Valid(g) && IsAutomaton(g, a) && Edge(a, q, x, p)
    ensures q < |a.states| && 0 < p && 0 < x < g.nsyms && CanMove(g, ItemsOf(g, a.states[q]), x)
    ensures SetOf(a.states[p].items) == GotoSet(g, ItemsOf(g, a.states[q]), x)
  {
    assert RowOk(g, a.states, a.shifts[q], a.reductions[q], q);
    var j :| 0 <= j < |a.shifts[q]| && a.shifts[q][j] == p;
    assert MoveOk(g, a.states, ItemsOf(g, a.states[q]), a.shifts[q][j]);
  }

  /** There is at most one successor on each symbol. */
  lemma EdgeUnique(g: Grammar, a: Automaton, q: nat, x: int, p: nat, p': nat)
    requires Valid(g) && IsAutomaton(g, a) && Edge(a, q, x, p) && Edge(a, q, x, p')
    ensures p == p'
  {
    EdgeGivesKernel(g, a, q, x, p);
    assert RowOk(g, a.states, a.shifts[q], a.reductions[q], q);
    var i :| 0 <= i < |a.shifts[q]| && a.shifts[q][i] == p;
    var j :| 0 <= j < |a.shifts[q]| && a.shifts[q][j] == p';
  }

  /** An item with symbol x after the dot gives a successor on x that holds the moved item. */
  lemma EdgeExists(g: Grammar, a: Automaton, q: nat, i: nat) returns (p: nat)
    requires Valid(g) && IsAutomaton(g, a) && q < |a.states|
    requires i in ItemsOf(g, a.states[q]) && i < |g.ritem| && g.ritem[i] > 0
    ensures Edge(a, q, g.ritem[i], p) && i + 1 in ItemsOf(g, a.states[p])
  {
    var x := g.ritem[i];
    var c := ItemsOf(g, a.states[q]);
    assert RowOk(g, a.states, a.shifts[q], a.reductions[q], q);
    assert CanMove(g, c, x);
    assert MoveListed(a.states, a.shifts[q], x);
    var j :| 0 <= j < |a.shifts[q]| && a.shifts[q][j] < |a.states| && a.states[a.shifts[q][j]].symbol == x;
    p := a.shifts[q][j];
    EdgeGivesKernel(g, a, q, x, p);
    assert i + 1 in GotoSet(g, c, x);
    ClosureIsClosed(g, SetOf(a.states[p].items));
  }

  // ---------- The states are the reachable kernels ----------

  /** Kernel l is GOTO of the closure of kernel k on some symbol. */
  ghost predicate KernelStep(g: Grammar, k: set<nat>, l: set<nat>)
    requires Valid(g)
  {
    exists x :: CanMove(g, ClosureSet(g, k), x) && l == GotoSet(g, ClosureSet(g, k), x)
  }

  ghost predicate KernelPath(g: Grammar, path: seq<set<nat>>)
    requires Valid(g)
  {
    |path| > 0 && path[0] == {1} && forall i :: 0 < i < |path| ==> KernelStep(g, path[i - 1], path[i])
  }

  ghost predicate KernelPathTo(g: Grammar, path: seq<set<nat>>, k: set<nat>)
    requires Valid(g)
  {
    KernelPath(g, path) && path[|path| - 1] == k
  }

  /** k can be reached from the start kernel by GOTO. */
  ghost predicate Reachable(g: Grammar, k: set<nat>)
    requires Valid(g)
  {
    exists path :: KernelPathTo(g, path, k)
  }

  lemma KernelPathStep(g: Grammar, k: set<nat>, x: int)
    requires Valid(g) && Reachable(g, k) && CanMove(g, ClosureSet(g, k), x)
    ensures Reachable(g, GotoSet(g, ClosureSet(g, k), x))
  {
    hide Valid, CanMove, ClosureSet;
    var path :| KernelPathTo(g, path, k);
    var l := GotoSet(g, ClosureSet(g, k), x);
    assert KernelStep(g, path[|path| - 1], l);
    assert KernelPathTo(g, path + [l], l);
  }

  lemma FoundBefore(g: Grammar, a: Automaton, q: nat) returns (p: nat)
    requires Valid(g) && IsAutomaton(g, a) && 0 < q < |a.states|
    ensures p < q && Edge(a, p, a.states[q].symbol, q)
  {
    hide Valid, RowOk, StatesOk;
    assert FoundFrom(a.shifts, q);
    p :| 0 <= p < q && p < |a.shifts| && q in a.shifts[p];
  }

  lemma StartKernel(g: Grammar, a: Automaton)
    requires Valid(g) && IsAutomaton(g, a)
    ensures |a.states| > 0 && SetOf(a.states[0].items) == {1}
  {
  }

  ghost predicate IsKernelOf(a: Automaton, q: nat, k: set<nat>) {
    q < |a.states| && SetOf(a.states[q].items) == k
  }

  lemma {:induction false} StateIsReachable(g: Grammar, a: Automaton, q: nat)
    requires Valid(g) && IsAutomaton(g, a) && q < |a.states|
    ensures Reachable(g, SetOf(a.states[q].items))
  {
    hide Valid, CanMove, IsAutomaton;
    if q == 0 {
      StartKernel(g, a);
      assert KernelPathTo(g, [{1}], {1});
    } else {
      var p := FoundBefore(g, a, q);
      StateIsReachable(g, a, p);
      EdgeGivesKernel(g, a, p, a.states[q].symbol, q);
      KernelPathStep(g, SetOf(a.states[p].items), a.states[q].symbol);
    }
  }

  lemma {:induction false} ReachableIsState(g: Grammar, a: Automaton, path: seq<set<nat>>) returns (q: nat)
    requires Valid(g) && IsAutomaton(g, a) && KernelPath(g, path)
    ensures IsKernelOf(a, q, path[|path| - 1])
    decreases |path|
  {
    hide Valid, IsAutomaton;
    var n := |path| - 1;
    if n == 0 {
      StartKernel(g, a);
      q := 0;
    } else {
      var p := ReachableIsState(g, a, path[..n]);
      assert KernelStep(g, path[n - 1], path[n]);
      var x :| CanMove(g, ItemsOf(g, a.states[p]), x) && path[n] == GotoSet(g, ItemsOf(g, a.states[p]), x);
      var i :| i in ItemsOf(g, a.states[p]) && i < |g.ritem| && g.ritem[i] == x;
      q := EdgeExists(g, a, p, i);
      EdgeGivesKernel(g, a, p, x, q);
    }
  }

  /** The states are exactly the kernels that can be reached, each once. */
  lemma StatesAreReachableKernels(g: Grammar, a: Automaton, k: set<nat>)
    requires Valid(g) && IsAutomaton(g, a)
    ensures Reachable(g, k) <==> exists q: nat :: IsKernelOf(a, q, k)
    ensures forall p: nat, q: nat :: IsKernelOf(a, p, k) && IsKernelOf(a, q, k) ==> p == q
  {
    hide Valid, RowOk, StateOk, Found, KernelPath;
    if Reachable(g, k) {
      var path :| KernelPathTo(g, path, k);
      var q := ReachableIsState(g, a, path);
    }
    if q: nat :| IsKernelOf(a, q, k) {
      StateIsReachable(g, a, q);
    }
  }
}
