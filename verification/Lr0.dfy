/** byacc/lr0.c: the states of the LR(0) automaton, generated from a worklist. */
module Lr0 {
  import opened Bits
  import opened Grammars
  import opened Derives
  import opened Sequences
  import opened Items
  import opened Closure
  import opened Kernels
  import opened Automata

  // ---------- save_reductions ----------

  /** The rules whose end marker is among `items`. */
  ghost function Ended(g: Grammar, items: seq<nat>): seq<int> {
    if items == [] then []
    else
      var i := items[|items| - 1];
      var rules := Ended(g, items[..|items| - 1]);
      if i < |g.ritem| && g.ritem[i] < 0 then rules + [-g.ritem[i]] else rules
  }

  lemma {:induction false} EndedRules(g: Grammar, items: seq<nat>, bound: nat)
    requires Valid(g) && AreItems(g, SetOf(items)) && AreBelow(items, bound) && bound <= |g.ritem|
    ensures var rules := Ended(g, items);
      && (forall r :: r in rules <==> IsRule(g, r) && g.rrhs[r + 1] >= 1 && (g.rrhs[r + 1] - 1) in items)
      && (forall j, k :: 0 <= j < k < |rules| ==> rules[j] < rules[k])
  {
    if items != [] {
      var i := items[|items| - 1];
      var front := items[..|items| - 1];
      assert items == front + [i];
      assert i in SetOf(items) && forall x :: x in SetOf(front) ==> x in SetOf(items);
      EndedRules(g, front, i);
      EndedStep(g, front, i);
    }
  }

  lemma EndedStep(g: Grammar, front: seq<nat>, i: nat)
    requires Valid(g) && 1 <= i < |g.ritem| && forall k :: 0 <= k < |front| ==> front[k] < i
    requires var rules := Ended(g, front);
      && (forall r :: r in rules <==> IsRule(g, r) && g.rrhs[r + 1] >= 1 && (g.rrhs[r + 1] - 1) in front)
      && (forall j, k :: 0 <= j < k < |rules| ==> rules[j] < rules[k])
    ensures var rules := Ended(g, front + [i]);
      && (forall r :: r in rules <==> IsRule(g, r) && g.rrhs[r + 1] >= 1 && (g.rrhs[r + 1] - 1) in front + [i])
      && (forall j, k :: 0 <= j < k < |rules| ==> rules[j] < rules[k])
  {
    var rules := Ended(g, front);
    assert (front + [i])[..|front|] == front;
    var q := RuleOfItem(g, i, |g.rlhs|);
    AtItem(g, q, i);
    forall r | IsRule(g, r) ensures g.rrhs[r + 1] == i + 1 <==> g.ritem[i] < 0 && r == q {
      assert ValidRule(g, r);
      if g.rrhs[r + 1] == i + 1 {
        OneRuleOfItem(g, i, r, q);
      }
    }
    forall j | 0 <= j < |rules| && g.ritem[i] < 0 ensures rules[j] < q {
      assert rules[j] in rules;
      assert ValidRule(g, rules[j]);
      if q < rules[j] {
        RulesAscend(g, q, rules[j]);
      }
    }
  }

  method SaveReductions(g: Grammar, itemset: array<nat>, itemsetend: nat) returns (rules: seq<nat>)
    requires Valid(g) && itemsetend <= itemset.Length
    requires AreItems(g, SetOf(itemset[..itemsetend])) && AreBelow(itemset[..itemsetend], |g.ritem|)
    ensures ReductionsOk(g, SetOf(itemset[..itemsetend]), rules)
  {
    rules := [];
    ghost var items := itemset[..itemsetend];
    assert items[..0] == [];
    for isp := 0 to itemsetend
      invariant rules == Ended(g, items[..isp])
    {
      assert items[..isp + 1] == items[..isp] + [itemset[isp]];
      assert (items[..isp] + [itemset[isp]])[..isp] == items[..isp];
      assert items[isp] in SetOf(items);
      var item := g.ritem[itemset[isp]];
      if item < 0 {
        rules := rules + [-item];
      }
    }
    assert items[..itemsetend] == items;
    EndedRules(g, items, |g.ritem|);
    forall r: nat ensures r in rules <==> Complete(g, SetOf(items), r) {
    }
  }

  // ---------- append_states: sorting ----------

  /** Insertion sort of the first n entries, by shifting larger ones up. */
  method SortSymbols(a: array<nat>, n: nat)
    requires n <= a.Length && NoRepeats(a[..n])
    modifies a
    ensures Ascending(a[..n]) && SetOf(a[..n]) == old(SetOf(a[..n]))
  {
    var i := 1;
    while i < n
      invariant 1 <= i && (0 < n ==> i <= n && Ascending(a[..i]))
      invariant SetOf(a[..n]) == old(SetOf(a[..n])) && NoRepeats(a[..n])
    {
      InsertSymbol(a, i, n);
      i := i + 1;
    }
  }

  method InsertSymbol(a: array<nat>, i: nat, ghost n: nat)
    requires 0 < i < n <= a.Length && Ascending(a[..i]) && NoRepeats(a[..n])
    modifies a
    ensures Ascending(a[..i + 1]) && SetOf(a[..n]) == old(SetOf(a[..n])) && NoRepeats(a[..n])
  {
    ghost var before := a[..n];
    var symbol := a[i];
    var j := i;
    while j > 0 && a[j - 1] > symbol
      invariant 0 <= j <= i
      invariant forall k :: 0 <= k < j ==> a[k] == before[k]
      invariant forall k :: j < k <= i ==> a[k] == before[k - 1]
      invariant forall k :: j <= k < i ==> before[k] > symbol
      invariant forall k :: i < k < n ==> a[k] == before[k]
    {
      a[j] := a[j - 1];
      j := j - 1;
    }
    a[j] := symbol;
    MovedDown(before, a[..n], i, j);
    assert before[..i] == old(a[..i]) && a[..n][..i + 1] == a[..i + 1];
    MovedIntoOrder(before, a[..n], i, j);
  }

  /** after is before with entry i taken out and put in again at place j. */
  ghost predicate Moved(before: seq<nat>, after: seq<nat>, i: nat, j: nat) {
    && |before| == |after| && j <= i < |before|
    && (forall k :: 0 <= k < j ==> after[k] == before[k])
    && (forall k :: j < k <= i ==> after[k] == before[k - 1])
    && (forall k :: i < k < |before| ==> after[k] == before[k])
    && after[j] == before[i]
  }

  lemma MovedDown(before: seq<nat>, after: seq<nat>, i: nat, j: nat)
    requires Moved(before, after, i, j) && NoRepeats(before)
    ensures SetOf(after) == SetOf(before) && NoRepeats(after)
  {
    forall x | x in before ensures x in after {
      var k :| 0 <= k < |before| && before[k] == x;
      assert after[if k == i then j else if j <= k < i then k + 1 else k] == x;
    }
  }

  lemma MovedIntoOrder(before: seq<nat>, after: seq<nat>, i: nat, j: nat)
    requires Moved(before, after, i, j) && NoRepeats(before) && Ascending(before[..i])
    requires forall k :: j <= k < i ==> before[k] > before[i]
    requires j > 0 ==> before[j - 1] <= before[i]
    ensures Ascending(after[..i + 1])
  {
    var head := before[..i];
    assert forall k :: 0 <= k < i ==> before[k] == head[k];
    forall k, m | 0 <= k < m <= i ensures after[k] < after[m] {
      if j > 0 && k < j {
        assert head[k] <= head[j - 1];
      }
    }
  }

  // ---------- get_state ----------

  /** state_set: for each first kernel item, the chain of the states that begin with it. */
  ghost predicate ChainsOk(g: Grammar, states: seq<State>, stateSet: seq<seq<nat>>)
    requires Valid(g)
  {
    && |stateSet| == |g.ritem|
    && (forall key, q :: 0 <= key < |stateSet| && q in stateSet[key] ==> 0 < q < |states|)
    && (forall q :: 0 < q < |states| && StateOk(g, states[q]) ==> q in stateSet[states[q].items[0]])
  }

  /** The inner loop of get_state: compares two kernels item by item. */
  method SameItems(a: seq<nat>, b: seq<nat>) returns (same: bool)
    ensures same <==> a == b
  {
    same := false;
    if |a| == |b| {
      same := true;
      var k := 0;
      while same && k < |a|
        invariant 0 <= k <= |a|
        invariant same <==> a[..k] == b[..k]
        decreases |a| - k, same
      {
        if a[k] != b[k] {
          same := false;
        }
        assert a[..k + 1] == a[..k] + [a[k]] && b[..k + 1] == b[..k] + [b[k]];
        k := k + 1;
      }
      if same {
        assert a[..k] == a && b[..k] == b;
      }
    }
  }

  /** Walks a chain for the state with the given kernel. */
  method FindState(states: seq<State>, chain: seq<nat>, kernel: seq<nat>) returns (found: bool, q: nat)
    requires forall k :: 0 <= k < |chain| ==> chain[k] < |states|
    ensures found ==> q in chain && states[q].items == kernel
    ensures !found ==> forall p :: p in chain ==> states[p].items != kernel
  {
    found, q := false, 0;
    var i := 0;
    while !found && i < |chain|
      invariant 0 <= i <= |chain|
      invariant found ==> q in chain && q < |states| && states[q].items == kernel
      invariant !found ==> forall k :: 0 <= k < i ==> states[chain[k]].items != kernel
      decreases |chain| - i, !found
    {
      found := SameItems(states[chain[i]].items, kernel);
      q := chain[i];
      i := i + 1;
    }
  }

  /** The number of the state whose kernel lies in the slot of symbol, made if it is new. */
  method GetState(g: Grammar, states: seq<State>, stateSet: array<seq<nat>>, symbol: nat, kernel: seq<nat>)
    returns (states': seq<State>, q: nat)
    requires Valid(g) && StatesOk(g, states) && ChainsOk(g, states, stateSet[..])
    requires StateOk(g, State(symbol, kernel))
    modifies stateSet
    ensures StatesOk(g, states') && ChainsOk(g, states', stateSet[..])
    ensures 0 < q < |states'| && states'[q] == State(symbol, kernel)
    ensures states' == states || (states' == states + [State(symbol, kernel)] && q == |states|)
  {
    var key := kernel[0];
    assert key < |g.ritem|;
    states' := states;
    var found;
    var chain := stateSet[key];
    assert chain == stateSet[..][key];
    assert forall k :: 0 <= k < |chain| ==> chain[k] in chain;
    found, q := FindState(states, chain, kernel);
    if found {
      SameKernelSameSymbol(g, states[q], symbol);
    } else {
      q := |states|;
      NewKernelIsDistinct(g, states, stateSet[..], symbol, kernel);
      states' := states + [State(symbol, kernel)];
      stateSet[key] := stateSet[key] + [q];
    }
  }

  lemma SameKernelSameSymbol(g: Grammar, s: State, symbol: nat)
    requires Valid(g) && StateOk(g, s) && StateOk(g, State(symbol, s.items))
    ensures s.symbol == symbol
  {
    assert g.ritem[s.items[0] - 1] == s.symbol;
    assert g.ritem[State(symbol, s.items).items[0] - 1] == symbol;
  }

  lemma NewKernelIsDistinct(g: Grammar, states: seq<State>, stateSet: seq<seq<nat>>, symbol: nat, kernel: seq<nat>)
    requires Valid(g) && StatesOk(g, states) && ChainsOk(g, states, stateSet)
    requires StateOk(g, State(symbol, kernel))
    requires forall p :: p in stateSet[kernel[0]] ==> states[p].items != kernel
    ensures StatesOk(g, states + [State(symbol, kernel)])
  {
    forall p | 0 <= p < |states| ensures SetOf(states[p].items) != SetOf(kernel) {
      if SetOf(states[p].items) == SetOf(kernel) {
        AscendingIsItsSet(states[p].items, kernel);
      }
    }
  }

  // ---------- append_states ----------

  /** The successors listed so far, for the symbols taken in order. */
  ghost predicate ListedSoFar(g: Grammar, states: seq<State>, c: set<nat>, symbols: seq<nat>, list: seq<nat>) {
    && |list| <= |symbols|
    && forall j :: 0 <= j < |list| ==> MoveOk(g, states, c, list[j]) && states[list[j]].symbol == symbols[j]
  }

  /** Every state from `first` on is in the list. */
  ghost predicate NewOnesListed(first: nat, states: seq<State>, list: seq<nat>) {
    forall q :: first <= q < |states| ==> q in list
  }

  /** The kernel that new_itemsets leaves for a symbol makes a proper state. */
  lemma KernelMakesState(g: Grammar, items: seq<nat>, x: nat)
    requires Valid(g) && AreBelow(items, |g.ritem|) && AreItems(g, SetOf(items))
    requires 0 < x < g.nsyms && Kernel(g, items, x) != []
    ensures StateOk(g, State(x, Kernel(g, items, x)))
    ensures CanMove(g, SetOf(items), x)
    ensures SetOf(Kernel(g, items, x)) == GotoSet(g, SetOf(items), x)
  {
    var k := Kernel(g, items, x);
    KernelIsGoto(g, items, x);
    KernelAscending(g, items, x, |g.ritem|);
    forall j | 0 <= j < |k| ensures 1 < k[j] < |g.ritem| && g.ritem[k[j] - 1] == x && k[j] - 1 in SetOf(items) {
      assert k[j] in SetOf(k);
      SymbolIsNotLast(g, k[j] - 1);
    }
    assert k[0] - 1 in SetOf(items);
  }

  /** A symbol of a right-hand side is followed by another item. */
  lemma SymbolIsNotLast(g: Grammar, i: nat)
    requires Valid(g) && 1 <= i < |g.ritem| && g.ritem[i] >= 0
    ensures i + 1 < |g.ritem|
  {
    var r := RuleOfItem(g, i, |g.rlhs|);
    AtItem(g, r, i);
    LowestRule(g, r + 1);
  }

  lemma NoKernelNoMove(g: Grammar, items: seq<nat>, x: int)
    requires AreBelow(items, |g.ritem|) && CanMove(g, SetOf(items), x)
    ensures Kernel(g, items, x) != []
  {
    KernelIsGoto(g, items, x);
    var i :| i in SetOf(items) && i < |g.ritem| && g.ritem[i] == x;
    assert i + 1 in GotoSet(g, SetOf(items), x);
  }

  lemma ListedNext(g: Grammar, states: seq<State>, states': seq<State>, c: set<nat>, symbols: seq<nat>, list: seq<nat>,
                   q: nat)
    requires ListedSoFar(g, states, c, symbols, list) && states <= states' && |list| < |symbols|
    requires 0 < q < |states'| && states'[q].symbol == symbols[|list|] && MoveOk(g, states', c, q)
    ensures ListedSoFar(g, states', c, symbols, list + [q])
  {
    forall j | 0 <= j < |list| ensures MoveOk(g, states', c, list[j]) && states'[list[j]].symbol == symbols[j] {
      assert MoveOk(g, states, c, list[j]);
      assert states'[list[j]] == states[list[j]];
    }
  }

  /** When every symbol has been taken, the list is the whole list of successors. */
  lemma AllListed(g: Grammar, states: seq<State>, items: seq<nat>, symbols: seq<nat>, list: seq<nat>)
    requires Valid(g) && AreBelow(items, |g.ritem|) && AreItems(g, SetOf(items))
    requires SymbolsOk(g, symbols, items) || forall x :: x in symbols <==> 0 < x < g.nsyms && Kernel(g, items, x) != []
    requires Ascending(symbols) && |list| == |symbols| && ListedSoFar(g, states, SetOf(items), symbols, list)
    ensures ShiftsOk(g, states, SetOf(items), list)
  {
    forall x | CanMove(g, SetOf(items), x) ensures MoveListed(states, list, x) {
      NoKernelNoMove(g, items, x);
      MoveInRange(g, items, x);
      assert x in symbols;
      var j :| 0 <= j < |symbols| && symbols[j] == x;
      assert states[list[j]].symbol == x;
    }
  }

  method AppendStates(buffers: KernelBuffers, states: seq<State>, stateSet: array<seq<nat>>, ghost items: seq<nat>)
    returns (states': seq<State>, list: seq<nat>)
    requires Valid(buffers.g) && buffers.Valid() && buffers.Holds(items)
    requires AreBelow(items, |buffers.g.ritem|) && AreItems(buffers.g, SetOf(items))
    requires StatesOk(buffers.g, states) && ChainsOk(buffers.g, states, stateSet[..])
    requires buffers.Apart(stateSet)
    modifies buffers.shiftSymbol, stateSet
    ensures buffers.Valid()
    ensures StatesOk(buffers.g, states') && ChainsOk(buffers.g, states', stateSet[..])
    ensures states <= states' && NewOnesListed(|states|, states', list)
    ensures ShiftsOk(buffers.g, states', SetOf(items), list)
  {
    var n := buffers.nshifts;
    ghost var symbols := buffers.shiftSymbol[..n];
    SortSymbols(buffers.shiftSymbol, n);
    ghost var sorted := buffers.shiftSymbol[..n];
    assert forall x :: x in sorted <==> x in SetOf(symbols);
    states', list := AppendSorted(buffers, n, states, stateSet, items);
    AllListed(buffers.g, states', items, sorted, list);
  }

  method AppendSorted(buffers: KernelBuffers, n: nat, states: seq<State>, stateSet: array<seq<nat>>,
                      ghost items: seq<nat>)
    returns (states': seq<State>, list: seq<nat>)
    requires Valid(buffers.g) && buffers.Valid() && n <= buffers.shiftSymbol.Length
    requires SlotsHold(buffers.g, buffers.kernelEnd[..], buffers.kernelItems[..], items)
    requires forall x :: x in buffers.shiftSymbol[..n] ==> 0 < x < buffers.g.nsyms && Kernel(buffers.g, items, x) != []
    requires AreBelow(items, |buffers.g.ritem|) && AreItems(buffers.g, SetOf(items))
    requires StatesOk(buffers.g, states) && ChainsOk(buffers.g, states, stateSet[..])
    requires buffers.Apart(stateSet)
    modifies stateSet
    ensures StatesOk(buffers.g, states') && ChainsOk(buffers.g, states', stateSet[..])
    ensures states <= states' && NewOnesListed(|states|, states', list)
    ensures |list| == n && ListedSoFar(buffers.g, states', SetOf(items), buffers.shiftSymbol[..n], list)
  {
    ghost var sorted := buffers.shiftSymbol[..n];
    states', list := states, [];
    for i := 0 to n
      invariant StatesOk(buffers.g, states') && ChainsOk(buffers.g, states', stateSet[..])
      invariant states <= states' && NewOnesListed(|states|, states', list)
      invariant |list| == i && ListedSoFar(buffers.g, states', SetOf(items), sorted, list)
    {
      var symbol := buffers.shiftSymbol[i];
      assert symbol == sorted[i] && symbol in sorted;
      var kernel := buffers.KernelOf(symbol, items);
      KernelMakesState(buffers.g, items, symbol);
      ghost var before := states';
      var q;
      states', q := GetState(buffers.g, states', stateSet, symbol, kernel);
      ListedNext(buffers.g, before, states', SetOf(items), sorted, list, q);
      list := list + [q];
    }
  }

  lemma MoveInRange(g: Grammar, items: seq<nat>, x: int)
    requires Valid(g) && AreItems(g, SetOf(items)) && CanMove(g, SetOf(items), x)
    ensures 0 < x < g.nsyms
  {
    var i :| i in SetOf(items) && i < |g.ritem| && g.ritem[i] == x;
    ItemSymbol(g, i);
  }

  // ---------- initialize_states ----------

  lemma {:induction false} OneStartRule(g: Grammar, n: nat)
    requires Valid(g) && n <= |g.rlhs|
    ensures RulesOf(g, StartSymbol(g), n) == if n > FIRST_RULE then [FIRST_RULE] else []
  {
    if n > 0 {
      OneStartRule(g, n - 1);
      if n - 1 > FIRST_RULE {
        assert ValidRule(g, n - 1);
      }
    }
  }

  method InitializeStates(g: Grammar, derives: array<nat>, rules: array<int>) returns (state: State)
    requires Valid(g) && IsDerives(g, derives[..], rules[..])
    ensures state == START_STATE
  {
    OneStartRule(g, |g.rlhs|);
    assert ListAt(g, rules[..], derives[..][0], g.ntokens);
    ghost var list := RulesOf(g, StartSymbol(g), |g.rlhs|);
    var startDerives := derives[0];
    ListEntry(g, rules[..], startDerives, g.ntokens, 0);
    ListEntry(g, rules[..], startDerives, g.ntokens, 1);
    var items: seq<nat> := [];
    var i := 0;
    while rules[startDerives + i] >= 0
      invariant 0 <= i <= 1 && i == |items|
      invariant items == if i == 0 then [] else [1]
      decreases 1 - i
    {
      items := items + [g.rrhs[rules[startDerives + i]]];
      i := i + 1;
    }
    state := State(0, items);
  }

  // ---------- generate_states ----------

  /** All sets of numbers below n. */
  ghost function AllSets(n: nat): set<set<nat>> {
    if n == 0 then {{}} else AllSets(n - 1) + WithEach(AllSets(n - 1), n - 1)
  }

  ghost function WithEach(sets: set<set<nat>>, x: nat): set<set<nat>> {
    set s | s in sets :: s + {x}
  }

  lemma {:induction false} InAllSets(s: set<nat>, n: nat)
    requires forall x :: x in s ==> x < n
    ensures s in AllSets(n)
  {
    if n == 0 {
      assert s == {};
    } else if n - 1 in s {
      InAllSets(s - {n - 1}, n - 1);
      assert s == (s - {n - 1}) + {n - 1};
    } else {
      InAllSets(s, n - 1);
    }
  }

  /** The kernels of the states that have been worked on. */
  ghost function DoneKernels(states: seq<State>, n: nat): set<set<nat>>
    requires n <= |states|
  {
    set q | 0 <= q < n :: SetOf(states[q].items)
  }

  lemma WorklistShrinks(g: Grammar, states: seq<State>, states': seq<State>, n: nat)
    requires Valid(g) && StatesOk(g, states') && states <= states' && n < |states|
    ensures AllSets(|g.ritem|) - DoneKernels(states, n) > AllSets(|g.ritem|) - DoneKernels(states', n + 1)
  {
    var kernel := SetOf(states[n].items);
    forall x | x in kernel ensures x < |g.ritem| {
      if n > 0 {
        assert StateOk(g, states'[n]);
      }
    }
    InAllSets(kernel, |g.ritem|);
    forall q | 0 <= q < n ensures SetOf(states[q].items) != kernel {
      assert states'[q] == states[q] && states'[n] == states[n];
    }
    assert kernel == SetOf(states'[n].items) && kernel in DoneKernels(states', n + 1);
    forall k | k in DoneKernels(states, n) ensures k in DoneKernels(states', n + 1) {
      var q :| 0 <= q < n && SetOf(states[q].items) == k;
      assert SetOf(states'[q].items) == k;
    }
  }

  /** The rows made so far are right for the states that exist now. */
  ghost predicate RowsOk(g: Grammar, a: Automaton)
    requires Valid(g)
  {
    && |a.shifts| == |a.reductions| <= |a.states|
    && forall q :: 0 <= q < |a.shifts| ==> RowOk(g, a.states, a.shifts[q], a.reductions[q], q)
  }

  lemma RowKept(g: Grammar, states: seq<State>, states': seq<State>, shifts: seq<nat>, reductions: seq<nat>, q: nat)
    requires Valid(g) && states <= states' && q < |states| && RowOk(g, states, shifts, reductions, q)
    ensures RowOk(g, states', shifts, reductions, q)
  {
    var c := ItemsOf(g, states[q]);
    assert states'[q] == states[q];
    forall j | 0 <= j < |shifts| ensures MoveOk(g, states', c, shifts[j]) && states'[shifts[j]] == states[shifts[j]] {
      assert MoveOk(g, states, c, shifts[j]);
    }
    forall x | CanMove(g, c, x) ensures MoveListed(states', shifts, x) {
      assert MoveListed(states, shifts, x);
      var j :| 0 <= j < |shifts| && shifts[j] < |states| && states[shifts[j]].symbol == x;
      assert states'[shifts[j]].symbol == x;
    }
  }

  lemma RowAdded(g: Grammar, a: Automaton, a': Automaton, list: seq<nat>, rules: seq<nat>)
    requires Valid(g) && RowsOk(g, a) && |a.shifts| < |a.states| && a.states <= a'.states
    requires a'.shifts == a.shifts + [list] && a'.reductions == a.reductions + [rules]
    requires RowOk(g, a'.states, list, rules, |a.shifts|)
    ensures RowsOk(g, a')
  {
    forall q | 0 <= q < |a'.shifts| ensures RowOk(g, a'.states, a'.shifts[q], a'.reductions[q], q) {
      if q < |a.shifts| {
        RowKept(g, a.states, a'.states, a.shifts[q], a.reductions[q], q);
      }
    }
  }

  lemma FoundKept(states: seq<State>, states': seq<State>, shifts: seq<seq<nat>>, list: seq<nat>)
    requires Found(states, shifts) && states <= states' && |shifts| < |states|
    requires NewOnesListed(|states|, states', list)
    ensures Found(states', shifts + [list])
  {
    forall q: nat | 0 < q < |states'| ensures FoundFrom(shifts + [list], q) {
      if q < |states| {
        assert FoundFrom(shifts, q);
        var p :| 0 <= p < q && p < |shifts| && q in shifts[p];
        assert q in (shifts + [list])[p];
      } else {
        assert q in (shifts + [list])[|shifts|];
      }
    }
  }

  method GenerateStates(g: Grammar, derives: array<nat>, rules: array<int>) returns (a: Automaton)
    requires Valid(g) && IsDerives(g, derives[..], rules[..])
    ensures IsAutomaton(g, a)
  {
    hide RowSet, Row, Mask;
    var buffers := new KernelBuffers(g);
    var stateSet := new seq<nat>[|g.ritem|](_ => []);
    var itemset := new nat[|g.ritem|];
    var ruleset := new Word[WordSize(NRules(g))];
    var first := SetFirstDerives(g, derives, rules);
    var start := InitializeStates(g, derives, rules);
    a := Automaton([start], [], []);
    while |a.shifts| < |a.states|
      invariant buffers.Valid() && fresh(buffers.kernelEnd) && fresh(buffers.kernelItems) && fresh(buffers.shiftSymbol)
      invariant FirstDerivesOk(g, first)
      invariant StatesOk(g, a.states) && ChainsOk(g, a.states, stateSet[..])
      invariant RowsOk(g, a) && Found(a.states, a.shifts)
      decreases AllSets(|g.ritem|) - DoneKernels(a.states, |a.shifts|)
    {
      ghost var before := a;
      a := ProcessState(g, first, ruleset, itemset, buffers, stateSet, a);
      WorklistShrinks(g, before.states, a.states, |before.shifts|);
    }
  }

  ghost predicate FirstDerivesOk(g: Grammar, first: array<Word>)
    requires Valid(g)
    reads first
  {
    && first.Length == Start(NVars(g), WordSize(NRules(g)))
    && Rows(first[..], WordSize(NRules(g)), NVars(g)) == FirstTable(g)
  }

  /** One turn of the worklist loop. */
  method ProcessState(g: Grammar, first: array<Word>, ruleset: array<Word>, itemset: array<nat>, buffers: KernelBuffers,
                      stateSet: array<seq<nat>>, a: Automaton) returns (a': Automaton)
    requires Valid(g) && buffers.g == g && buffers.Valid() && FirstDerivesOk(g, first) && first != ruleset
    requires buffers.Apart(stateSet) && buffers.Apart(itemset) && buffers.Apart(ruleset) && buffers.Apart(first)
    requires first as object != stateSet && first as object != itemset && ruleset as object != stateSet
    requires itemset as object != stateSet
    requires ruleset.Length == WordSize(NRules(g)) && itemset.Length == |g.ritem|
    requires StatesOk(g, a.states) && ChainsOk(g, a.states, stateSet[..])
    requires RowsOk(g, a) && Found(a.states, a.shifts) && |a.shifts| < |a.states|
    modifies ruleset, itemset, buffers, buffers.kernelEnd, buffers.kernelItems, buffers.shiftSymbol, stateSet
    ensures buffers.Valid() && FirstDerivesOk(g, first)
    ensures StatesOk(g, a'.states) && ChainsOk(g, a'.states, stateSet[..])
    ensures RowsOk(g, a') && Found(a'.states, a'.shifts)
    ensures a.states <= a'.states && |a'.shifts| == |a.shifts| + 1
  {
    hide RowSet, Row, Mask;
    var q := |a.shifts|;
    KernelIsItems(g, a.states, q);
    var end := ComputeClosure(g, first, ruleset, itemset, a.states[q].items);
    ghost var items := itemset[..end];
    ClosureItems(g, a.states[q].items, items);
    var rules := SaveReductions(g, itemset, end);
    buffers.NewItemsets(itemset, end);
    var states', list := AppendStates(buffers, a.states, stateSet, items);
    a' := Automaton(states', a.shifts + [list], a.reductions + [rules]);
    assert states'[q] == a.states[q];
    RowAdded(g, a, a', list, rules);
    FoundKept(a.states, states', a.shifts, list);
  }

  lemma KernelIsItems(g: Grammar, states: seq<State>, q: nat)
    requires Valid(g) && StatesOk(g, states) && q < |states|
    ensures Ascending(states[q].items) && AreItems(g, SetOf(states[q].items))
  {
    assert q > 0 ==> StateOk(g, states[q]);
  }

  lemma ClosureItems(g: Grammar, kernel: seq<nat>, items: seq<nat>)
    requires Valid(g) && AreItems(g, SetOf(kernel)) && Ascending(items)
    requires SetOf(items) == ClosureSet(g, SetOf(kernel))
    ensures AreItems(g, SetOf(items)) && AreBelow(items, |g.ritem|)
  {
    forall i | i in SetOf(items) ensures 1 <= i < |g.ritem| {
      if i !in SetOf(kernel) {
        var r: nat :| r < |g.rlhs| && Pulled(g, SetOf(kernel), r) && g.rrhs[r] == i;
        RuleStarts(g, r);
        LowestRule(g, r);
      }
    }
    assert forall k :: 0 <= k < |items| ==> items[k] in SetOf(items);
  }
}
