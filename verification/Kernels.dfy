/** The kernel buffers of byacc/lr0.c: the items of a closure, moved over each symbol. */
module Kernels {
  import opened Grammars
  import opened Sequences
  import opened Items

  /** How many of the first n items are symbols from lo up to hi. */
  ghost function CountIn(g: Grammar, lo: int, hi: int, n: nat): (c: nat)
    requires n <= |g.ritem|
  {
    if n == 0 then 0
    else
      var c := CountIn(g, lo, hi, n - 1);
      if lo <= g.ritem[n - 1] < hi then c + 1 else c
  }

  lemma {:induction false} CountSplit(g: Grammar, lo: int, mid: int, hi: int, n: nat)
    requires n <= |g.ritem| && lo <= mid <= hi
    ensures CountIn(g, lo, hi, n) == CountIn(g, lo, mid, n) + CountIn(g, mid, hi, n)
  {
    if n > 0 {
      CountSplit(g, lo, mid, hi, n - 1);
    }
  }

  lemma {:induction false} CountMonotone(g: Grammar, lo: int, hi: int, m: nat, n: nat)
    requires m <= n <= |g.ritem|
    ensures CountIn(g, lo, hi, m) <= CountIn(g, lo, hi, n)
  {
    if m < n {
      CountMonotone(g, lo, hi, m, n - 1);
    }
  }

  /** The items of `items` that have x after the dot, moved past it. */
  ghost function Kernel(g: Grammar, items: seq<nat>, x: int): seq<nat> {
    if items == [] then []
    else
      var i := items[|items| - 1];
      var k := Kernel(g, items[..|items| - 1], x);
      if i < |g.ritem| && g.ritem[i] == x then k + [i + 1] else k
  }

  lemma KernelStep(g: Grammar, items: seq<nat>, i: nat, x: int)
    ensures Kernel(g, items + [i], x) ==
            if i < |g.ritem| && g.ritem[i] == x then Kernel(g, items, x) + [i + 1] else Kernel(g, items, x)
  {
    assert (items + [i])[..|items|] == items;
  }

  lemma {:induction false} KernelIsGoto(g: Grammar, items: seq<nat>, x: int)
    ensures SetOf(Kernel(g, items, x)) == GotoSet(g, SetOf(items), x)
  {
    if items != [] {
      var n := |items| - 1;
      KernelIsGoto(g, items[..n], x);
      assert items == items[..n] + [items[n]];
      assert SetOf(items) == SetOf(items[..n]) + {items[n]};
      var k := Kernel(g, items[..n], x);
      assert SetOf(k + [items[n] + 1]) == SetOf(k) + {items[n] + 1};
    }
  }

  lemma {:induction false} KernelAscending(g: Grammar, items: seq<nat>, x: int, n: nat)
    requires Ascending(items) && forall k :: 0 <= k < |items| ==> items[k] < n
    ensures Ascending(Kernel(g, items, x))
    ensures forall k :: 0 <= k < |Kernel(g, items, x)| ==> Kernel(g, items, x)[k] <= n
  {
    if items != [] {
      KernelAscending(g, items[..|items| - 1], x, items[|items| - 1]);
    }
  }

  /** The kernel for x never outgrows the slot that allocate_itemsets reserves for it. */
  lemma {:induction false} KernelFits(g: Grammar, items: seq<nat>, x: int, n: nat)
    requires Ascending(items) && n <= |g.ritem| && forall k :: 0 <= k < |items| ==> items[k] < n
    ensures |Kernel(g, items, x)| <= CountIn(g, x, x + 1, n)
  {
    if items != [] {
      var i := items[|items| - 1];
      KernelFits(g, items[..|items| - 1], x, i);
      CountMonotone(g, x, x + 1, i + 1, n);
    }
  }

  /** Where allocate_itemsets puts the slot of x. */
  ghost function Base(g: Grammar, x: int): nat {
    CountIn(g, 0, x, |g.ritem|)
  }

  lemma SlotsInOrder(g: Grammar, x: int, y: int)
    requires 0 <= x < y
    ensures Base(g, x) + CountIn(g, x, x + 1, |g.ritem|) == Base(g, x + 1) <= Base(g, y)
  {
    CountSplit(g, 0, x, x + 1, |g.ritem|);
    CountSplit(g, 0, x + 1, y, |g.ritem|);
  }

  ghost predicate AreBelow(items: seq<nat>, n: nat) {
    Ascending(items) && forall k :: 0 <= k < |items| ==> items[k] < n
  }

  lemma BelowPrefix(items: seq<nat>, k: nat, n: nat)
    requires AreBelow(items, n) && k < |items|
    ensures items[k] < n && AreBelow(items[..k], n) && AreBelow(items[..k + 1], n)
  {
  }

  /** The slot of x, ended by kernelEnd, holds the kernel that `items` gives for x. */
  ghost predicate SlotHolds(g: Grammar, kernelEnd: int, kernelItems: seq<nat>, items: seq<nat>, x: int) {
    var k := Kernel(g, items, x);
    if x == 0 || k == [] then
      kernelEnd == -1
    else
      && kernelEnd == Base(g, x) + |k| <= |kernelItems|
      && kernelItems[Base(g, x)..kernelEnd] == k
  }

  ghost predicate SlotsHold(g: Grammar, kernelEnd: seq<int>, kernelItems: seq<nat>, items: seq<nat>) {
    |kernelEnd| == g.nsyms && forall x :: 0 <= x < g.nsyms ==> SlotHolds(g, kernelEnd[x], kernelItems, items, x)
  }

  /** symbols lists, without repetition, the symbols that have a kernel. */
  ghost predicate SymbolsOk(g: Grammar, symbols: seq<nat>, items: seq<nat>) {
    && (NoRepeats(symbols))
    && (forall x :: x in symbols <==> 0 < x < g.nsyms && Kernel(g, items, x) != [])
  }

  /** There is room for one more item in the slot of its symbol. */
  lemma SlotRoom(g: Grammar, items: seq<nat>, i: nat, x: int)
    requires i < |g.ritem| && g.ritem[i] == x && 0 <= x < g.nsyms && AreBelow(items + [i], |g.ritem|)
    ensures Kernel(g, items + [i], x) == Kernel(g, items, x) + [i + 1]
    ensures Base(g, x) + |Kernel(g, items, x)| < Base(g, x + 1) <= Base(g, g.nsyms)
  {
    hide CountIn, Base;
    KernelStep(g, items, i, x);
    KernelFits(g, items + [i], x, |g.ritem|);
    SlotsInOrder(g, x, g.nsyms);
  }

  /** Writing item i + 1 at the end of the slot of its symbol keeps every slot right. */
  lemma SlotsAfterAdd(g: Grammar, kernelEnd: seq<int>, kernelItems: seq<nat>, items: seq<nat>, i: nat, ksp: nat)
    requires SlotsHold(g, kernelEnd, kernelItems, items) && AreBelow(items, |g.ritem|)
    requires AreBelow(items + [i], |g.ritem|)
    requires i < |g.ritem| && 0 < g.ritem[i] < g.nsyms && |kernelItems| == Base(g, g.nsyms)
    requires ksp == Base(g, g.ritem[i]) + |Kernel(g, items, g.ritem[i])|
    ensures ksp < |kernelItems|
    ensures SlotsHold(g, kernelEnd[g.ritem[i] := ksp + 1], kernelItems[ksp := i + 1], items + [i])
  {
    var symbol := g.ritem[i];
    SlotRoom(g, items, i, symbol);
    var kernelEnd', kernelItems' := kernelEnd[symbol := ksp + 1], kernelItems[ksp := i + 1];
    forall x | 0 <= x < g.nsyms ensures SlotHolds(g, kernelEnd'[x], kernelItems', items + [i], x) {
      assert SlotHolds(g, kernelEnd[x], kernelItems, items, x);
      if x == symbol {
        SlotGrows(g, kernelEnd[x], kernelItems, items, i, ksp);
      } else {
        SlotKept(g, kernelEnd[x], kernelItems, items, i, ksp, x);
      }
    }
  }

  lemma SlotGrows(g: Grammar, end: int, kernelItems: seq<nat>, items: seq<nat>, i: nat, ksp: nat)
    requires i < |g.ritem| && g.ritem[i] > 0 && ksp < |kernelItems|
    requires SlotHolds(g, end, kernelItems, items, g.ritem[i])
    requires ksp == Base(g, g.ritem[i]) + |Kernel(g, items, g.ritem[i])|
    requires Kernel(g, items + [i], g.ritem[i]) == Kernel(g, items, g.ritem[i]) + [i + 1]
    ensures SlotHolds(g, ksp + 1, kernelItems[ksp := i + 1], items + [i], g.ritem[i])
  {
    var base := Base(g, g.ritem[i]);
    var k := Kernel(g, items, g.ritem[i]);
    assert kernelItems[base..ksp] == k;
    assert kernelItems[ksp := i + 1][base..ksp + 1] == kernelItems[base..ksp] + [i + 1];
  }

  lemma SlotKept(g: Grammar, end: int, kernelItems: seq<nat>, items: seq<nat>, i: nat, ksp: nat, x: int)
    requires i < |g.ritem| && 0 <= x < g.nsyms && 0 <= g.ritem[i] && x != g.ritem[i] && ksp < |kernelItems|
    requires AreBelow(items, |g.ritem|) && SlotHolds(g, end, kernelItems, items, x)
    requires Base(g, g.ritem[i]) <= ksp < Base(g, g.ritem[i] + 1)
    ensures SlotHolds(g, end, kernelItems[ksp := i + 1], items + [i], x)
  {
    hide CountIn, Base, Kernel;
    KernelStep(g, items, i, x);
    KernelFits(g, items, x, |g.ritem|);
    SlotsInOrder(g, x, x + 1);
    if x < g.ritem[i] {
      SlotsInOrder(g, x, g.ritem[i]);
    } else {
      SlotsInOrder(g, g.ritem[i], x);
    }
    var base := Base(g, x);
    if x != 0 && Kernel(g, items, x) != [] {
      assert kernelItems[ksp := i + 1][base..end] == kernelItems[base..end];
    }
  }

  lemma SymbolsAfterAdd(g: Grammar, symbols: seq<nat>, items: seq<nat>, i: nat)
    requires SymbolsOk(g, symbols, items) && i < |g.ritem| && g.ritem[i] < g.nsyms
    ensures g.ritem[i] <= 0 || Kernel(g, items, g.ritem[i]) != [] ==> SymbolsOk(g, symbols, items + [i])
    ensures g.ritem[i] > 0 && Kernel(g, items, g.ritem[i]) == [] ==>
      |symbols| < g.nsyms && SymbolsOk(g, symbols + [g.ritem[i]], items + [i])
  {
    forall x ensures Kernel(g, items + [i], x) == if g.ritem[i] == x then Kernel(g, items, x) + [i + 1] else Kernel(g, items, x) {
      KernelStep(g, items, i, x);
    }
    var symbol := g.ritem[i];
    if symbol > 0 && Kernel(g, items, symbol) == [] {
      var more := symbols + [symbol];
      assert forall k :: 0 <= k < |symbols| ==> symbols[k] in symbols;
      assert symbol !in symbols;
      DistinctBound(more, g.nsyms);
    }
  }

  class KernelBuffers {
    const g: Grammar
    const kernelBase: array<nat>
    const kernelEnd: array<int>    // -1 is the null pointer
    const kernelItems: array<nat>
    const shiftSymbol: array<nat>
    var nshifts: nat

    ghost predicate Valid()
      reads this, kernelBase
    {
      && kernelBase.Length == kernelEnd.Length == shiftSymbol.Length == g.nsyms
      && kernelItems.Length == Base(g, g.nsyms)
      && kernelBase != kernelItems && kernelBase != shiftSymbol && kernelItems != shiftSymbol
      && kernelEnd as object !in {kernelBase, kernelItems, shiftSymbol}
      && nshifts <= g.nsyms
      && forall x :: 0 <= x < g.nsyms ==> kernelBase[x] == Base(g, x)
    }

    /** The buffers hold the kernels of `items`, and shiftSymbol lists the symbols that have one. */
    ghost predicate Holds(items: seq<nat>)
      requires Valid()
      reads this, kernelBase, kernelEnd, kernelItems, shiftSymbol
    {
      SlotsHold(g, kernelEnd[..], kernelItems[..], items) && SymbolsOk(g, shiftSymbol[..nshifts], items)
    }

    /** o is none of the buffers. */
    ghost predicate Apart(o: object)
      reads this
    {
      o != kernelBase && o != kernelEnd && o != kernelItems && o != shiftSymbol && o != this
    }

    /** The kernel in the slot of x. */
    method KernelOf(x: nat, ghost items: seq<nat>) returns (kernel: seq<nat>)
      requires Valid() && SlotsHold(g, kernelEnd[..], kernelItems[..], items)
      requires 0 < x < g.nsyms && Kernel(g, items, x) != []
      ensures kernel == Kernel(g, items, x)
    {
      assert SlotHolds(g, kernelEnd[..][x], kernelItems[..], items, x);
      kernel := kernelItems[kernelBase[x]..kernelEnd[x]];
    }

    /** allocate_itemsets */
    constructor (g: Grammar)
      requires Grammars.Valid(g)
      ensures this.g == g && Valid()
      ensures fresh(kernelBase) && fresh(kernelEnd) && fresh(kernelItems) && fresh(shiftSymbol)
    {
      this.g := g;
      var symbolCount := new nat[g.nsyms](_ => 0);
      var count := 0;
      for i := 0 to |g.ritem|
        invariant count == CountIn(g, 0, g.nsyms, i)
        invariant forall x :: 0 <= x < g.nsyms ==> symbolCount[x] == CountIn(g, x, x + 1, i)
      {
        ItemInRange(g, i);
        if g.ritem[i] >= 0 {
          count := count + 1;
          symbolCount[g.ritem[i]] := symbolCount[g.ritem[i]] + 1;
        }
      }
      var base := new nat[g.nsyms];
      kernelItems := new nat[count];
      count := 0;
      NoneBelow(g, |g.ritem|);
      for i := 0 to g.nsyms
        invariant count == CountIn(g, 0, i, |g.ritem|)
        invariant forall x :: 0 <= x < i ==> base[x] == CountIn(g, 0, x, |g.ritem|)
        invariant forall x :: 0 <= x < g.nsyms ==> symbolCount[x] == CountIn(g, x, x + 1, |g.ritem|)
      {
        base[i] := count;
        CountSplit(g, 0, i, i + 1, |g.ritem|);
        count := count + symbolCount[i];
      }
      kernelBase := base;
      shiftSymbol := symbolCount;
      kernelEnd := new int[g.nsyms];
      nshifts := 0;
    }

    /** new_itemsets */
    method NewItemsets(itemset: array<nat>, end: nat)
      requires Valid() && Grammars.Valid(g)
      requires itemset !in {kernelBase, kernelItems, shiftSymbol} && itemset as object != kernelEnd
      requires end <= itemset.Length && AreBelow(itemset[..end], |g.ritem|)
      modifies this, kernelEnd, kernelItems, shiftSymbol
      ensures Valid() && Holds(itemset[..end])
    {
      hide SlotsHold, SymbolsOk, Kernel, Base, AreBelow;
      ClearSlots();
      ghost var items := itemset[..end];
      for isp := 0 to end
        invariant Valid() && itemset[..end] == items && Holds(items[..isp])
      {
        var i := itemset[isp];
        assert i == items[isp] && items[..isp + 1] == items[..isp] + [i];
        BelowPrefix(items, isp, |g.ritem|);
        AddItem(i, items[..isp]);
      }
      assert items[..end] == items;
    }

    method ClearSlots()
      requires Valid() && Grammars.Valid(g)
      modifies this`nshifts, kernelEnd
      ensures Valid() && Holds([])
    {
      for i := 0 to g.nsyms
        invariant Valid()
        invariant forall x :: 0 <= x < i ==> kernelEnd[x] == -1
      {
        kernelEnd[i] := -1;
      }
      nshifts := 0;
    }

    /** Files item i, moved past its symbol. */
    method AddItem(i: nat, ghost items: seq<nat>)
      requires Valid() && Grammars.Valid(g) && Holds(items)
      requires i < |g.ritem| && AreBelow(items, |g.ritem|) && AreBelow(items + [i], |g.ritem|)
      modifies this, kernelEnd, kernelItems, shiftSymbol
      ensures Valid() && Holds(items + [i])
    {
      hide SlotsHold, SymbolsOk, Kernel, Base, AreBelow;
      var symbol := g.ritem[i];
      ItemInRange(g, i);
      SymbolsAfterAdd(g, shiftSymbol[..nshifts], items, i);
      if symbol > 0 {
        PutItem(i, symbol, items);
      } else {
        NoSlotAdded(g, kernelEnd[..], kernelItems[..], items, i);
      }
    }

    /** Files item i in the slot of its symbol. */
    method PutItem(i: nat, symbol: nat, ghost items: seq<nat>)
      requires Valid() && Grammars.Valid(g) && Holds(items)
      requires i < |g.ritem| && AreBelow(items, |g.ritem|) && AreBelow(items + [i], |g.ritem|)
      requires symbol == g.ritem[i] && 0 < symbol < g.nsyms
      modifies this, kernelEnd, kernelItems, shiftSymbol
      ensures Valid() && Holds(items + [i])
    {
      hide SlotsHold, SymbolsOk, Kernel, Base, AreBelow;
      ghost var ends: seq<int>, kernels: seq<nat>, symbols: seq<nat> := kernelEnd[..], kernelItems[..],
        shiftSymbol[..nshifts];
      SlotEnd(g, ends, kernels, items, symbol);
      SymbolsAfterAdd(g, symbols, items, i);
      var ksp := kernelEnd[symbol];
      if ksp == -1 {
        shiftSymbol[nshifts] := symbol;
        nshifts := nshifts + 1;
        ksp := kernelBase[symbol];
        assert shiftSymbol[..nshifts] == symbols + [symbol];
      }
      SlotsAfterAdd(g, ends, kernels, items, i, ksp);
      kernelItems[ksp] := i + 1;
      kernelEnd[symbol] := ksp + 1;
      assert kernelItems[..] == kernels[ksp := (i + 1) as nat] && kernelEnd[..] == ends[symbol := ksp + 1];
    }
  }

  /** Where the next item of symbol x goes. */
  lemma SlotEnd(g: Grammar, kernelEnd: seq<int>, kernelItems: seq<nat>, items: seq<nat>, x: int)
    requires SlotsHold(g, kernelEnd, kernelItems, items) && 0 < x < g.nsyms
    ensures |kernelEnd| == g.nsyms
    ensures if kernelEnd[x] == -1 then |Kernel(g, items, x)| == 0 && Kernel(g, items, x) == []
            else Kernel(g, items, x) != [] && kernelEnd[x] == Base(g, x) + |Kernel(g, items, x)|
  {
    assert SlotHolds(g, kernelEnd[x], kernelItems, items, x);
  }

  lemma NoSlotAdded(g: Grammar, kernelEnd: seq<int>, kernelItems: seq<nat>, items: seq<nat>, i: nat)
    requires SlotsHold(g, kernelEnd, kernelItems, items) && i < |g.ritem| && g.ritem[i] <= 0
    ensures SlotsHold(g, kernelEnd, kernelItems, items + [i])
  {
    NoKernelStep(g, items, i);
    forall x | 0 <= x < g.nsyms ensures SlotHolds(g, kernelEnd[x], kernelItems, items + [i], x) {
      assert SlotHolds(g, kernelEnd[x], kernelItems, items, x);
    }
  }

  lemma NoKernelStep(g: Grammar, items: seq<nat>, i: nat)
    requires i < |g.ritem| && g.ritem[i] <= 0
    ensures forall x :: x > 0 ==> Kernel(g, items + [i], x) == Kernel(g, items, x)
  {
    forall x | x > 0 ensures Kernel(g, items + [i], x) == Kernel(g, items, x) {
      KernelStep(g, items, i, x);
    }
  }

  lemma ItemInRange(g: Grammar, i: nat)
    requires Valid(g) && i < |g.ritem|
    ensures g.ritem[i] < g.nsyms
  {
    if i > 0 {
      ItemSymbol(g, i);
    }
  }

  lemma {:induction false} NoneBelow(g: Grammar, n: nat)
    requires n <= |g.ritem|
    ensures CountIn(g, 0, 0, n) == 0
  {
    if n > 0 {
      NoneBelow(g, n - 1);
    }
  }
}
