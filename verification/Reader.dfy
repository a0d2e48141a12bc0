/** pack_symbols and pack_grammar of byacc/reader.c: numbering the symbols, giving tokens their
    values, and laying the rules out in ritem. */
module Reader {
  import opened Grammars
  import opened Actions
  import opened Vectors

  const UNDEFINED := -1

  /** A symbol as declared: a token (TERM) or a nonterminal; `value` is UNDEFINED unless the
      declaration gives the token a number. A bucket is known by its place in the symbol list;
      place 0 holds the token `error`. */
  datatype Bucket = Bucket(term: bool, value: int, prec: int, assoc: int)

  ghost predicate SymbolsRead(buckets: seq<Bucket>, goal: nat) {
    && |buckets| > 0 && buckets[0].term
    && goal < |buckets| && !buckets[goal].term
    && forall b :: 0 <= b < |buckets| ==> buckets[b].value >= UNDEFINED
  }

  // ---------- Numbering ----------

  /** How many of the first n symbols are tokens, and how many are not. */
  ghost function Terms(buckets: seq<Bucket>, n: nat): nat
    requires n <= |buckets|
  {
    if n == 0 then 0 else Terms(buckets, n - 1) + if buckets[n - 1].term then 1 else 0
  }

  ghost function Nonterms(buckets: seq<Bucket>, n: nat): nat
    requires n <= |buckets|
  {
    if n == 0 then 0 else Nonterms(buckets, n - 1) + if buckets[n - 1].term then 0 else 1
  }

  lemma {:induction false} AllCounted(buckets: seq<Bucket>, n: nat)
    requires n <= |buckets|
    ensures Terms(buckets, n) + Nonterms(buckets, n) == n
  {
    if n > 0 {
      AllCounted(buckets, n - 1);
    }
  }

  lemma {:induction false} CountsGrow(buckets: seq<Bucket>, m: nat, n: nat)
    requires m <= n <= |buckets|
    ensures Terms(buckets, m) <= Terms(buckets, n) && Nonterms(buckets, m) <= Nonterms(buckets, n)
  {
    if m < n {
      CountsGrow(buckets, m, n - 1);
    }
  }

  /** The place of symbol b in v: tokens from 1 on, nonterminals from start_symbol + 1 on. */
  ghost function PlaceOf(buckets: seq<Bucket>, ntokens: nat, b: nat): nat
    requires b < |buckets|
  {
    if buckets[b].term then 1 + Terms(buckets, b) else ntokens + 1 + Nonterms(buckets, b)
  }

  ghost function NTokens(buckets: seq<Bucket>): nat {
    1 + Terms(buckets, |buckets|)
  }

  /** Places are distinct; tokens take those below ntokens, nonterminals those above. */
  lemma PlacesDistinct(buckets: seq<Bucket>, b: nat, c: nat)
    requires b < |buckets| && c < |buckets|
    ensures PlaceOf(buckets, NTokens(buckets), b) == PlaceOf(buckets, NTokens(buckets), c) <==> b == c
    ensures if buckets[b].term then 0 < PlaceOf(buckets, NTokens(buckets), b) < NTokens(buckets)
            else NTokens(buckets) < PlaceOf(buckets, NTokens(buckets), b) < |buckets| + 2
  {
    AllCounted(buckets, |buckets|);
    CountsGrow(buckets, b + 1, |buckets|);
    CountsGrow(buckets, c + 1, |buckets|);
    if b < c {
      CountsGrow(buckets, b + 1, c);
    } else if c < b {
      CountsGrow(buckets, c + 1, b);
    }
  }

  /** v holds at each place the symbol that has it. */
  ghost predicate IsPlaced(buckets: seq<Bucket>, v: seq<nat>, n: nat)
    requires n <= |buckets|
  {
    |v| == |buckets| + 2 && forall b :: 0 <= b < n ==> PlacedAt(buckets, v, b)
  }

  ghost predicate PlacedAt(buckets: seq<Bucket>, v: seq<nat>, b: nat)
    requires b < |buckets|
  {
    PlaceOf(buckets, NTokens(buckets), b) < |v| && v[PlaceOf(buckets, NTokens(buckets), b)] == b
  }

  /** Every place but 0 and that of the start symbol is taken. */
  lemma {:induction false} WhoHas(buckets: seq<Bucket>, i: nat, n: nat) returns (b: nat)
    requires n <= |buckets|
    requires 0 < i <= Terms(buckets, n) || NTokens(buckets) < i <= NTokens(buckets) + Nonterms(buckets, n)
    ensures b < n && PlaceOf(buckets, NTokens(buckets), b) == i
    decreases n
  {
    CountsGrow(buckets, n, |buckets|);
    if PlaceOf(buckets, NTokens(buckets), n - 1) == i {
      b := n - 1;
    } else {
      b := WhoHas(buckets, i, n - 1);
    }
  }

  lemma PlaceIsTaken(buckets: seq<Bucket>, i: nat) returns (b: nat)
    requires 0 < i < |buckets| + 2 && i != NTokens(buckets)
    ensures b < |buckets| && PlaceOf(buckets, NTokens(buckets), b) == i
    ensures buckets[b].term <==> i < NTokens(buckets)
  {
    AllCounted(buckets, |buckets|);
    b := WhoHas(buckets, i, |buckets|);
    PlacesDistinct(buckets, b, b);
  }

  method PlaceSymbols(buckets: seq<Bucket>) returns (ntokens: nat, nsyms: nat, v: array<nat>)
    ensures fresh(v) && v.Length == nsyms == |buckets| + 2 && ntokens == NTokens(buckets)
    ensures IsPlaced(buckets, v[..], |buckets|)
  {
    hide Terms, Nonterms, PlaceOf, NTokens;
    nsyms, ntokens := 2, 1;
    CountsZero(buckets);
    for b := 0 to |buckets|
      invariant nsyms == 2 + b && ntokens == 1 + Terms(buckets, b)
    {
      CountsNext(buckets, b);
      nsyms := nsyms + 1;
      if buckets[b].term {
        ntokens := ntokens + 1;
      }
    }
    AllCounted(buckets, |buckets|);
    v := new nat[nsyms](_ => 0);
    var i, j := 1, ntokens + 1;
    for b := 0 to |buckets|
      invariant i == 1 + Terms(buckets, b) && j == ntokens + 1 + Nonterms(buckets, b)
      invariant IsPlaced(buckets, v[..], b)
    {
      CountsNext(buckets, b);
      PlacesDistinct(buckets, b, b);
      PlaceIs(buckets, b);
      forall c | 0 <= c < b ensures PlaceOf(buckets, NTokens(buckets), b) != PlaceOf(buckets, NTokens(buckets), c) {
        PlacesDistinct(buckets, b, c);
      }
      ghost var before := v[..];
      if buckets[b].term {
        v[i] := b;
        i := i + 1;
      } else {
        v[j] := b;
        j := j + 1;
      }
      forall c | 0 <= c < b + 1 ensures PlacedAt(buckets, v[..], c) {
        assert c < b ==> PlacedAt(buckets, before, c);
      }
    }
  }

  lemma CountsZero(buckets: seq<Bucket>)
    ensures Terms(buckets, 0) == Nonterms(buckets, 0) == 0 && NTokens(buckets) == 1 + Terms(buckets, |buckets|)
  {
  }

  lemma CountsNext(buckets: seq<Bucket>, b: nat)
    requires b < |buckets|
    ensures Terms(buckets, b + 1) == Terms(buckets, b) + if buckets[b].term then 1 else 0
    ensures Nonterms(buckets, b + 1) == Nonterms(buckets, b) + if buckets[b].term then 0 else 1
  {
  }

  lemma PlaceIs(buckets: seq<Bucket>, b: nat)
    requires b < |buckets|
    ensures PlaceOf(buckets, NTokens(buckets), b) ==
      if buckets[b].term then 1 + Terms(buckets, b) else NTokens(buckets) + 1 + Nonterms(buckets, b)
  {
  }

  /** The number of a symbol: its place, except that the goal moves to the front of the
      nonterminals. */
  ghost function IndexOf(buckets: seq<Bucket>, goal: nat, b: nat): nat
    requires b < |buckets|
  {
    if buckets[b].term then PlaceOf(buckets, NTokens(buckets), b)
    else if b == goal then NTokens(buckets) + 1
    else if b < goal then PlaceOf(buckets, NTokens(buckets), b) + 1
    else PlaceOf(buckets, NTokens(buckets), b)
  }

  /** Symbols have distinct numbers: tokens those below ntokens (error is 1), nonterminals those
      above, the goal the first of them. */
  lemma IndexDistinct(buckets: seq<Bucket>, goal: nat, b: nat, c: nat)
    requires b < |buckets| && c < |buckets| && goal < |buckets| && !buckets[goal].term
    ensures IndexOf(buckets, goal, b) == IndexOf(buckets, goal, c) <==> b == c
    ensures if buckets[b].term then 0 < IndexOf(buckets, goal, b) < NTokens(buckets)
            else NTokens(buckets) < IndexOf(buckets, goal, b) < |buckets| + 2
    ensures IndexOf(buckets, goal, goal) == NTokens(buckets) + 1
    ensures buckets[0].term ==> IndexOf(buckets, goal, 0) == 1
  {
    hide Terms, Nonterms;
    CountsZero(buckets);
    PlacesDistinct(buckets, b, c);
    PlacesDistinct(buckets, b, goal);
    PlacesDistinct(buckets, c, goal);
    PlacesDistinct(buckets, goal, goal);
    PlacesInOrder(buckets, b, goal);
    PlacesInOrder(buckets, c, goal);
    PlacesInOrder(buckets, goal, b);
    PlacesInOrder(buckets, goal, c);
    PlacesInOrder(buckets, b, c);
    PlacesInOrder(buckets, c, b);
  }

  lemma PlacesInOrder(buckets: seq<Bucket>, b: nat, c: nat)
    requires b < |buckets| && c < |buckets|
    ensures b < c && buckets[b].term == buckets[c].term ==>
      PlaceOf(buckets, NTokens(buckets), b) < PlaceOf(buckets, NTokens(buckets), c)
  {
    if b < c {
      CountsGrow(buckets, b + 1, c);
    }
  }

  /** Every number but 0 and that of the start symbol belongs to a symbol. */
  lemma IndexIsTaken(buckets: seq<Bucket>, goal: nat, i: nat) returns (b: nat)
    requires goal < |buckets| && !buckets[goal].term && 0 < i < |buckets| + 2 && i != NTokens(buckets)
    ensures b < |buckets| && IndexOf(buckets, goal, b) == i && (buckets[b].term <==> i < NTokens(buckets))
  {
    hide Terms, Nonterms, PlaceOf, NTokens;
    var n := NTokens(buckets);
    PlacesDistinct(buckets, goal, goal);
    var at := PlaceOf(buckets, n, goal);
    if i == n + 1 {
      b := goal;
      IndexDistinct(buckets, goal, goal, goal);
    } else {
      b := PlaceIsTaken(buckets, if n < i <= at then i - 1 else i);
      if !buckets[b].term {
        IndexByPlace(buckets, goal, b);
      }
    }
  }

  ghost predicate Numbered(buckets: seq<Bucket>, goal: nat, index: seq<int>, b: nat)
    requires b < |buckets| && b < |index|
  {
    index[b] == IndexOf(buckets, goal, b)
  }

  /** Who stands at place i of v. */
  lemma StandsAt(buckets: seq<Bucket>, v: seq<nat>, i: nat) returns (b: nat)
    requires IsPlaced(buckets, v, |buckets|) && 0 < i < |buckets| + 2 && i != NTokens(buckets)
    ensures b < |buckets| && v[i] == b && PlaceOf(buckets, NTokens(buckets), b) == i
    ensures buckets[b].term <==> i < NTokens(buckets)
  {
    hide Terms, Nonterms, PlaceOf, NTokens;
    b := PlaceIsTaken(buckets, i);
    assert PlacedAt(buckets, v, b);
  }

  lemma PlacesFit(buckets: seq<Bucket>)
    ensures 0 < NTokens(buckets) <= |buckets| + 1
  {
    AllCounted(buckets, |buckets|);
  }

  method NumberTokens(buckets: seq<Bucket>, goal: nat, v: array<nat>, ntokens: nat, index: array<int>)
    requires goal < |buckets| && !buckets[goal].term && ntokens == NTokens(buckets)
    requires IsPlaced(buckets, v[..], |buckets|) && index.Length == |buckets|
    modifies index
    ensures forall b :: 0 <= b < |buckets| && buckets[b].term ==> Numbered(buckets, goal, index[..], b)
  {
    hide Terms, Nonterms, PlaceOf, NTokens;
    PlacesFit(buckets);
    forall b | 0 <= b < |buckets| ensures PlaceOf(buckets, ntokens, b) >= 1 {
      PlacesDistinct(buckets, b, b);
    }
    for i := 1 to ntokens
      invariant forall b :: 0 <= b < |buckets| && PlaceOf(buckets, ntokens, b) < i ==>
        index[b] == PlaceOf(buckets, ntokens, b)
    {
      ghost var b := StandsAt(buckets, v[..], i);
      forall c | 0 <= c < |buckets| && PlaceOf(buckets, ntokens, c) < i + 1 && c != b
        ensures PlaceOf(buckets, ntokens, c) < i
      {
        PlacesDistinct(buckets, b, c);
      }
      index[v[i]] := i;
    }
    forall b | 0 <= b < |buckets| && buckets[b].term ensures Numbered(buckets, goal, index[..], b) {
      PlacesDistinct(buckets, b, b);
    }
  }

  /** With the goal set aside, the nonterminals are numbered in the order of their places. */
  ghost predicate VarsNumbered(buckets: seq<Bucket>, goal: nat, numbers: seq<int>, first: int, i: nat) {
    && |numbers| == |buckets|
    && forall b ::
      0 <= b < |buckets| && !buckets[b].term && (b == goal || PlaceOf(buckets, NTokens(buckets), b) < i) ==>
      numbers[b] == IndexOf(buckets, goal, b) - NTokens(buckets) - 1 + first
  }

  /** The loop that numbers nonterminals, once from start_symbol + 1 (index), once from 0 (value). */
  method NumberVars(buckets: seq<Bucket>, goal: nat, v: array<nat>, ntokens: nat, first: int, numbers: array<int>)
    requires goal < |buckets| && !buckets[goal].term && ntokens == NTokens(buckets)
    requires IsPlaced(buckets, v[..], |buckets|) && numbers.Length == |buckets|
    modifies numbers
    ensures VarsNumbered(buckets, goal, numbers[..], first, |buckets| + 2)
    ensures forall b :: 0 <= b < |buckets| && buckets[b].term ==> numbers[b] == old(numbers[b])
  {
    hide Terms, Nonterms, PlaceOf, NTokens, IndexOf;
    PlacesFit(buckets);
    IndexDistinct(buckets, goal, goal, goal);
    PlacesDistinct(buckets, goal, goal);
    ghost var at := PlaceOf(buckets, ntokens, goal);
    numbers[goal] := first;
    var k := first + 1;
    forall b | 0 <= b < |buckets| && !buckets[b].term ensures PlaceOf(buckets, ntokens, b) > ntokens {
      PlacesDistinct(buckets, b, b);
    }
    for i := ntokens + 1 to |buckets| + 2
      invariant k == (if at < i then i else i + 1) - ntokens - 1 + first
      invariant VarsNumbered(buckets, goal, numbers[..], first, i)
      invariant forall b :: 0 <= b < |buckets| && buckets[b].term ==> numbers[b] == old(numbers[b])
    {
      ghost var b := StandsAt(buckets, v[..], i);
      IndexByPlace(buckets, goal, b);
      forall c | 0 <= c < |buckets| && PlaceOf(buckets, ntokens, c) < i + 1 && c != b
        ensures PlaceOf(buckets, ntokens, c) < i
      {
        PlacesDistinct(buckets, b, c);
      }
      if v[i] != goal {
        numbers[v[i]] := k;
        k := k + 1;
      }
    }
  }

  lemma IndexByPlace(buckets: seq<Bucket>, goal: nat, b: nat)
    requires b < |buckets| && goal < |buckets| && !buckets[b].term && !buckets[goal].term
    ensures var i, at := PlaceOf(buckets, NTokens(buckets), b), PlaceOf(buckets, NTokens(buckets), goal);
      if b == goal then i == at else if i < at then IndexOf(buckets, goal, b) == i + 1
        else i > at && IndexOf(buckets, goal, b) == i
  {
    PlacesInOrder(buckets, b, goal);
    PlacesInOrder(buckets, goal, b);
  }

  // ---------- Token values ----------

  /** Token b is declared with a number. */
  predicate Explicit(buckets: seq<Bucket>, b: nat) {
    b < |buckets| && buckets[b].term && buckets[b].value != UNDEFINED
  }

  /** The declared numbers are fit for use: not 0, distinct, and not the 256 that `error` gets
      unless a number is declared for it. */
  ghost predicate NumbersFit(buckets: seq<Bucket>) {
    && (forall b :: 0 <= b < |buckets| && Explicit(buckets, b) ==> buckets[b].value > 0)
    && (forall b, c :: 0 <= b < c < |buckets| && Explicit(buckets, b) && Explicit(buckets, c) ==>
      buckets[b].value != buckets[c].value)
    && (|buckets| > 0 && !Explicit(buckets, 0) ==> forall b :: 0 <= b < |buckets| && Explicit(buckets, b) ==>
      buckets[b].value != 256)
  }

  const COLLIDING := [Bucket(true, UNDEFINED, 0, 0), Bucket(true, 256, 0, 0), Bucket(false, UNDEFINED, 0, 0)]

  ghost predicate Nondecreasing(s: seq<int>) {
    forall i, j :: 0 <= i < j < |s| ==> s[i] <= s[j]
  }

  /** Inserts n into the sorted numbers s[..k]. */
  method InsertNumber(s: array<int>, k: nat, n: int)
    requires k < s.Length && Nondecreasing(s[..k])
    modifies s
    ensures Nondecreasing(s[..k + 1]) && Adds(old(s[..k]), n, s[..k + 1])
  {
    hide Nondecreasing, Adds;
    ghost var before := s[..k];
    var j := ShiftUp(s, k, n);
    s[j] := n;
    GapFilled(s[..k + 1], before, j, n);
    InsertedNumber(before, j, n);
  }

  lemma GapFilled(t: seq<int>, before: seq<int>, j: nat, n: int)
    requires |t| == |before| + 1 && j < |t| && t[j] == n
    requires forall l :: 0 <= l < j ==> t[l] == before[l]
    requires forall l :: j < l < |t| ==> t[l] == before[l - 1]
    ensures t == before[..j] + [n] + before[j..]
  {
  }

  ghost predicate Adds(before: seq<int>, n: int, after: seq<int>) {
    forall x :: x in after <==> x == n || x in before
  }

  /** Moves the numbers above n up by one; j is the gap. */
  method ShiftUp(s: array<int>, k: nat, n: int) returns (j: nat)
    requires k < s.Length
    modifies s
    ensures j <= k && forall l :: 0 <= l < j ==> s[l] == old(s[..k])[l]
    ensures forall l :: j < l <= k ==> s[l] == old(s[..k])[l - 1]
    ensures (j > 0 ==> old(s[..k])[j - 1] <= n) && (j < k ==> old(s[..k])[j] > n)
  {
    j := k;
    ghost var before := s[..k];
    while j > 0 && s[j - 1] > n
      invariant 0 <= j <= k
      invariant forall l :: 0 <= l < j ==> s[l] == before[l]
      invariant forall l :: j < l <= k ==> s[l] == before[l - 1]
      invariant j < k ==> before[j] > n
    {
      s[j] := s[j - 1];
      j := j - 1;
    }
  }

  lemma InsertedNumber(before: seq<int>, j: nat, n: int)
    requires Nondecreasing(before) && j <= |before|
    requires (j > 0 ==> before[j - 1] <= n) && (j < |before| ==> before[j] > n)
    ensures Nondecreasing(before[..j] + [n] + before[j..])
    ensures Adds(before, n, before[..j] + [n] + before[j..])
  {
    InsertedOrder(before, j, n);
    InsertedMembers(before, j, n);
  }

  lemma InsertedMembers(before: seq<int>, j: nat, n: int)
    requires j <= |before|
    ensures Adds(before, n, before[..j] + [n] + before[j..])
  {
    assert before == before[..j] + before[j..];
    forall x ensures x in before[..j] + [n] + before[j..] <==> x == n || x in before {
      assert x in before <==> x in before[..j] || x in before[j..];
    }
  }

  lemma InsertedOrder(before: seq<int>, j: nat, n: int)
    requires Nondecreasing(before) && j <= |before|
    requires (j > 0 ==> before[j - 1] <= n) && (j < |before| ==> before[j] > n)
    ensures Nondecreasing(before[..j] + [n] + before[j..])
  {
    var after := before[..j] + [n] + before[j..];
    assert forall i :: 0 <= i < j ==> after[i] == before[i] <= n;
    assert forall i :: j < i < |after| ==> after[i] == before[i - 1] && before[i - 1] >= n;
  }

  /** The declared numbers above 256 of the tokens placed below i, in ascending order. */
  ghost predicate LargeNumbers(buckets: seq<Bucket>, s: seq<int>, i: nat) {
    Nondecreasing(s) && forall x :: x in s <==> x > 256 && DeclaredBefore(buckets, i, x)
  }

  ghost predicate DeclaredBefore(buckets: seq<Bucket>, i: nat, x: int) {
    exists b: nat :: Explicit(buckets, b) && PlaceOf(buckets, NTokens(buckets), b) < i && buckets[b].value == x
  }

  method SortLargeNumbers(buckets: seq<Bucket>, v: array<nat>, ntokens: nat, value: array<int>, s: array<int>)
    returns (k: nat)
    requires ntokens == NTokens(buckets) && IsPlaced(buckets, v[..], |buckets|) && s.Length >= ntokens && s != value
    requires value.Length == |buckets|
    requires forall b :: 0 <= b < |buckets| && buckets[b].term ==> value[b] == buckets[b].value
    modifies s
    ensures k <= ntokens && LargeNumbers(buckets, s[..k], ntokens)
  {
    hide Terms, Nonterms, PlaceOf, NTokens;
    PlacesFit(buckets);
    k := 0;
    NoneDeclared(buckets);
    for i := 1 to ntokens
      invariant k < i && LargeNumbers(buckets, s[..k], i)
    {
      ghost var b := StandsAt(buckets, v[..], i);
      var n := value[v[i]];
      ghost var before := s[..k];
      if n > 256 {
        InsertNumber(s, k, n);
        k := k + 1;
      }
      LargeNext(buckets, before, s[..k], b, i);
    }
  }

  lemma LargeNext(buckets: seq<Bucket>, before: seq<int>, after: seq<int>, b: nat, i: nat)
    requires b < |buckets| && buckets[b].term && PlaceOf(buckets, NTokens(buckets), b) == i && i < NTokens(buckets)
    requires LargeNumbers(buckets, before, i) && Nondecreasing(after)
    requires if buckets[b].value > 256 then Adds(before, buckets[b].value, after) else after == before
    ensures LargeNumbers(buckets, after, i + 1)
  {
    hide Terms, Nonterms, PlaceOf, NTokens, DeclaredBefore;
    NextDeclared(buckets, b, i);
    forall x ensures x in after <==> x > 256 && DeclaredBefore(buckets, i + 1, x) {
      assert DeclaredBefore(buckets, i + 1, x) <==>
        DeclaredBefore(buckets, i, x) || (Explicit(buckets, b) && buckets[b].value == x);
      assert x in before <==> x > 256 && DeclaredBefore(buckets, i, x);
    }
  }

  lemma NoneDeclared(buckets: seq<Bucket>)
    ensures LargeNumbers(buckets, [], 1)
  {
    hide PlaceOf, NTokens, Terms, Nonterms;
    forall x ensures !DeclaredBefore(buckets, 1, x) {
      if b: nat :| Explicit(buckets, b) && PlaceOf(buckets, NTokens(buckets), b) < 1 && buckets[b].value == x {
        PlacesDistinct(buckets, b, b);
      }
    }
  }

  lemma NextDeclared(buckets: seq<Bucket>, b: nat, i: nat)
    requires b < |buckets| && buckets[b].term && PlaceOf(buckets, NTokens(buckets), b) == i && i < NTokens(buckets)
    ensures forall x :: DeclaredBefore(buckets, i + 1, x) <==>
      DeclaredBefore(buckets, i, x) || (Explicit(buckets, b) && buckets[b].value == x)
  {
    hide Terms, Nonterms, PlaceOf, NTokens;
    forall x ensures DeclaredBefore(buckets, i + 1, x) <==>
      DeclaredBefore(buckets, i, x) || (Explicit(buckets, b) && buckets[b].value == x) {
      if c: nat :| Explicit(buckets, c) && PlaceOf(buckets, NTokens(buckets), c) < i + 1 && buckets[c].value == x {
        PlacesDistinct(buckets, b, c);
        if c != b {
          assert PlaceOf(buckets, NTokens(buckets), c) < i;
        }
      }
    }
  }

  /** n comes after the numbers s[..j] and not after the others. */
  ghost predicate Splits(s: seq<int>, k: nat, j: nat, n: int) {
    && j <= k <= |s| && (forall l :: 0 <= l < j ==> s[l] < n)
    && (j < k ==> s[j] >= n)
  }

  /** The next number from n on that is not among s[..k]. */
  method NextFree(s: array<int>, k: nat, j: nat, n: int) returns (j': nat, n': int)
    requires k <= s.Length && Nondecreasing(s[..k]) && Splits(s[..], k, j, n)
    ensures n <= n' && n' !in s[..k] && Splits(s[..], k, j', n' + 1)
    ensures forall x :: n <= x < n' ==> x in s[..k]
  {
    ghost var sorted := s[..k];
    assert forall l :: 0 <= l < k ==> sorted[l] == s[l];
    j', n' := j, n;
    while j' < k && n' == s[j']
      invariant n <= n' && Splits(s[..], k, j', n')
      invariant forall x :: n <= x < n' ==> x in sorted
    {
      assert sorted[j'] == n';
      j' := j' + 1;
      while j' < k && n' == s[j']
        invariant 0 < j' <= k && s[j' - 1] == n' && forall l :: 0 <= l < j' ==> s[l] <= n'
      {
        j' := j' + 1;
      }
      assert j' < k ==> sorted[j' - 1] <= sorted[j'];
      n' := n' + 1;
    }
    assert forall l :: j' < l < k ==> sorted[j'] <= sorted[l];
  }

  /** The value of token b once it has one: the declared number, or 256 for `error`, or the lowest number above
      256 that neither was declared nor went to an earlier token. */
  ghost predicate ValueGiven(buckets: seq<Bucket>, value: seq<int>, b: nat)
    requires b < |value|
  {
    if Explicit(buckets, b) then value[b] == buckets[b].value
    else if b == 0 then value[b] == 256
    else
      && value[b] > 256 && !Used(buckets, value, b, value[b])
      && forall x :: 256 < x < value[b] ==> Used(buckets, value, b, x)
  }

  ghost predicate Declared(buckets: seq<Bucket>, x: int) {
    exists c: nat :: Explicit(buckets, c) && buckets[c].value == x
  }

  /** A token, other than `error`, without a declared number. */
  ghost predicate MadeUp(buckets: seq<Bucket>, b: nat) {
    0 < b < |buckets| && buckets[b].term && !Explicit(buckets, b)
  }

  /** Number x was declared, or made up for a token before b. */
  ghost predicate Used(buckets: seq<Bucket>, value: seq<int>, b: nat, x: int) {
    Declared(buckets, x) || exists c: nat :: c < b && HasMadeUp(buckets, value, c, x)
  }

  ghost predicate HasMadeUp(buckets: seq<Bucket>, value: seq<int>, c: nat, x: int) {
    MadeUp(buckets, c) && c < |value| && value[c] == x
  }

  /** The tokens placed below i have their values; those made up are below n and leave out none that was not
      declared. */
  ghost predicate ValuesGiven(buckets: seq<Bucket>, value: seq<int>, i: nat, n: int) {
    && |value| == |buckets|
    && (forall b: nat :: b < |buckets| && PlaceOf(buckets, NTokens(buckets), b) < i ==>
      ValueGiven(buckets, value, b) && (MadeUp(buckets, b) ==> value[b] < n))
    && forall x :: 256 < x < n ==> Declared(buckets, x) || GivenBelow(buckets, value, i, x)
  }

  ghost predicate TokensGiven(buckets: seq<Bucket>, value: seq<int>) {
    |value| == |buckets| && forall b: nat :: b < |buckets| && buckets[b].term ==> ValueGiven(buckets, value, b)
  }

  /** A token placed below i has the made-up value x. */
  ghost predicate GivenBelow(buckets: seq<Bucket>, value: seq<int>, i: nat, x: int) {
    exists c: nat :: HasMadeUp(buckets, value, c, x) && PlaceOf(buckets, NTokens(buckets), c) < i
  }

  lemma DeclaredIsLarge(buckets: seq<Bucket>, s: seq<int>, x: int)
    requires LargeNumbers(buckets, s, NTokens(buckets)) && x > 256 && x !in s
    ensures !Declared(buckets, x)
  {
    hide PlaceOf, NTokens, Terms;
    if c: nat :| Explicit(buckets, c) && buckets[c].value == x {
      PlacesDistinct(buckets, c, c);
    }
  }

  lemma LargeIsDeclared(buckets: seq<Bucket>, s: seq<int>, lo: int, hi: int)
    requires LargeNumbers(buckets, s, NTokens(buckets)) && forall x :: lo <= x < hi ==> x in s
    ensures forall x :: lo <= x < hi ==> Declared(buckets, x)
  {
    hide PlaceOf, NTokens, Terms;
    forall x | lo <= x < hi ensures Declared(buckets, x) {
      assert DeclaredBefore(buckets, NTokens(buckets), x);
    }
  }

  /** x is the lowest number from n on that was not declared. */
  ghost predicate IsNext(buckets: seq<Bucket>, n: int, x: int) {
    n <= x && !Declared(buckets, x) && forall y :: n <= y < x ==> Declared(buckets, y)
  }

  /** Which numbers are used before token b depends on the tokens before it only. */
  lemma GivenSame(buckets: seq<Bucket>, value: seq<int>, value': seq<int>, b: nat)
    requires b < |buckets| == |value| == |value'| && value'[b] == value[b]
    requires forall c: nat :: c < b && MadeUp(buckets, c) ==> value'[c] == value[c]
    ensures ValueGiven(buckets, value, b) ==> ValueGiven(buckets, value', b)
  {
    hide Declared, Explicit, MadeUp;
    forall x ensures Used(buckets, value, b, x) <==> Used(buckets, value', b, x) {
      forall c: nat | c < b ensures HasMadeUp(buckets, value, c, x) <==> HasMadeUp(buckets, value', c, x) {
      }
    }
  }

  /** A token that is given the lowest number from n on that was not declared. */
  lemma GivenLowest(buckets: seq<Bucket>, value: seq<int>, value': seq<int>, i: nat, b: nat, n: int)
    requires MadeUp(buckets, b) && PlaceOf(buckets, NTokens(buckets), b) == i
    requires ValuesGiven(buckets, value, i, n) && |value'| == |value|
    requires forall c :: 0 <= c < |value| && c != b ==> value'[c] == value[c]
    requires value'[b] > 256 && IsNext(buckets, n, value'[b])
    ensures ValueGiven(buckets, value', b)
    ensures forall x :: 256 < x <= value'[b] ==> Declared(buckets, x) || GivenBelow(buckets, value', i + 1, x)
  {
    hide Terms, Nonterms, PlaceOf, NTokens, Declared, ValueGiven;
    assert HasMadeUp(buckets, value', b, value'[b]);
    forall x | 256 < x < value'[b]
      ensures Declared(buckets, x) || GivenBelow(buckets, value', i + 1, x)
      ensures Used(buckets, value', b, x)
    {
      if !Declared(buckets, x) {
        var c: nat :| HasMadeUp(buckets, value, c, x) && PlaceOf(buckets, NTokens(buckets), c) < i;
        PlacesInOrder(buckets, b, c);
        assert HasMadeUp(buckets, value', c, x);
      }
    }
    forall c: nat | c < b && MadeUp(buckets, c) ensures value'[c] != value'[b] {
      PlacesInOrder(buckets, c, b);
      assert value[c] < n;
    }
    assert ValueGiven(buckets, value', b) by { IsLowest(buckets, value', b); }
  }

  lemma IsLowest(buckets: seq<Bucket>, value: seq<int>, b: nat)
    requires MadeUp(buckets, b) && b < |value| && value[b] > 256 && !Declared(buckets, value[b])
    requires forall c: nat :: c < b && MadeUp(buckets, c) && c < |value| ==> value[c] != value[b]
    requires forall x :: 256 < x < value[b] ==> Used(buckets, value, b, x)
    ensures ValueGiven(buckets, value, b)
  {
    hide Declared;
  }

  lemma GiveNext(buckets: seq<Bucket>, value: seq<int>, value': seq<int>, i: nat, b: nat, n: int, n': int)
    requires b < |buckets| && buckets[b].term && b > 0 && PlaceOf(buckets, NTokens(buckets), b) == i < NTokens(buckets)
    requires ValuesGiven(buckets, value, i, n) && |value'| == |value|
    requires forall c :: 0 <= c < |value| && c != b ==> value'[c] == value[c]
    requires Explicit(buckets, b) ==> value'[b] == buckets[b].value && n' == n
    requires !Explicit(buckets, b) ==> n' == value'[b] + 1 && value'[b] > 256 && IsNext(buckets, n, value'[b])
    ensures ValuesGiven(buckets, value', i + 1, n')
  {
    hide Terms, Nonterms, PlaceOf, NTokens, Declared, Explicit, Used;
    if !Explicit(buckets, b) {
      GivenLowest(buckets, value, value', i, b, n);
    }
    forall c: nat | c < |buckets| && PlaceOf(buckets, NTokens(buckets), c) < i + 1
      ensures ValueGiven(buckets, value', c) && (MadeUp(buckets, c) ==> value'[c] < n')
    {
      if c != b {
        PlacesDistinct(buckets, b, c);
        PlacesDistinct(buckets, c, b);
        assert ValueGiven(buckets, value, c) && (MadeUp(buckets, c) ==> value[c] < n);
        PlacesInOrder(buckets, b, c);
        GivenSame(buckets, value, value', c);
      }
    }
    forall x | 256 < x < n' ensures Declared(buckets, x) || GivenBelow(buckets, value', i + 1, x) {
      if Explicit(buckets, b) && !Declared(buckets, x) {
        var c: nat :| HasMadeUp(buckets, value, c, x) && PlaceOf(buckets, NTokens(buckets), c) < i;
        assert HasMadeUp(buckets, value', c, x);
      }
    }
  }

  lemma FirstIsError(buckets: seq<Bucket>, v: seq<nat>)
    requires IsPlaced(buckets, v, |buckets|) && |buckets| > 0 && buckets[0].term
    ensures NTokens(buckets) >= 2 && v[1] == 0 && PlaceOf(buckets, NTokens(buckets), 0) == 1
  {
    CountsGrow(buckets, 1, |buckets|);
    assert PlacedAt(buckets, v, 0);
  }

  /** Tokens without a declared number get 256 (error), or in turn the numbers from 257 on that nobody declared. */
  method GiveValues(buckets: seq<Bucket>, v: array<nat>, ntokens: nat, value: array<int>, s: array<int>, k: nat)
    requires ntokens == NTokens(buckets) && IsPlaced(buckets, v[..], |buckets|) && |buckets| > 0 && buckets[0].term
    requires s != value && k <= s.Length && LargeNumbers(buckets, s[..k], ntokens)
    requires value.Length == |buckets|
    requires forall b :: 0 <= b < |buckets| && buckets[b].term ==> value[b] == buckets[b].value
    modifies value
    ensures TokensGiven(buckets, value[..])
    ensures forall b :: 0 <= b < |buckets| && !buckets[b].term ==> value[b] == old(value[b])
  {
    hide Terms, Nonterms, PlaceOf, NTokens, Declared, ValuesGiven, Nondecreasing;
    PlacesFit(buckets);
    FirstIsError(buckets, v[..]);
    if value[v[1]] == UNDEFINED {
      value[v[1]] := 256;
    }
    var j: nat, n := 0, 257;
    FirstGiven(buckets, value[..]);
    SplitsAtStart(buckets, s[..], k);
    ghost var numbers := s[..k];
    for i := 2 to ntokens
      invariant n >= 257 && Splits(s[..], k, j, n) && s[..k] == numbers && j <= k
      invariant ValuesGiven(buckets, value[..], i, n)
      invariant forall b :: 0 <= b < |buckets| && buckets[b].term && PlaceOf(buckets, ntokens, b) >= i ==>
        value[b] == buckets[b].value
      invariant forall b :: 0 <= b < |buckets| && !buckets[b].term ==> value[b] == old(value[b])
    {
      ghost var b := StandsAt(buckets, v[..], i);
      ghost var before, was := value[..], n;
      if value[v[i]] == UNDEFINED {
        j, n := NextFree(s, k, j, n);
        DeclaredIsLarge(buckets, numbers, n);
        LargeIsDeclared(buckets, numbers, was, n);
        value[v[i]] := n;
        n := n + 1;
      }
      forall c | 0 <= c < |buckets| && PlaceOf(buckets, ntokens, c) >= i + 1 ensures c != b {
      }
      GiveNext(buckets, before, value[..], i, b, was, n);
    }
    AllGiven(buckets, value[..], n);
  }

  lemma AllGiven(buckets: seq<Bucket>, value: seq<int>, n: int)
    requires ValuesGiven(buckets, value, NTokens(buckets), n)
    ensures TokensGiven(buckets, value)
  {
    hide Terms, Nonterms, PlaceOf, NTokens, ValueGiven;
    forall b: nat | b < |buckets| && buckets[b].term ensures ValueGiven(buckets, value, b) {
      PlacesDistinct(buckets, b, b);
    }
  }

  lemma FirstGiven(buckets: seq<Bucket>, value: seq<int>)
    requires |buckets| > 0 && buckets[0].term && |value| == |buckets| && PlaceOf(buckets, NTokens(buckets), 0) == 1
    requires value[0] == if buckets[0].value == UNDEFINED then 256 else buckets[0].value
    ensures ValuesGiven(buckets, value, 2, 257)
  {
    hide Terms, Nonterms, PlaceOf, NTokens;
    forall b: nat | b < |buckets| && PlaceOf(buckets, NTokens(buckets), b) < 2 ensures b == 0 {
      PlacesDistinct(buckets, b, 0);
    }
  }

  lemma SplitsAtStart(buckets: seq<Bucket>, s: seq<int>, k: nat)
    requires k <= |s| && LargeNumbers(buckets, s[..k], NTokens(buckets))
    ensures Splits(s, k, 0, 257) && Nondecreasing(s[..k])
  {
    if k > 0 {
      assert s[..k][0] == s[0] && s[0] in s[..k];
    }
  }

  /** The tokens have distinct values, none of them 0. */
  ghost predicate DistinctValues(buckets: seq<Bucket>, value: seq<int>)
    requires |value| == |buckets|
  {
    && (forall b, c :: 0 <= b < c < |buckets| && buckets[b].term && buckets[c].term ==> value[b] != value[c])
    && forall b :: 0 <= b < |buckets| && buckets[b].term ==> value[b] > 0
  }

  /** The values come out distinct and nonzero exactly when the declared numbers are fit for use. */
  lemma GivenDistinct(buckets: seq<Bucket>, value: seq<int>)
    requires |buckets| > 0 && buckets[0].term && TokensGiven(buckets, value)
    requires forall b :: 0 <= b < |buckets| ==> buckets[b].value >= UNDEFINED
    ensures DistinctValues(buckets, value) <==> NumbersFit(buckets)
  {
    if NumbersFit(buckets) {
      FitGivesDistinct(buckets, value);
    }
    if DistinctValues(buckets, value) {
      DistinctGivesFit(buckets, value);
    }
  }

  lemma FitGivesDistinct(buckets: seq<Bucket>, value: seq<int>)
    requires |buckets| > 0 && buckets[0].term && TokensGiven(buckets, value) && NumbersFit(buckets)
    ensures DistinctValues(buckets, value)
  {
    forall b: nat, c: nat | b < c < |buckets| && buckets[b].term && buckets[c].term ensures value[b] != value[c] {
      assert ValueGiven(buckets, value, b) && ValueGiven(buckets, value, c);
      assert MadeUp(buckets, b) && value[b] == value[c] ==> HasMadeUp(buckets, value, b, value[c]);
    }
    forall b: nat | b < |buckets| && buckets[b].term ensures value[b] > 0 {
      assert ValueGiven(buckets, value, b);
    }
  }

  lemma DistinctGivesFit(buckets: seq<Bucket>, value: seq<int>)
    requires |buckets| > 0 && buckets[0].term && TokensGiven(buckets, value) && DistinctValues(buckets, value)
    ensures NumbersFit(buckets)
  {
    hide Used;
    assert ValueGiven(buckets, value, 0);
    forall b: nat | b < |buckets| && Explicit(buckets, b) ensures buckets[b].value > 0 && value[b] == buckets[b].value {
      assert ValueGiven(buckets, value, b);
    }
  }

  /** A failing input: `error` is declared without a number, another token with 256, and both get 256. */
  lemma ValuesCollide(value: seq<int>)
    requires TokensGiven(COLLIDING, value)
    ensures SymbolsRead(COLLIDING, 2) && !NumbersFit(COLLIDING) && value[0] == value[1] == 256
  {
    hide Used;
    assert Explicit(COLLIDING, 1);
    assert ValueGiven(COLLIDING, value, 0) && ValueGiven(COLLIDING, value, 1);
  }

  // ---------- The symbol arrays ----------

  /** out holds, under the number of each symbol, its entry of `field`. */
  ghost predicate Scattered(buckets: seq<Bucket>, goal: nat, field: seq<int>, out: seq<int>)
    requires |field| == |buckets|
  {
    |out| == |buckets| + 2 && forall b :: 0 <= b < |buckets| ==> ScatteredAt(buckets, goal, field, out, b)
  }

  ghost predicate ScatteredAt(buckets: seq<Bucket>, goal: nat, field: seq<int>, out: seq<int>, b: nat)
    requires b < |buckets| == |field|
  {
    IndexOf(buckets, goal, b) < |out| && out[IndexOf(buckets, goal, b)] == field[b]
  }

  ghost predicate ScatteredTo(buckets: seq<Bucket>, goal: nat, field: seq<int>, out: seq<int>, i: nat)
    requires |field| == |buckets|
  {
    |out| == |buckets| + 2 &&
    forall b :: 0 <= b < |buckets| && PlaceOf(buckets, NTokens(buckets), b) < i ==>
      ScatteredAt(buckets, goal, field, out, b)
  }

  lemma ScatterStep(buckets: seq<Bucket>, goal: nat, field: seq<int>, out: seq<int>, i: nat, b: nat)
    requires goal < |buckets| == |field| && !buckets[goal].term && ScatteredTo(buckets, goal, field, out, i)
    requires b < |buckets| && PlaceOf(buckets, NTokens(buckets), b) == i
    ensures IndexOf(buckets, goal, b) < |out| && IndexOf(buckets, goal, b) != 0
    ensures IndexOf(buckets, goal, b) != NTokens(buckets)
    ensures i < NTokens(buckets) ==> IndexOf(buckets, goal, b) == i
    ensures ScatteredTo(buckets, goal, field, out[IndexOf(buckets, goal, b) := field[b]], i + 1)
  {
    hide Terms, Nonterms, PlaceOf, NTokens;
    IndexDistinct(buckets, goal, b, b);
    PlacesFit(buckets);
    PlacesDistinct(buckets, b, b);
    var out' := out[IndexOf(buckets, goal, b) := field[b]];
    forall c | 0 <= c < |buckets| && PlaceOf(buckets, NTokens(buckets), c) < i + 1
      ensures ScatteredAt(buckets, goal, field, out', c)
    {
      IndexDistinct(buckets, goal, b, c);
      PlacesDistinct(buckets, b, c);
      if c != b {
        assert ScatteredAt(buckets, goal, field, out, c);
      }
    }
  }

  lemma ScatterOther(buckets: seq<Bucket>, goal: nat, field: seq<int>, out: seq<int>, i: nat, x: int)
    requires goal < |buckets| == |field| && !buckets[goal].term && ScatteredTo(buckets, goal, field, out, i)
    ensures NTokens(buckets) < |out| && ScatteredTo(buckets, goal, field, out[NTokens(buckets) := x], i)
    ensures i == NTokens(buckets) ==> ScatteredTo(buckets, goal, field, out[NTokens(buckets) := x], i + 1)
  {
    hide Terms, Nonterms, PlaceOf, NTokens, IndexOf;
    PlacesFit(buckets);
    var out' := out[NTokens(buckets) := x];
    forall c | 0 <= c < |buckets|
      ensures PlaceOf(buckets, NTokens(buckets), c) < i ==> ScatteredAt(buckets, goal, field, out', c)
      ensures PlaceOf(buckets, NTokens(buckets), c) != NTokens(buckets)
    {
      IndexDistinct(buckets, goal, c, c);
      PlacesDistinct(buckets, c, c);
      assert PlaceOf(buckets, NTokens(buckets), c) < i ==> ScatteredAt(buckets, goal, field, out, c);
    }
  }

  lemma ScatterBegins(buckets: seq<Bucket>, goal: nat, field: seq<int>, out: seq<int>)
    requires |field| == |buckets| && |out| == |buckets| + 2
    ensures ScatteredTo(buckets, goal, field, out, 1)
  {
    hide Terms, Nonterms, PlaceOf, NTokens, IndexOf;
    forall c | 0 <= c < |buckets| ensures PlaceOf(buckets, NTokens(buckets), c) >= 1 {
      PlacesDistinct(buckets, c, c);
    }
  }

  lemma ScatterEnds(buckets: seq<Bucket>, goal: nat, field: seq<int>, out: seq<int>)
    requires |field| == |buckets| && ScatteredTo(buckets, goal, field, out, |buckets| + 2)
    ensures Scattered(buckets, goal, field, out)
  {
    hide Terms, Nonterms, PlaceOf, NTokens, IndexOf;
    PlacesFit(buckets);
    forall c | 0 <= c < |buckets| ensures PlaceOf(buckets, NTokens(buckets), c) < |buckets| + 2 {
      PlacesDistinct(buckets, c, c);
    }
  }

  /** Writes a field of all symbols under their numbers. */
  method Scatter(buckets: seq<Bucket>, goal: nat, v: seq<nat>, ntokens: nat, index: seq<int>, field: seq<int>,
                 atStart: int, out: array<int>)
    requires goal < |buckets| && !buckets[goal].term && ntokens == NTokens(buckets) && IsPlaced(buckets, v, |buckets|)
    requires |index| == |field| == |buckets| && forall b :: 0 <= b < |buckets| ==> Numbered(buckets, goal, index, b)
    requires out.Length == |buckets| + 2
    modifies out
    ensures Scattered(buckets, goal, field, out[..]) && out[0] == 0 && ntokens < out.Length && out[ntokens] == atStart
  {
    hide Terms, Nonterms, PlaceOf, NTokens, IndexOf, ScatteredTo;
    PlacesFit(buckets);
    out[0] := 0;
    ScatterBegins(buckets, goal, field, out[..]);
    for i := 1 to ntokens
      invariant out[0] == 0 && ScatteredTo(buckets, goal, field, out[..], i)
    {
      ghost var b := StandsAt(buckets, v, i);
      ScatterStep(buckets, goal, field, out[..], i, b);
      out[i] := field[v[i]];
    }
    ScatterOther(buckets, goal, field, out[..], ntokens, atStart);
    out[ntokens] := atStart;
    for i := ntokens + 1 to |buckets| + 2
      invariant out[0] == 0 && out[ntokens] == atStart && ScatteredTo(buckets, goal, field, out[..], i)
    {
      ghost var b := StandsAt(buckets, v, i);
      assert Numbered(buckets, goal, index, b);
      ScatterStep(buckets, goal, field, out[..], i, b);
      out[index[v[i]]] := field[v[i]];
    }
    ScatterEnds(buckets, goal, field, out[..]);
  }

  /** The values packed for the symbols are as the driver needs them exactly when the declared
      numbers are fit for use. */
  lemma PackedValues(buckets: seq<Bucket>, goal: nat, value: seq<int>, values: seq<int>, g: Grammar)
    requires SymbolsRead(buckets, goal) && g.ntokens == NTokens(buckets) && g.nsyms == |buckets| + 2
    requires TokensGiven(buckets, value) && VarsNumbered(buckets, goal, value, 0, |buckets| + 2)
    requires Scattered(buckets, goal, value, values) && values[0] == 0 && g.ntokens < |values|
    requires values[g.ntokens] == -1
    ensures ValuesOk(g, values) <==> NumbersFit(buckets)
  {
    hide Terms, Nonterms, PlaceOf, NTokens, IndexOf, TokensGiven, NumbersFit;
    PlacesFit(buckets);
    GivenDistinct(buckets, value);
    forall b | 0 <= b < |buckets| ensures ScatteredAt(buckets, goal, value, values, b) {
    }
    forall x | g.ntokens <= x < g.nsyms ensures values[x] == x - g.ntokens - 1 {
      if x > g.ntokens {
        var b := IndexIsTaken(buckets, goal, x);
        PlacesDistinct(buckets, b, b);
        assert ScatteredAt(buckets, goal, value, values, b);
      }
    }
    if ValuesOk(g, values) {
      forall b: nat, c: nat | b < c < |buckets| && buckets[b].term && buckets[c].term ensures value[b] != value[c] {
        IndexDistinct(buckets, goal, b, c);
        IndexDistinct(buckets, goal, c, b);
        assert ScatteredAt(buckets, goal, value, values, b) && ScatteredAt(buckets, goal, value, values, c);
        DifferentValues(g, values, IndexOf(buckets, goal, b), IndexOf(buckets, goal, c));
      }
      forall b: nat | b < |buckets| && buckets[b].term ensures value[b] > 0 {
        IndexDistinct(buckets, goal, b, b);
        assert ScatteredAt(buckets, goal, value, values, b);
        DifferentValues(g, values, 0, IndexOf(buckets, goal, b));
      }
    }
    if NumbersFit(buckets) {
      forall t: nat, u: nat | t < u < g.ntokens ensures values[t] != values[u] && values[u] > 0 {
        var c := IndexIsTaken(buckets, goal, u);
        assert ScatteredAt(buckets, goal, value, values, c);
        if t > 0 {
          var b := IndexIsTaken(buckets, goal, t);
          assert ScatteredAt(buckets, goal, value, values, b);
          assert b < c ==> value[b] != value[c];
          assert c < b ==> value[c] != value[b];
        }
      }
    }
  }

  lemma DifferentValues(g: Grammar, values: seq<int>, t: nat, u: nat)
    requires ValuesOk(g, values) && t < g.ntokens && u < g.ntokens && t != u
    ensures values[t] != values[u] && values[t] >= 0 && values[u] >= 0
  {
  }

  /** What pack_symbols leaves behind. */
  datatype Symbols = Symbols(ntokens: nat, nsyms: nat, index: seq<int>, values: seq<int>, prec: seq<int>, assoc: seq<int>)

  ghost predicate IsPacked(buckets: seq<Bucket>, goal: nat, s: Symbols) {
    && s.ntokens == NTokens(buckets) < s.nsyms == |buckets| + 2
    && |s.index| == |buckets| && |s.values| == |s.prec| == |s.assoc| == s.nsyms
    && (forall b :: 0 <= b < |buckets| ==> SymbolPacked(buckets, goal, s, b))
    && TokensGiven(buckets, Taken(s.values, s.index))
    && s.values[END] == s.prec[END] == s.assoc[END] == 0
    && s.values[s.ntokens] == -1 && s.prec[s.ntokens] == s.assoc[s.ntokens] == 0
  }

  /** Symbol b is found under its number. */
  ghost predicate SymbolPacked(buckets: seq<Bucket>, goal: nat, s: Symbols, b: nat)
    requires b < |buckets| == |s.index|
  {
    && s.index[b] == IndexOf(buckets, goal, b) && 0 < s.index[b] < |s.prec| && s.index[b] < |s.assoc| &&
      s.index[b] < |s.values|
    && s.prec[s.index[b]] == buckets[b].prec && s.assoc[s.index[b]] == buckets[b].assoc
    && (buckets[b].term || s.values[s.index[b]] == s.index[b] - s.ntokens - 1)
  }

  /** The entries of an array of symbols, in the order of the buckets. */
  function Taken(field: seq<int>, index: seq<int>): (r: seq<int>)
    ensures |r| == |index|
    ensures forall b :: 0 <= b < |index| && 0 <= index[b] < |field| ==> r[b] == field[index[b]]
  {
    seq(|index|, b requires 0 <= b < |index| => if 0 <= index[b] < |field| then field[index[b]] else 0)
  }

  function Precs(buckets: seq<Bucket>): (r: seq<int>)
    ensures |r| == |buckets|
  {
    seq(|buckets|, b requires 0 <= b < |buckets| => buckets[b].prec)
  }

  function Assocs(buckets: seq<Bucket>): (r: seq<int>)
    ensures |r| == |buckets|
  {
    seq(|buckets|, b requires 0 <= b < |buckets| => buckets[b].assoc)
  }

  /** The numbers of all symbols, and the values of the nonterminals. */
  method NumberSymbols(buckets: seq<Bucket>, goal: nat, v: array<nat>, ntokens: nat)
    returns (index: array<int>, value: array<int>)
    requires SymbolsRead(buckets, goal) && ntokens == NTokens(buckets) && IsPlaced(buckets, v[..], |buckets|)
    ensures fresh(index) && fresh(value) && index.Length == value.Length == |buckets|
    ensures forall b :: 0 <= b < |buckets| ==> Numbered(buckets, goal, index[..], b)
    ensures VarsNumbered(buckets, goal, value[..], 0, |buckets| + 2)
    ensures forall b :: 0 <= b < |buckets| && buckets[b].term ==> value[b] == buckets[b].value
  {
    hide Terms, Nonterms, PlaceOf, NTokens, IndexOf;
    index := new int[|buckets|](_ => 0);
    value := new int[|buckets|](b requires 0 <= b < |buckets| => buckets[b].value);
    NumberTokens(buckets, goal, v, ntokens, index);
    NumberVars(buckets, goal, v, ntokens, ntokens + 1, index);
    NumberVars(buckets, goal, v, ntokens, 0, value);
    forall b | 0 <= b < |buckets| ensures Numbered(buckets, goal, index[..], b) {
      PlacesDistinct(buckets, b, b);
    }
  }

  method PackSymbols(buckets: seq<Bucket>, goal: nat) returns (s: Symbols)
    requires SymbolsRead(buckets, goal)
    ensures IsPacked(buckets, goal, s)
    ensures ValuesOk(Grammar(s.ntokens, s.nsyms, [], [], []), s.values) <==> NumbersFit(buckets)
  {
    hide Terms, Nonterms, PlaceOf, NTokens, IndexOf, TokensGiven, NumbersFit, IsPlaced, Scattered, ValuesOk,
      LargeNumbers, VarsNumbered, SymbolPacked, IsAt, Taken;
    var ntokens, nsyms, v := PlaceSymbols(buckets);
    var places := v[..];
    var index, value := NumberSymbols(buckets, goal, v, ntokens);
    var numbers := index[..];
    var symbolValue, symbolPrec, symbolAssoc := new int[nsyms], new int[nsyms], new int[nsyms];
    PlacesFit(buckets);
    var k := SortLargeNumbers(buckets, v, ntokens, value, symbolValue);
    ghost var before := value[..];
    GiveValues(buckets, v, ntokens, value, symbolValue, k);
    VarsKept(buckets, goal, before, value[..]);
    Scatter(buckets, goal, places, ntokens, numbers, value[..], -1, symbolValue);
    Scatter(buckets, goal, places, ntokens, numbers, Precs(buckets), 0, symbolPrec);
    Scatter(buckets, goal, places, ntokens, numbers, Assocs(buckets), 0, symbolAssoc);
    s := Symbols(ntokens, nsyms, numbers, symbolValue[..], symbolPrec[..], symbolAssoc[..]);
    PackedValues(buckets, goal, value[..], s.values, Grammar(ntokens, nsyms, [], [], []));
    forall b | 0 <= b < |buckets|
      ensures SymbolPacked(buckets, goal, s, b) && IsAt(s.values, s.index[b], value[..][b])
    {
      AllPacked(buckets, goal, s, value[..], b);
    }
    AllTaken(s.values, s.index, value[..]);
  }

  lemma VarsKept(buckets: seq<Bucket>, goal: nat, before: seq<int>, after: seq<int>)
    requires VarsNumbered(buckets, goal, before, 0, |buckets| + 2) && |after| == |before|
    requires forall b :: 0 <= b < |buckets| && !buckets[b].term ==> after[b] == before[b]
    ensures VarsNumbered(buckets, goal, after, 0, |buckets| + 2)
  {
    hide PlaceOf, IndexOf, NTokens;
  }

  ghost predicate IsAt(field: seq<int>, i: int, x: int) {
    0 <= i < |field| && field[i] == x
  }

  lemma AllTaken(field: seq<int>, index: seq<int>, value: seq<int>)
    requires |index| == |value| && forall b :: 0 <= b < |index| ==> IsAt(field, index[b], value[b])
    ensures Taken(field, index) == value
  {
    assert forall b :: 0 <= b < |index| ==> IsAt(field, index[b], value[b]);
  }

  lemma AllPacked(buckets: seq<Bucket>, goal: nat, s: Symbols, value: seq<int>, b: nat)
    requires SymbolsRead(buckets, goal) && b < |buckets| == |s.index| == |value| && Numbered(buckets, goal, s.index, b)
    requires s.ntokens == NTokens(buckets) && VarsNumbered(buckets, goal, value, 0, |buckets| + 2)
    requires Scattered(buckets, goal, value, s.values)
    requires Scattered(buckets, goal, Precs(buckets), s.prec)
    requires Scattered(buckets, goal, Assocs(buckets), s.assoc)
    ensures SymbolPacked(buckets, goal, s, b) && IsAt(s.values, s.index[b], value[b])
  {
    hide Terms, Nonterms, PlaceOf, NTokens, IndexOf;
    IndexDistinct(buckets, goal, b, b);
    PlacesFit(buckets);
    PlacesDistinct(buckets, b, b);
    assert ScatteredAt(buckets, goal, value, s.values, b);
    assert ScatteredAt(buckets, goal, Precs(buckets), s.prec, b);
    assert ScatteredAt(buckets, goal, Assocs(buckets), s.assoc, b);
  }

  // ---------- pack_grammar ----------

  /** A rule as read; prec is UNDEFINED unless the rule has a %prec clause. */
  datatype RuleRead = RuleRead(lhs: nat, rhs: seq<nat>, prec: int, assoc: int)

  ghost predicate RulesRead(buckets: seq<Bucket>, rules: seq<RuleRead>) {
    forall k :: 0 <= k < |rules| ==> RuleOk(buckets, rules[k])
  }

  ghost predicate RuleOk(buckets: seq<Bucket>, rule: RuleRead) {
    && rule.lhs < |buckets| && !buckets[rule.lhs].term
    && forall m :: 0 <= m < |rule.rhs| ==> rule.rhs[m] < |buckets|
  }

  /** Where the k-th rule starts in pitem and in ritem: after four reserved places, each rule
      takes its symbols and an end marker. */
  ghost function Offset(rules: seq<RuleRead>, k: nat): nat
    requires k <= |rules|
  {
    if k == 0 then 4 else Offset(rules, k - 1) + |rules[k - 1].rhs| + 1
  }

  /** pitem lists the symbols of the rules in order, each rule ended by a null (-1). */
  ghost predicate IsItems(rules: seq<RuleRead>, pitem: seq<int>) {
    |pitem| == Offset(rules, |rules|) && forall k :: 0 <= k < |rules| ==> ItemsAt(rules[k], pitem, Offset(rules, k))
  }

  ghost predicate ItemsAt(rule: RuleRead, pitem: seq<int>, p: nat) {
    && p + |rule.rhs| < |pitem| && pitem[p + |rule.rhs|] == -1
    && forall m :: 0 <= m < |rule.rhs| ==> Listed(pitem, p, m) == rule.rhs[m]
  }

  function Listed(pitem: seq<int>, p: nat, m: nat): int
    requires p + m < |pitem|
  {
    pitem[p + m]
  }

  function Numbers(index: seq<int>, rhs: seq<nat>): (w: seq<int>)
    requires forall m :: 0 <= m < |rhs| ==> rhs[m] < |index|
    ensures |w| == |rhs|
  {
    seq(|rhs|, m requires 0 <= m < |rhs| => index[rhs[m]])
  }

  /** Place m holds the last token among the first n symbols of rhs. */
  ghost predicate LastTokenAt(buckets: seq<Bucket>, rhs: seq<nat>, n: nat, m: nat)
    requires n <= |rhs| && forall l :: 0 <= l < |rhs| ==> rhs[l] < |buckets|
  {
    m < n && buckets[rhs[m]].term && forall l :: m < l < n ==> !buckets[rhs[l]].term
  }

  ghost predicate NoToken(buckets: seq<Bucket>, rhs: seq<nat>, n: nat)
    requires n <= |rhs| && forall l :: 0 <= l < |rhs| ==> rhs[l] < |buckets|
  {
    forall m :: 0 <= m < n ==> !buckets[rhs[m]].term
  }

  /** What the last token among the first n symbols of rhs gives to the rule. */
  ghost predicate TokenGives(buckets: seq<Bucket>, rhs: seq<nat>, n: nat, prec: int, assoc: int)
    requires n <= |rhs| && forall l :: 0 <= l < |rhs| ==> rhs[l] < |buckets|
  {
    && (forall m: nat :: LastTokenAt(buckets, rhs, n, m) ==>
          prec == buckets[rhs[m]].prec && assoc == buckets[rhs[m]].assoc)
    && (NoToken(buckets, rhs, n) ==> prec == 0 && assoc == 0)
  }

  /** ritem once n rules are laid out. */
  ghost function Laid(index: seq<int>, goalIndex: int, rules: seq<RuleRead>, n: nat): (r: seq<int>)
    requires n <= |rules| && forall k, m :: 0 <= k < |rules| && 0 <= m < |rules[k].rhs| ==> rules[k].rhs[m] < |index|
    ensures |r| == Offset(rules, n)
  {
    if n == 0 then [-1, goalIndex, END, -2]
    else Laid(index, goalIndex, rules, n - 1) + Numbers(index, rules[n - 1].rhs) + [-(n + 2)]
  }

  /** The copying loop for one rule: its symbols by number, the end marker, and the last token met. */
  method PackRule(buckets: seq<Bucket>, index: seq<int>, ghost rule: RuleRead, pitem: seq<int>, start: nat, i: nat)
    returns (items: seq<int>, j: nat, prec: int, assoc: int)
    requires RuleOk(buckets, rule) && |index| == |buckets| && ItemsAt(rule, pitem, start)
    ensures j == start + |rule.rhs| + 1 && items == Numbers(index, rule.rhs) + [-(i as int)]
    ensures TokenGives(buckets, rule.rhs, |rule.rhs|, prec, assoc)
  {
    hide Numbers, TokenGives, ItemsAt;
    ghost var rhs := rule.rhs;
    j, assoc, prec, items := start, 0, 0, [];
    NextItem(buckets, index, rule, pitem, start, 0);
    assert TokenGives(buckets, rhs, 0, prec, assoc) by { GivesNothing(buckets, rhs); }
    while pitem[j] >= 0
      invariant start <= j <= start + |rhs| && j < |pitem|
      invariant pitem[j] >= 0 <==> j - start < |rhs|
      invariant items == Numbers(index, rhs)[..j - start]
      invariant TokenGives(buckets, rhs, j - start, prec, assoc)
      decreases |pitem| - j
    {
      NextItem(buckets, index, rule, pitem, start, j - start);
      NextItem(buckets, index, rule, pitem, start, j - start + 1);
      items := items + [index[pitem[j]]];
      GivesNext(buckets, rhs, j - start, prec, assoc);
      if buckets[pitem[j]].term {
        prec := buckets[pitem[j]].prec;
        assoc := buckets[pitem[j]].assoc;
      }
      j := j + 1;
    }
    assert rhs[..|rhs|] == rhs && Numbers(index, rhs)[..|rhs|] == Numbers(index, rhs);
    items := items + [-(i as int)];
    j := j + 1;
  }

  /** The m-th item of a rule, and what taking it adds. */
  lemma NextItem(buckets: seq<Bucket>, index: seq<int>, rule: RuleRead, pitem: seq<int>, start: nat, m: nat)
    requires RuleOk(buckets, rule) && ItemsAt(rule, pitem, start) && |index| == |buckets| && m <= |rule.rhs|
    ensures start + m < |pitem| && (pitem[start + m] >= 0 <==> m < |rule.rhs|)
    ensures m < |rule.rhs| ==> pitem[start + m] == rule.rhs[m] < |buckets|
    ensures m < |rule.rhs| ==> Numbers(index, rule.rhs)[..m + 1] == Numbers(index, rule.rhs)[..m] + [index[rule.rhs[m]]]
    ensures Numbers(index, rule.rhs)[..0] == []
  {
    if m < |rule.rhs| {
      assert Listed(pitem, start, m) == rule.rhs[m];
    }
  }

  lemma GivesNothing(buckets: seq<Bucket>, rhs: seq<nat>)
    requires forall l :: 0 <= l < |rhs| ==> rhs[l] < |buckets|
    ensures TokenGives(buckets, rhs, 0, 0, 0)
  {
  }

  /** A further symbol takes over if it is a token, and otherwise changes nothing. */
  lemma GivesNext(buckets: seq<Bucket>, rhs: seq<nat>, n: nat, prec: int, assoc: int)
    requires forall l :: 0 <= l < |rhs| ==> rhs[l] < |buckets|
    requires n < |rhs| && TokenGives(buckets, rhs, n, prec, assoc)
    ensures if buckets[rhs[n]].term then TokenGives(buckets, rhs, n + 1, buckets[rhs[n]].prec, buckets[rhs[n]].assoc)
            else TokenGives(buckets, rhs, n + 1, prec, assoc)
  {
    if !buckets[rhs[n]].term {
      forall m: nat | LastTokenAt(buckets, rhs, n + 1, m) ensures LastTokenAt(buckets, rhs, n, m) {
      }
    }
  }

  /** The precedence of a rule: its own unless that is undefined (-1), and then that of its last token. */
  ghost predicate HasPrec(buckets: seq<Bucket>, rule: RuleRead, prec: int, assoc: int)
    requires RuleOk(buckets, rule)
  {
    if rule.prec != -1 then prec == rule.prec && assoc == rule.assoc
    else TokenGives(buckets, rule.rhs, |rule.rhs|, prec, assoc)
  }

  /** The header of rule k + 3 as read. */
  ghost predicate RuleHeader(rules: seq<RuleRead>, plhs: seq<nat>, prec: seq<int>, assoc: seq<int>, k: nat) {
    && k < |rules| && k + 3 < |plhs| && k + 3 < |prec| && k + 3 < |assoc|
    && plhs[k + 3] == rules[k].lhs && prec[k + 3] == rules[k].prec && assoc[k + 3] == rules[k].assoc
  }

  /** The headers of rule k + 3 as packed. */
  ghost predicate RulePacked(buckets: seq<Bucket>, index: seq<int>, rules: seq<RuleRead>, rlhs: seq<int>,
                             rrhs: seq<nat>, rprec: seq<int>, rassoc: seq<int>, k: nat)
    requires k < |rules| && RuleOk(buckets, rules[k]) && |index| == |buckets|
  {
    && k + 3 < |rlhs| && k + 3 < |rrhs| && k + 3 < |rprec| && k + 3 < |rassoc|
    && rlhs[k + 3] == index[rules[k].lhs] && rrhs[k + 3] == Offset(rules, k)
    && HasPrec(buckets, rules[k], rprec[k + 3], rassoc[k + 3])
  }

  ghost predicate HeadersPacked(buckets: seq<Bucket>, index: seq<int>, rules: seq<RuleRead>, rlhs: seq<int>,
                                rrhs: seq<nat>, rprec: seq<int>, rassoc: seq<int>, n: nat)
    requires RulesRead(buckets, rules) && |index| == |buckets| && n <= |rules|
  {
    && |rlhs| == |rrhs| == |rprec| == |rassoc| == n + 3
    && rlhs[0] == rlhs[1] == 0 && rrhs[0] == rrhs[1] == 0 && rrhs[2] == 1
    && forall k :: 0 <= k < n ==> RulePacked(buckets, index, rules, rlhs, rrhs, rprec, rassoc, k)
  }

  method PackGrammar(buckets: seq<Bucket>, s: Symbols, goalIndex: int, ghost rules: seq<RuleRead>, plhs: seq<nat>,
                     pitem: seq<int>, prec: seq<int>, assoc: seq<int>)
    returns (ritem: seq<int>, rlhs: seq<int>, rrhs: seq<nat>, rprec: seq<int>, rassoc: seq<int>)
    requires RulesRead(buckets, rules) && IsItems(rules, pitem) && |s.index| == |buckets|
    requires |plhs| == |prec| == |assoc| == |rules| + 3
    requires forall k :: 0 <= k < |rules| ==> RuleHeader(rules, plhs, prec, assoc, k)
    ensures ritem == Laid(s.index, goalIndex, rules, |rules|)
    ensures |rrhs| == |rules| + 4 && rrhs[|rules| + 3] == |ritem|
    ensures HeadersPacked(buckets, s.index, rules, rlhs, rrhs[..|rules| + 3], rprec, rassoc, |rules|)
    ensures rlhs[2] == s.ntokens
  {
    hide ItemsAt, Offset, TokenGives, Numbers, HeadersPacked;
    ritem, rlhs, rrhs := [-1, goalIndex, 0, -2], [0, 0, s.ntokens], [0, 0, 1];
    rprec, rassoc := prec[..3], assoc[..3];
    FirstOffset(rules);
    assert HeadersPacked(buckets, s.index, rules, rlhs, rrhs, rprec, rassoc, 0) by {
      NoHeaders(buckets, s.index, rules, rlhs, rrhs, rprec, rassoc);
    }
    var j := 4;
    for i := 3 to |plhs|
      invariant j == Offset(rules, i - 3) && ritem == Laid(s.index, goalIndex, rules, i - 3)
      invariant HeadersPacked(buckets, s.index, rules, rlhs, rrhs, rprec, rassoc, i - 3) && |rlhs| == i
      invariant rlhs[2] == s.ntokens
    {
      ghost var k: nat := i - 3;
      assert RuleHeader(rules, plhs, prec, assoc, k) && RuleOk(buckets, rules[k]);
      assert ItemsAt(rules[k], pitem, Offset(rules, k));
      HeaderLengths(buckets, s.index, rules, rlhs, rrhs, rprec, rassoc, k);
      ghost var rlhs', rrhs', rprec', rassoc' := rlhs, rrhs, rprec, rassoc;
      rlhs := rlhs + [s.index[plhs[i]]];
      rrhs := rrhs + [j];
      var items, next, p, as' := PackRule(buckets, s.index, rules[k], pitem, j, i);
      ritem := ritem + items;
      j := next;
      if prec[i] == UNDEFINED {
        rprec, rassoc := rprec + [p], rassoc + [as'];
      } else {
        rprec, rassoc := rprec + [prec[i]], rassoc + [assoc[i]];
      }
      HeaderNext(buckets, s.index, rules, rlhs', rrhs', rprec', rassoc', rlhs, rrhs, rprec, rassoc, k);
      LaidNext(s.index, goalIndex, rules, k);
    }
    HeaderLengths(buckets, s.index, rules, rlhs, rrhs, rprec, rassoc, |rules|);
    rrhs := rrhs + [j];
    assert rrhs[..|rules| + 3] + [j] == rrhs;
  }

  lemma NoHeaders(buckets: seq<Bucket>, index: seq<int>, rules: seq<RuleRead>, rlhs: seq<int>, rrhs: seq<nat>,
                  rprec: seq<int>, rassoc: seq<int>)
    requires RulesRead(buckets, rules) && |index| == |buckets| && |rlhs| == |rrhs| == |rprec| == |rassoc| == 3
    requires rlhs[0] == rlhs[1] == 0 && rrhs[0] == rrhs[1] == 0 && rrhs[2] == 1
    ensures HeadersPacked(buckets, index, rules, rlhs, rrhs, rprec, rassoc, 0)
  {
  }

  lemma HeaderLengths(buckets: seq<Bucket>, index: seq<int>, rules: seq<RuleRead>, rlhs: seq<int>, rrhs: seq<nat>,
                      rprec: seq<int>, rassoc: seq<int>, n: nat)
    requires RulesRead(buckets, rules) && |index| == |buckets| && n <= |rules|
    requires HeadersPacked(buckets, index, rules, rlhs, rrhs, rprec, rassoc, n)
    ensures |rlhs| == |rrhs| == |rprec| == |rassoc| == n + 3
  {
  }

  lemma FirstOffset(rules: seq<RuleRead>)
    ensures Offset(rules, 0) == 4
  {
  }

  lemma LaidNext(index: seq<int>, goalIndex: int, rules: seq<RuleRead>, n: nat)
    requires n < |rules| && forall k, m :: 0 <= k < |rules| && 0 <= m < |rules[k].rhs| ==> rules[k].rhs[m] < |index|
    ensures Laid(index, goalIndex, rules, n + 1) == Laid(index, goalIndex, rules, n) + (Numbers(index, rules[n].rhs) + [-(n + 3)])
    ensures Offset(rules, n + 1) == Offset(rules, n) + |rules[n].rhs| + 1
  {
  }

  lemma HeaderNext(buckets: seq<Bucket>, index: seq<int>, rules: seq<RuleRead>, rlhs: seq<int>, rrhs: seq<nat>,
                   rprec: seq<int>, rassoc: seq<int>,
                   rlhs': seq<int>, rrhs': seq<nat>, rprec': seq<int>, rassoc': seq<int>, k: nat)
    requires RulesRead(buckets, rules) && |index| == |buckets| && k < |rules|
    requires HeadersPacked(buckets, index, rules, rlhs, rrhs, rprec, rassoc, k)
    requires |rlhs'| == |rrhs'| == |rprec'| == |rassoc'| == k + 4
    requires rlhs <= rlhs' && rrhs <= rrhs' && rprec <= rprec' && rassoc <= rassoc'
    requires RuleOk(buckets, rules[k]) && RulePacked(buckets, index, rules, rlhs', rrhs', rprec', rassoc', k)
    ensures HeadersPacked(buckets, index, rules, rlhs', rrhs', rprec', rassoc', k + 1)
  {
    forall l | 0 <= l < k ensures RulePacked(buckets, index, rules, rlhs', rrhs', rprec', rassoc', l) {
      assert RulePacked(buckets, index, rules, rlhs, rrhs, rprec, rassoc, l);
    }
  }

  // ---------- The packed grammar is valid and says what was read ----------

  ghost predicate IndicesOk(buckets: seq<Bucket>, rules: seq<RuleRead>, index: seq<int>) {
    |index| == |buckets| && forall k, m :: 0 <= k < |rules| && 0 <= m < |rules[k].rhs| ==> rules[k].rhs[m] < |index|
  }

  lemma {:induction false} LaidPrefix(index: seq<int>, goalIndex: int, rules: seq<RuleRead>, k: nat, n: nat)
    requires k <= n <= |rules|
    requires forall k, m :: 0 <= k < |rules| && 0 <= m < |rules[k].rhs| ==> rules[k].rhs[m] < |index|
    ensures Laid(index, goalIndex, rules, k) <= Laid(index, goalIndex, rules, n)
    decreases n
  {
    if k < n {
      LaidPrefix(index, goalIndex, rules, k, n - 1);
    }
  }

  /** Where rule k + 3 lies in ritem. */
  lemma LaidAt(index: seq<int>, goalIndex: int, rules: seq<RuleRead>, k: nat)
    requires k < |rules| && forall k, m :: 0 <= k < |rules| && 0 <= m < |rules[k].rhs| ==> rules[k].rhs[m] < |index|
    ensures var ritem, p, n := Laid(index, goalIndex, rules, |rules|), Offset(rules, k), |rules[k].rhs|;
      p + n < |ritem| && ritem[p..p + n] == Numbers(index, rules[k].rhs) && ritem[p + n] == -(k + 3)
      && Offset(rules, k + 1) == p + n + 1
  {
    hide Numbers, Laid;
    LaidPrefix(index, goalIndex, rules, k + 1, |rules|);
    LaidNext(index, goalIndex, rules, k);
    var ritem, p, n := Laid(index, goalIndex, rules, |rules|), Offset(rules, k), |rules[k].rhs|;
    var part := Laid(index, goalIndex, rules, k + 1);
    assert ritem[..|part|] == part;
    assert part[p..p + n] == Numbers(index, rules[k].rhs);
    assert ritem[p..p + n] == ritem[..|part|][p..p + n];
    assert part[p + n] == -(k + 3) && ritem[p + n] == ritem[..|part|][p + n];
  }

  /** The grammar holds rule k of the input, by numbers, as its rule k + 3. */
  ghost predicate Says(g: Grammar, index: seq<int>, rules: seq<RuleRead>, k: nat)
    requires Valid(g)
  {
    && k < |rules| && IsRule(g, k + 3) && rules[k].lhs < |index| && g.rlhs[k + 3] == index[rules[k].lhs]
    && (forall m :: 0 <= m < |rules[k].rhs| ==> rules[k].rhs[m] < |index|)
    && Rhs(g, k + 3) == Numbers(index, rules[k].rhs)
  }

  ghost predicate IsLaidOut(buckets: seq<Bucket>, goal: nat, s: Symbols, rules: seq<RuleRead>, g: Grammar) {
    && SymbolsRead(buckets, goal) && IsPacked(buckets, goal, s) && RulesRead(buckets, rules)
    && g.ntokens == s.ntokens && g.nsyms == s.nsyms
    && IndicesOk(buckets, rules, s.index) && g.ritem == Laid(s.index, NTokens(buckets) + 1, rules, |rules|)
    && |g.rlhs| == |rules| + 3 && |g.rrhs| == |rules| + 4 && g.rrhs[|rules| + 3] == |g.ritem|
    && g.rlhs[0] == g.rlhs[1] == 0 && g.rlhs[2] == s.ntokens && g.rrhs[0] == g.rrhs[1] == 0 && g.rrhs[2] == 1
    && forall k :: 0 <= k < |rules| ==>
      g.rrhs[k + 3] == Offset(rules, k) && rules[k].lhs < |s.index| && g.rlhs[k + 3] == s.index[rules[k].lhs]
  }

  lemma RuleIsValid(buckets: seq<Bucket>, goal: nat, s: Symbols, rules: seq<RuleRead>, g: Grammar, k: nat)
    requires IsLaidOut(buckets, goal, s, rules, g) && k < |rules|
    ensures ValidRule(g, k + 3)
    ensures g.rrhs[k + 4] == g.rrhs[k + 3] + |rules[k].rhs| + 1
    ensures g.ritem[g.rrhs[k + 3]..g.rrhs[k + 4] - 1] == Numbers(s.index, rules[k].rhs)
  {
    hide Offset, Laid, NTokens, IndexOf;
    var rule := rules[k];
    assert RuleOk(buckets, rule);
    LaidAt(s.index, NTokens(buckets) + 1, rules, k);
    if k + 1 == |rules| {
      assert g.rrhs[k + 4] == Offset(rules, k + 1);
    } else {
      assert g.rrhs[(k + 1) + 3] == Offset(rules, k + 1);
    }
    IndexDistinct(buckets, goal, rule.lhs, rule.lhs);
    assert SymbolPacked(buckets, goal, s, rule.lhs);
    var w := Numbers(s.index, rule.rhs);
    forall i | g.rrhs[k + 3] <= i < g.rrhs[k + 4] - 1
      ensures 0 < g.ritem[i] < g.nsyms && g.ritem[i] != g.ntokens
    {
      var m := i - g.rrhs[k + 3];
      assert g.ritem[g.rrhs[k + 3]..g.rrhs[k + 4] - 1][m] == w[m];
      IndexDistinct(buckets, goal, rule.rhs[m], rule.rhs[m]);
      assert SymbolPacked(buckets, goal, s, rule.rhs[m]);
    }
  }

  lemma LaidOutIsValid(buckets: seq<Bucket>, goal: nat, s: Symbols, rules: seq<RuleRead>, g: Grammar)
    requires IsLaidOut(buckets, goal, s, rules, g)
    ensures Valid(g) && forall k :: 0 <= k < |rules| ==> Says(g, s.index, rules, k)
  {
    hide Offset, NTokens, IndexOf, SymbolPacked, ValidRule;
    PlacesFit(buckets);
    IndexDistinct(buckets, goal, 0, 0);
    IndexDistinct(buckets, goal, goal, goal);
    LaidPrefix(s.index, NTokens(buckets) + 1, rules, 0, |rules|);
    FirstOffset(rules);
    assert g.rrhs[3] == 4 && g.ritem[..4] == [-1, NTokens(buckets) + 1, END, -2];
    forall r | FIRST_RULE <= r < |g.rlhs| ensures ValidRule(g, r) {
      if r > FIRST_RULE {
        RuleIsValid(buckets, goal, s, rules, g, r - 3);
      } else {
        AcceptIsValid(g);
      }
    }
    forall k | 0 <= k < |rules| ensures Says(g, s.index, rules, k) {
      RuleIsValid(buckets, goal, s, rules, g, k);
      assert RuleOk(buckets, rules[k]);
    }
  }

  lemma AcceptIsValid(g: Grammar)
    requires |g.rrhs| == |g.rlhs| + 1 && |g.rlhs| >= 3 && g.rrhs[2] == 1 && g.rrhs[3] == 4 && |g.ritem| >= 4
    requires g.ritem[..4] == [-1, g.ntokens + 1, END, -2] && g.ntokens + 1 < g.nsyms
    ensures ValidRule(g, FIRST_RULE)
  {
    var head := g.ritem[..4];
    assert g.ritem[0] == head[0] && g.ritem[1] == head[1] && g.ritem[2] == head[2] && g.ritem[3] == head[3];
  }

  /** The grammar, with its precedences and symbol values, is the one that was read: the goal, the symbols
      under the numbers in `index`, and the rules, no more and no fewer. */
  ghost predicate IsRead(buckets: seq<Bucket>, goal: nat, rules: seq<RuleRead>, g: Grammar, pr: Precedences,
                         values: seq<int>, index: seq<int>)
    requires Valid(g)
  {
    && IsPacked(buckets, goal, Symbols(g.ntokens, g.nsyms, index, values, pr.symbolPrec, pr.symbolAssoc))
    && goal < |buckets| && index[goal] == Goal(g) && |g.rlhs| == |rules| + 3
    && (forall k :: 0 <= k < |rules| ==> Says(g, index, rules, k))
    && forall k :: 0 <= k < |rules| ==> PrecSays(buckets, rules, pr.rulePrec, pr.ruleAssoc, k)
  }

  /** pack_symbols and pack_grammar together: a valid grammar that says what was read, with
      token values that are usable exactly when the declared numbers are. */
  method ReadGrammar(buckets: seq<Bucket>, goal: nat, ghost rules: seq<RuleRead>, plhs: seq<nat>, pitem: seq<int>,
                     prec: seq<int>, assoc: seq<int>)
    returns (g: Grammar, pr: Precedences, values: seq<int>, index: seq<int>)
    requires SymbolsRead(buckets, goal) && RulesRead(buckets, rules) && IsItems(rules, pitem)
    requires |plhs| == |prec| == |assoc| == |rules| + 3
    requires forall k :: 0 <= k < |rules| ==> RuleHeader(rules, plhs, prec, assoc, k)
    ensures Valid(g) && Covers(g, pr) && IsRead(buckets, goal, rules, g, pr, values, index)
    ensures |g.rlhs| == |rules| + 3
    ensures forall k :: 0 <= k < |rules| ==>
      (rules[k].prec != -1 ==> pr.rulePrec[k + 3] == rules[k].prec && pr.ruleAssoc[k + 3] == rules[k].assoc)
    ensures forall k, m: nat :: 0 <= k < |rules| && rules[k].prec == -1 && m < |rules[k].rhs| ==>
      var b := rules[k].rhs[m];
      (buckets[b].term && (forall l :: m < l < |rules[k].rhs| ==> !buckets[rules[k].rhs[l]].term) ==>
         pr.rulePrec[k + 3] == buckets[b].prec && pr.ruleAssoc[k + 3] == buckets[b].assoc)
    ensures forall k :: 0 <= k < |rules| && rules[k].prec == -1 ==>
      ((forall l :: 0 <= l < |rules[k].rhs| ==> !buckets[rules[k].rhs[l]].term) ==>
         pr.rulePrec[k + 3] == 0 && pr.ruleAssoc[k + 3] == 0)
    ensures ValuesOk(g, values) <==> NumbersFit(buckets)
  {
    hide NTokens, IndexOf, Offset, Laid, NumbersFit, ValuesOk, Valid, SymbolPacked, Says, RuleOk;
    var s := PackSymbols(buckets, goal);
    assert SymbolPacked(buckets, goal, s, goal);
    var ritem, rlhs, rrhs, rprec, rassoc := PackGrammar(buckets, s, s.index[goal], rules, plhs, pitem, prec, assoc);
    g := Grammar(s.ntokens, s.nsyms, ritem, rlhs, rrhs);
    pr := Precedences(s.prec, s.assoc, rprec, rassoc);
    values, index := s.values, s.index;
    GoalNumber(buckets, goal, s);
    HeadersSay(buckets, s.index, rules, rlhs, rrhs[..|rules| + 3], rprec, rassoc);
    LaidOutIsValid(buckets, goal, s, rules, g);
    forall k | 0 <= k < |rules| ensures HasPrec(buckets, rules[k], rprec[k + 3], rassoc[k + 3]) {
      assert PrecSays(buckets, rules, rprec, rassoc, k);
    }
    forall k, m: nat | 0 <= k < |rules| && m < |rules[k].rhs| && buckets[rules[k].rhs[m]].term &&
      forall l :: m < l < |rules[k].rhs| ==> !buckets[rules[k].rhs[l]].term
      ensures LastTokenAt(buckets, rules[k].rhs, |rules[k].rhs|, m)
    {
    }
    ValuesOfGrammar(Grammar(s.ntokens, s.nsyms, [], [], []), g, values);
  }

  lemma ValuesOfGrammar(g: Grammar, h: Grammar, values: seq<int>)
    requires g.ntokens == h.ntokens && g.nsyms == h.nsyms
    ensures ValuesOk(g, values) <==> ValuesOk(h, values)
  {
  }

  lemma GoalNumber(buckets: seq<Bucket>, goal: nat, s: Symbols)
    requires SymbolsRead(buckets, goal) && IsPacked(buckets, goal, s)
    ensures s.index[goal] == NTokens(buckets) + 1
  {
    hide NTokens, PlaceOf;
    assert SymbolPacked(buckets, goal, s, goal);
  }

  ghost predicate PrecSays(buckets: seq<Bucket>, rules: seq<RuleRead>, rulePrec: seq<int>, ruleAssoc: seq<int>, k: nat)
  {
    && k < |rules| && RuleOk(buckets, rules[k]) && k + 3 < |rulePrec| && k + 3 < |ruleAssoc|
    && HasPrec(buckets, rules[k], rulePrec[k + 3], ruleAssoc[k + 3])
  }

  lemma HeadersSay(buckets: seq<Bucket>, index: seq<int>, rules: seq<RuleRead>, rlhs: seq<int>, rrhs: seq<nat>,
                   rprec: seq<int>, rassoc: seq<int>)
    requires RulesRead(buckets, rules) && |index| == |buckets|
    requires HeadersPacked(buckets, index, rules, rlhs, rrhs, rprec, rassoc, |rules|)
    ensures |rlhs| == |rrhs| == |rprec| == |rassoc| == |rules| + 3
    ensures rlhs[0] == rlhs[1] == 0 && rrhs[0] == rrhs[1] == 0 && rrhs[2] == 1
    ensures IndicesOk(buckets, rules, index)
    ensures forall k :: 0 <= k < |rules| ==>
      rrhs[k + 3] == Offset(rules, k) && rules[k].lhs < |index| && rlhs[k + 3] == index[rules[k].lhs]
    ensures forall k :: 0 <= k < |rules| ==> PrecSays(buckets, rules, rprec, rassoc, k)
  {
    hide Offset, TokenGives;
    forall k | 0 <= k < |rules|
      ensures rrhs[k + 3] == Offset(rules, k) && rules[k].lhs < |index| && rlhs[k + 3] == index[rules[k].lhs]
      ensures PrecSays(buckets, rules, rprec, rassoc, k)
    {
      assert RuleOk(buckets, rules[k]) && RulePacked(buckets, index, rules, rlhs, rrhs, rprec, rassoc, k);
    }
    forall k, m | 0 <= k < |rules| && 0 <= m < |rules[k].rhs| ensures rules[k].rhs[m] < |index| {
      assert RuleOk(buckets, rules[k]);
    }
  }
}
