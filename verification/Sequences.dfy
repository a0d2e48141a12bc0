/** Sequences of numbers: ascending order, repetition, and the sets they list. */
module Sequences {

  predicate Ascending(s: seq<nat>) {
    forall i, j :: 0 <= i < j < |s| ==> s[i] < s[j]
  }

  ghost predicate NoRepeats(s: seq<nat>) {
    forall i, j :: 0 <= i < j < |s| ==> s[i] != s[j]
  }

  ghost function SetOf(s: seq<nat>): set<nat> {
    set x | x in s
  }

  lemma {:induction false} AscendingLength(s: seq<nat>, n: nat)
    requires Ascending(s) && forall k :: 0 <= k < |s| ==> s[k] < n
    ensures |s| <= n
  {
    if |s| > 0 {
      AscendingLength(s[..|s| - 1], s[|s| - 1]);
    }
  }

  lemma {:induction false} DistinctBound(s: seq<nat>, n: nat)
    requires NoRepeats(s)
    requires forall i :: 0 <= i < |s| ==> s[i] < n
    ensures |s| <= n
  {
    assert |s| == 0 || s[0] < n;
    if n > 0 {
      if n - 1 in s {
        var i :| 0 <= i < |s| && s[i] == n - 1;
        DistinctBound(s[..i] + s[i + 1..], n - 1);
      } else {
        assert forall i :: 0 <= i < |s| ==> s[i] in s;
        DistinctBound(s, n - 1);
      }
    }
  }

  lemma AscendingLast(s: seq<nat>)
    requires s != [] && Ascending(s)
    ensures s[|s| - 1] in SetOf(s) && forall x :: x in SetOf(s) ==> x <= s[|s| - 1]
    ensures SetOf(s[..|s| - 1]) == SetOf(s) - {s[|s| - 1]}
  {
    var n := |s| - 1;
    assert s == s[..n] + [s[n]];
  }

  lemma AscendingIsItsSet(a: seq<nat>, b: seq<nat>)
    requires Ascending(a) && Ascending(b) && SetOf(a) == SetOf(b)
    ensures a == b
    decreases |a|
  {
    if a != [] && b != [] {
      AscendingLast(a);
      AscendingLast(b);
      AscendingIsItsSet(a[..|a| - 1], b[..|b| - 1]);
    } else if b != [] {
      AscendingLast(b);
    } else if a != [] {
      AscendingLast(a);
    }
  }
}
