/** Pigeonhole facts about sequences of small numbers without repeats. */
module Counting {
  ghost predicate Distinct<T>(s: seq<T>) {
    forall i, j | 0 <= i < j < |s| :: s[i] != s[j]
  }

  ghost predicate Below(s: seq<nat>, n: nat) {
    forall i | 0 <= i < |s| :: s[i] < n
  }

  function Elems(s: seq<nat>): set<nat> {
    set x | x in s
  }

  lemma SubsetSize<T>(a: set<T>, b: set<T>)
    requires a <= b
    ensures |a| <= |b|
  {
    assert b == a + (b - a);
  }

  /** `n` distinct numbers below `n` are all of them, and there cannot be more. */
  lemma {:induction false} Pigeonhole(s: seq<nat>, n: nat)
    requires Distinct(s) && Below(s, n)
    ensures |s| <= n
    ensures |s| == n ==> forall x: nat | x < n :: x in s
  {
    assert |s| > 0 ==> s[0] < n;
    if n > 0 {
      if n - 1 in s {
        var k :| 0 <= k < |s| && s[k] == n - 1;
        var rest := s[..k] + s[k + 1..];
        Pigeonhole(rest, n - 1);
        if |s| == n {
          forall x: nat | x < n
            ensures x in s
          {
            assert x < n - 1 ==> x in rest;
          }
        }
      } else {
        Pigeonhole(s, n - 1);
      }
    }
  }

  /** Fewer than `n` numbers leave some number below `n` unused. */
  lemma {:induction false} Unused(s: seq<nat>, n: nat) returns (x: nat)
    requires |s| < n
    ensures x < n && x !in s
  {
    if n - 1 !in s {
      x := n - 1;
    } else {
      var k :| 0 <= k < |s| && s[k] == n - 1;
      var rest := s[..k] + s[k + 1..];
      x := Unused(rest, n - 1);
      assert forall i | 0 <= i < |s| && i != k :: s[i] == rest[if i < k then i else i - 1];
    }
  }
}
