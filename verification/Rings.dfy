/** Sequences seen as rings, and taking one element out of them. */
module Rings {
  function Without<T>(s: seq<T>, i: nat): seq<T>
    requires i < |s|
  {
    s[..i] + s[i + 1..]
  }

  /** The place behind place i in a ring of n, and the one in front of it. */
  function After(n: nat, i: nat): nat {
    if i + 1 < n then i + 1 else 0
  }

  function Before(n: nat, i: nat): nat {
    if i > 0 then i - 1 else if n > 0 then n - 1 else 0
  }

  lemma RingWithout<T>(s: seq<T>, i: nat, j: nat)
    requires i < |s| && j < |s| && i != j
    ensures var r, k, n := Without(s, i), if j > i then j - 1 else j, |s|;
            r[After(n - 1, k)] == (if After(n, j) == i then s[After(n, i)] else s[After(n, j)])
            && r[Before(n - 1, k)] == (if Before(n, j) == i then s[Before(n, i)] else s[Before(n, j)])
  {}

  lemma WithoutAt<T>(s: seq<T>, i: nat, k: nat)
    requires i < |s| && k < |s| - 1
    ensures Without(s, i)[k] == s[if k < i then k else k + 1]
  {
  }

  /** An element that occurs once still does when another one is taken out. */
  lemma Elsewhere<T>(s: seq<T>, i: nat, j: nat)
    requires i < |s| && j < |s| && i != j && forall k {:trigger s[k]} :: 0 <= k < |s| && k != j ==> s[k] != s[j]
    ensures var r, m := Without(s, i), if j < i then j else j - 1;
      r[m] == s[j] && forall k {:trigger r[k]} :: 0 <= k < |r| && k != m ==> r[k] != r[m]
  {
    var r := Without(s, i);
    assert forall k :: 0 <= k < |r| ==> r[k] == s[if k < i then k else k + 1];
  }
}
