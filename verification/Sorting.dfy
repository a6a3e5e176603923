/** Index sorting with a strict weak order, the contract of the library sort the engine calls. */
module Sorting {

  function Iota(n: nat): (s: seq<nat>)
    ensures |s| == n && forall i :: 0 <= i < n ==> s[i] == i
  {
    seq(n, i requires 0 <= i < n => i)
  }

  /** Over the indices below n: nothing is below itself or both ways, and being not below composes. */
  ghost predicate StrictWeak(less: (nat, nat) -> bool, n: nat) {
    && (forall a: nat, b: nat {:trigger less(a, b)} :: a < n && b < n && less(a, b) ==> !less(b, a))
    && (forall a: nat, b: nat, c: nat {:trigger less(b, a), less(c, b)} ::
          a < n && b < n && c < n && !less(b, a) && !less(c, b) ==> !less(c, a))
  }

  ghost predicate SortedBy(perm: seq<nat>, less: (nat, nat) -> bool) {
    forall i, j :: 0 <= i < j < |perm| ==> !less(perm[j], perm[i])
  }

  ghost predicate Permutation(perm: seq<nat>, n: nat) { multiset(perm) == multiset(Iota(n)) }

  method SortIndices(n: nat, less: (nat, nat) -> bool) returns (perm: seq<nat>)
    requires StrictWeak(less, n)
    ensures Permutation(perm, n) && SortedBy(perm, less)
  {
    perm := [];
    var k := 0;
    while k < n
      invariant 0 <= k <= n
      invariant multiset(perm) == multiset(Iota(n)[..k])
      invariant forall i :: 0 <= i < |perm| ==> perm[i] < n
      invariant SortedBy(perm, less)
    {
      var at := |perm|;
      while at > 0 && less(k, perm[at - 1])
        invariant 0 <= at <= |perm|
        invariant forall i :: at <= i < |perm| ==> less(k, perm[i])
      {
        at := at - 1;
      }
      InsertSorted(perm, less, n, k, at);
      assert Iota(n)[..k + 1] == Iota(n)[..k] + [k];
      assert perm == perm[..at] + perm[at..];
      perm := perm[..at] + [k] + perm[at..];
      k := k + 1;
    }
    assert Iota(n)[..n] == Iota(n);
  }

  lemma InsertSorted(perm: seq<nat>, less: (nat, nat) -> bool, n: nat, k: nat, at: nat)
    requires StrictWeak(less, n) && SortedBy(perm, less) && k < n && at <= |perm|
    requires forall i :: 0 <= i < |perm| ==> perm[i] < n
    requires forall i :: at <= i < |perm| ==> less(k, perm[i])
    requires at > 0 ==> !less(k, perm[at - 1])
    ensures SortedBy(perm[..at] + [k] + perm[at..], less)
    ensures forall i :: 0 <= i <= |perm| ==> (perm[..at] + [k] + perm[at..])[i] < n
  {
    var out := perm[..at] + [k] + perm[at..];
    forall i, j | 0 <= i < j < |out| ensures !less(out[j], out[i]) {
      if j == at && i < at - 1 {
        assert !less(perm[at - 1], perm[i]) && !less(k, perm[at - 1]);
      } else if i == at {
        assert less(k, perm[j - 1]);
      }
    }
  }
}
