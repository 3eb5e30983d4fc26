/** `copt_rotate_right`: rotate a block of the argument array one slot to the
    right, in place. */
module Rotate {

  /** The array after rotating the block `s[lo .. lo + n]` one slot right:
      the block's last element moves to `lo`, the others move up by one. */
  function RotatedRight<T>(s: seq<T>, lo: nat, n: nat): (r: seq<T>)
    requires 0 < n && lo + n <= |s|
    ensures |r| == |s|
    ensures r[lo] == s[lo + n - 1]
    ensures forall k {:trigger r[k]} :: lo < k < lo + n ==> r[k] == s[k - 1]
    ensures forall k {:trigger r[k]} :: 0 <= k < |s| && (k < lo || lo + n <= k) ==> r[k] == s[k]
  {
    seq(|s|, k requires 0 <= k < |s| =>
      if k < lo || lo + n <= k then s[k] else if k == lo then s[lo + n - 1] else s[k - 1])
  }

  /** The rotation as slices: what precedes the block, the block's last
      element, the rest of the block, what follows it. */
  lemma RotatedRightSlices<T>(s: seq<T>, lo: nat, n: nat)
    requires 0 < n && lo + n <= |s|
    ensures RotatedRight(s, lo, n) == s[..lo] + [s[lo + n - 1]] + s[lo .. lo + n - 1] + s[lo + n ..]
  {
    var r := RotatedRight(s, lo, n);
    var t := s[..lo] + [s[lo + n - 1]] + s[lo .. lo + n - 1] + s[lo + n ..];
    forall k | 0 <= k < |s| ensures r[k] == t[k] {
      if k < lo {
      } else if k == lo {
      } else if k < lo + n {
        assert t[k] == s[lo .. lo + n - 1][k - lo - 1];
      } else {
        assert t[k] == s[lo + n ..][k - lo - n];
      }
    }
  }

  /** Rotation only moves elements: the result is a permutation. */
  lemma RotatedRightPermutes<T>(s: seq<T>, lo: nat, n: nat)
    requires 0 < n && lo + n <= |s|
    ensures multiset(RotatedRight(s, lo, n)) == multiset(s)
  {
    RotatedRightSlices(s, lo, n);
    var p, b, x, q := s[..lo], s[lo .. lo + n - 1], [s[lo + n - 1]], s[lo + n ..];
    assert s == p + b + x + q;
  }

  /** `copt_rotate_right(a + lo, n)`: save the last element, shift the rest up
      one slot (the `memmove`; the loop copies from the top down, as an
      overlapping move to higher addresses needs), store the saved element at
      the bottom. */
  method RotateRight<T>(a: array<T>, lo: nat, n: nat)
    requires 0 < n && lo + n <= a.Length
    modifies a
    ensures a[..] == RotatedRight(old(a[..]), lo, n)
  {
    var last := a[lo + n - 1];
    var k := n - 1;
    while k > 0
      invariant 0 <= k <= n - 1
      invariant forall m :: 0 <= m < a.Length && (m < lo || lo + n <= m) ==> a[m] == old(a[m])
      invariant forall m :: lo <= m <= lo + k ==> a[m] == old(a[m])
      invariant forall m :: lo + k < m < lo + n ==> a[m] == old(a[m - 1])
    {
      a[lo + k] := a[lo + k - 1];
      k := k - 1;
    }
    a[lo] := last;
  }
}
