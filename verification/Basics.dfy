/**
 What several parts of the model share: optional values, decimal digits, elements of one size and their
 offsets, and counting without repetition.
 */
module Basics {

  datatype Option<+T> = None | Some(value: T)

  predicate IsDigit(c: char) {
    '0' <= c <= '9'
  }

  /** Every element is `size` long. */
  ghost predicate Sized<T>(e: seq<seq<T>>, size: nat) {
    forall k :: 0 <= k < |e| ==> |e[k]| == size
  }

  predicate Distinct(xs: seq<nat>) {
    forall i, j :: 0 <= i < j < |xs| ==> xs[i] != xs[j]
  }

  /** Distinct members of a set are no more than its size. */
  lemma {:induction false} DistinctFit(xs: seq<nat>, into: set<nat>)
    requires Distinct(xs) && forall i :: 0 <= i < |xs| ==> xs[i] in into
    ensures |xs| <= |into|
  {
    if xs != [] {
      var last := |xs| - 1;
      DistinctFit(xs[..last], into - {xs[last]});
    }
  }

  /** The byte offset of the k-th element, k * size. */
  function Off(k: nat, size: nat): nat {
    if k == 0 then 0 else Off(k - 1, size) + size
  }

  lemma {:induction false} OffIsProduct(k: nat, size: nat)
    ensures Off(k, size) == k * size
  {
    if k > 0 {
      OffIsProduct(k - 1, size);
      assert k * size == (k - 1) * size + size;
    }
  }

  lemma {:induction false} Scale(a: nat, b: nat, size: nat)
    requires size > 0
    ensures Off(a, size) < Off(b, size) <==> a < b
    ensures a < b ==> Off(a, size) + size <= Off(b, size)
    decreases a + b
  {
    if a < b - 1 {
      Scale(a, b - 1, size);
    } else if b < a {
      Scale(a - 1, b, size);
    }
  }

  /** A size_t as an int variable or parameter receives it. */
  function ToInt32(x: nat): int {
    var m := x % 0x1_0000_0000;
    if m >= 0x8000_0000 then m - 0x1_0000_0000 else m
  }
}
