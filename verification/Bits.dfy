/** Sequences of bits and the naive searches over them. A set bit marks a frame in use;
    every fast search of the allocation bitmap is proved equal to one of these. */
module Bits {

  /** The least clear index of [lo, hi), or hi when there is none. */
  function FirstClear(bits: seq<bool>, lo: nat, hi: nat): (i: nat)
    requires lo <= hi <= |bits|
    ensures lo <= i <= hi
    ensures forall k :: lo <= k < i ==> bits[k]
    ensures i < hi ==> !bits[i]
    decreases hi - lo
  {
    if lo == hi then hi else if !bits[lo] then lo else FirstClear(bits, lo + 1, hi)
  }

  /** All of bits[lo..hi] are clear. */
  predicate Clear(bits: seq<bool>, lo: nat, hi: nat) {
    hi <= |bits| && forall k :: lo <= k < hi ==> !bits[k]
  }

  /** The first clear index in circular order from `start`; |bits| when every bit is set. */
  function FirstClearFrom(bits: seq<bool>, start: nat): (i: nat)
    ensures i <= |bits|
    ensures i < |bits| ==> !bits[i]
    ensures i == |bits| ==> forall k :: 0 <= k < |bits| ==> bits[k]
    ensures start <= i < |bits| ==> forall k :: start <= k < i ==> bits[k]
    ensures i < start < |bits| ==> forall k :: 0 <= k < i || start <= k < |bits| ==> bits[k]
  {
    if start >= |bits| then FirstClear(bits, 0, |bits|)
    else
      var i := FirstClear(bits, start, |bits|);
      if i < |bits| then i
      else
        var j := FirstClear(bits, 0, start);
        if j < start then j else |bits|
  }

  /** The number of clear bits. */
  function ClearCount(bits: seq<bool>): (n: nat)
    ensures n <= |bits|
  {
    if |bits| == 0 then 0
    else ClearCount(bits[..|bits| - 1]) + (if bits[|bits| - 1] then 0 else 1)
  }

  lemma {:induction false} ClearCountUpdate(bits: seq<bool>, i: nat, v: bool)
    requires i < |bits|
    ensures ClearCount(bits[i := v]) ==
            ClearCount(bits) + (if bits[i] then 1 else 0) - (if v then 1 else 0)
  {
    var n := |bits| - 1;
    if i == n {
      assert bits[i := v][..n] == bits[..n];
    } else {
      ClearCountUpdate(bits[..n], i, v);
      assert bits[i := v][..n] == bits[..n][i := v];
    }
  }

  lemma {:induction false} ClearCountZero(bits: seq<bool>)
    requires forall i :: 0 <= i < |bits| ==> bits[i]
    ensures ClearCount(bits) == 0
  {
    if bits != [] {
      ClearCountZero(bits[..|bits| - 1]);
    }
  }

  lemma {:induction false} ClearCountPositive(bits: seq<bool>, i: nat)
    requires i < |bits| && !bits[i]
    ensures ClearCount(bits) > 0
  {
    if i < |bits| - 1 {
      ClearCountPositive(bits[..|bits| - 1], i);
    }
  }
}
