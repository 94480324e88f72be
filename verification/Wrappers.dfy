/** Small types and functions that several modules share. */
module Wrappers {

  datatype Option<+T> = None | Some(value: T)

  type Byte = b: nat | b < 256

  function Pow2(k: nat): (p: nat)
    ensures p >= 1
  {
    if k == 0 then 1 else 2 * Pow2(k - 1)
  }

  lemma {:induction false} Pow2Splits(j: nat, k: nat)
    requires j <= k
    ensures Pow2(k) == Pow2(j) * Pow2(k - j)
    decreases k - j
  {
    if j < k {
      Pow2Splits(j, k - 1);
      assert Pow2(k) == 2 * (Pow2(j) * Pow2(k - 1 - j));
      assert Pow2(k - j) == 2 * Pow2(k - j - 1);
      assert Pow2(j) * (2 * Pow2(k - j - 1)) == 2 * (Pow2(j) * Pow2(k - j - 1));
    }
  }

  lemma {:induction false} Pow2Grows(j: nat, k: nat)
    requires j <= k
    ensures Pow2(j) <= Pow2(k) && (j < k ==> 2 * Pow2(j) <= Pow2(k))
    decreases k
  {
    if j < k { Pow2Grows(j, k - 1); }
  }

  function Min(a: nat, b: nat): nat { if a < b then a else b }

  /** The positions below n at which p holds, upwards. */
  ghost predicate Positions(idx: seq<nat>, n: nat, p: nat -> bool) {
    && (forall k | 0 <= k < |idx| :: idx[k] < n && p(idx[k]))
    && (forall j, k | 0 <= j < k < |idx| :: idx[j] < idx[k])
    && forall i: nat | i < n && p(i) :: i in idx
  }

  /** The elements at some positions. */
  function At<T>(s: seq<T>, idx: seq<nat>): (r: seq<T>)
    requires forall k | 0 <= k < |idx| :: idx[k] < |s|
    ensures |r| == |idx| && forall k | 0 <= k < |idx| :: r[k] == s[idx[k]]
  {
    seq(|idx|, k requires 0 <= k < |idx| => s[idx[k]])
  }

  lemma PositionsAgree(idx: seq<nat>, n: nat, p: nat -> bool, q: nat -> bool)
    requires Positions(idx, n, p) && forall i: nat | i < n :: p(i) == q(i)
    ensures Positions(idx, n, q)
  {}

  function Somes<T>(os: seq<Option<T>>): seq<T> {
    if os == [] then []
    else Somes(os[..|os| - 1]) + if os[|os| - 1].Some? then [os[|os| - 1].value] else []
  }

  ghost function IsSomeAt<T>(os: seq<Option<T>>): nat -> bool {
    (i: nat) => i < |os| && os[i].Some?
  }

  /** The values that are there, with their positions. */
  lemma {:induction false} SomePositions<T>(os: seq<Option<T>>) returns (idx: seq<nat>)
    ensures Positions(idx, |os|, IsSomeAt(os)) && |Somes(os)| == |idx|
    ensures forall k | 0 <= k < |idx| :: Some(Somes(os)[k]) == os[idx[k]]
  {
    idx := [];
    if os != [] {
      var n := |os| - 1;
      idx := SomePositions(os[..n]);
      if os[n].Some? {
        LastPosition(os, idx);
        idx := idx + [n];
      } else {
        PositionsStay(os, idx);
      }
    }
  }

  lemma LastPosition<T>(os: seq<Option<T>>, idx: seq<nat>)
    requires os != [] && Positions(idx, |os| - 1, IsSomeAt(os[..|os| - 1])) && os[|os| - 1].Some?
    ensures Positions(idx + [|os| - 1], |os|, IsSomeAt(os))
  {
    var all := idx + [|os| - 1];
    forall i: nat | i < |os| && IsSomeAt(os)(i) ensures i in all {
      if i < |os| - 1 { assert IsSomeAt(os[..|os| - 1])(i); } else { assert all[|idx|] == i; }
    }
    forall k | 0 <= k < |all| ensures all[k] < |os| && IsSomeAt(os)(all[k]) {
      if k < |idx| { assert IsSomeAt(os[..|os| - 1])(idx[k]); }
    }
  }

  lemma PositionsStay<T>(os: seq<Option<T>>, idx: seq<nat>)
    requires os != [] && Positions(idx, |os| - 1, IsSomeAt(os[..|os| - 1])) && os[|os| - 1] == None
    ensures Positions(idx, |os|, IsSomeAt(os))
  {
    forall i: nat | i < |os| && IsSomeAt(os)(i) ensures i in idx { assert IsSomeAt(os[..|os| - 1])(i); }
    forall k | 0 <= k < |idx| ensures IsSomeAt(os)(idx[k]) { assert IsSomeAt(os[..|os| - 1])(idx[k]); }
  }
}
