/** The probe sequence of the ordered dict: `GenIndexes` of dict_inner.rs.

    A table of size n = 2^k is probed at `idx mod n`, where `idx` runs through a 64-bit wrapping
    recurrence `idx := 5 * idx + perturb + 1` and `perturb` is shifted right by five each step.
    The module proves which hashes make that sequence visit every slot, and how soon. */
module ProbeSequence {
  import opened Wrappers

  const TWO63: int := 0x8000_0000_0000_0000
  const TWO64: int := 0x1_0000_0000_0000_0000
  const I64_MIN: int := -TWO63

  /** A signed 64-bit integer. */
  type I64 = x: int | -TWO63 <= x < TWO63

  /** Two's-complement wrapping of an integer to 64 bits. */
  function Wrap(x: int): (r: I64)
    ensures (x - r) % TWO64 == 0
  {
    (x + TWO63) % TWO64 - TWO63
  }

  /** `i64::abs` with wrapping overflow, as in an optimised build. */
  function WrappingAbs(h: I64): I64 {
    if h == I64_MIN then I64_MIN else if h < 0 then -h else h
  }

  ghost predicate IsPow2(n: nat) {
    exists k: nat :: n == Pow2(k)
  }

  /** The mutable part of `GenIndexes`. */
  datatype Probe = Probe(idx: I64, perturb: I64)

  function Start(hash: I64): Probe {
    Probe(WrappingAbs(hash), WrappingAbs(hash))
  }

  /** An arithmetic right shift by five is the floor of a division by 32. */
  function Advance(p: Probe): Probe {
    Probe(Wrap(p.idx * 5 + p.perturb + 1), p.perturb / 32)
  }

  /** The state after t calls of `next`. */
  function After(hash: I64, t: nat): Probe {
    if t == 0 then Start(hash) else Advance(After(hash, t - 1))
  }

  /** The slot that call number t of `next` returns; `x & (2^k - 1)` is `x mod 2^k`. */
  function Slot(hash: I64, n: nat, t: nat): (s: nat)
    requires n > 0
    ensures s < n
  {
    After(hash, t).idx % n
  }

  class GenIndexes {
    var idx: I64
    var perturb: I64
    const size: nat

    ghost function State(): Probe
      reads this
    {
      Probe(idx, perturb)
    }

    constructor (hash: I64, size: nat)
      ensures State() == Start(hash) && this.size == size
      ensures idx == perturb && (hash != I64_MIN ==> idx == if hash < 0 then -hash else hash)
      ensures hash == I64_MIN ==> idx == I64_MIN
    {
      idx := WrappingAbs(hash);
      perturb := WrappingAbs(hash);
      this.size := size;
    }

    method Next() returns (slot: nat)
      requires size > 0
      modifies this
      ensures slot == old(idx) % size
      ensures State() == Advance(old(State()))
      ensures (5 * old(idx) + old(perturb) + 1 - idx) % TWO64 == 0
      ensures 32 * perturb <= old(perturb) < 32 * perturb + 32
    {
      var prev := idx;
      idx := Wrap(prev * 5 + perturb + 1);
      perturb := perturb / 32;
      slot := prev % size;
    }
  }

  // ---------- arithmetic modulo n ----------

  lemma MulAtLeast(n: int, d: int)
    requires n > 0
    ensures d >= 1 ==> n * d >= n
    ensures d <= -1 ==> n * d <= -n
  {}

  lemma ModOf(n: int, q: int, r: int)
    requires n > 0 && 0 <= r < n
    ensures (n * q + r) % n == r
  {
    var x := n * q + r;
    var d := x / n - q;
    assert n * d == n * (x / n) - n * q;
    assert n * d == r - x % n;
    MulAtLeast(n, d);
    assert d == 0;
  }

  /** Numbers that differ by a multiple of n leave the same remainder. */
  lemma ModShift(n: int, x: int, q: int)
    requires n > 0
    ensures (x + n * q) % n == x % n
  {
    var r := x % n;
    assert x == n * (x / n) + r;
    assert x + n * q == n * (x / n + q) + r;
    ModOf(n, x / n + q, r);
  }

  lemma Pow2At64()
    ensures Pow2(64) == TWO64
  {
    assert Pow2(8) == 256;
    Pow2Splits(8, 16);
    Pow2Splits(16, 32);
    Pow2Splits(32, 64);
    assert Pow2(16) == 65536;
    assert Pow2(32) == 0x1_0000_0000;
  }

  lemma Pow2BeyondWord(k: nat)
    requires k >= 64
    ensures Pow2(k) >= TWO64
  {
    Pow2Splits(64, k);
    Pow2At64();
    MulAtLeast(TWO64, Pow2(k - 64));
  }

  /** 64-bit wrapping is invisible modulo a power of two of at most 64 bits. */
  lemma WrapIsInvisible(x: int, k: nat)
    requires k <= 64
    ensures Wrap(x) % Pow2(k) == x % Pow2(k)
  {
    Pow2At64();
    Pow2Splits(k, 64);
    WrapModDivisor(x, Pow2(k), Pow2(64 - k));
  }

  lemma WrapModDivisor(x: int, d: int, m: int)
    requires d > 0 && TWO64 == d * m
    ensures Wrap(x) % d == x % d
  {
    var q := (x - Wrap(x)) / TWO64;
    assert x == Wrap(x) + TWO64 * q;
    MulAssoc(d, m, q);
    ModShift(d, Wrap(x), m * q);
  }

  lemma MulAssoc(a: int, b: int, c: int)
    ensures (a * b) * c == a * (b * c)
  {}

  // ---------- the linear congruential part ----------

  /** t steps of x := 5x + 1, without wrapping. */
  function Orbit(x: int, t: nat): int {
    if t == 0 then x else 5 * Orbit(x, t - 1) + 1
  }

  /** 1 + 5 + ... + 5^(t-1), the orbit of zero. */
  function Geo(t: nat): nat {
    if t == 0 then 0 else 5 * Geo(t - 1) + 1
  }

  lemma {:induction false} OrbitClosedForm(x: int, t: nat)
    ensures Orbit(x, t) == x + Geo(t) * (4 * x + 1)
  {
    if t > 0 {
      OrbitClosedForm(x, t - 1);
      FiveTimes(Geo(t - 1), 4 * x + 1);
    }
  }

  lemma FiveTimes(g: int, m: int)
    ensures (5 * g + 1) * m == 5 * (g * m) + m
  {}

  lemma {:induction false} OrbitAdds(x: int, s: nat, t: nat)
    ensures Orbit(x, s + t) == Orbit(Orbit(x, s), t)
  {
    if t > 0 { OrbitAdds(x, s, t - 1); }
  }

  lemma {:induction false} GeoDoubles(t: nat)
    ensures Geo(2 * t) == 2 * Geo(t) * (2 * Geo(t) + 1)
  {
    OrbitIsGeo(t);
    OrbitIsGeo(2 * t);
    OrbitAdds(0, t, t);
    OrbitClosedForm(Geo(t), t);
    DoubledGeo(Geo(t));
  }

  lemma DoubledGeo(g: int)
    ensures g + g * (4 * g + 1) == 2 * g * (2 * g + 1)
  {}

  lemma OrbitIsGeo(t: nat)
    ensures Orbit(0, t) == Geo(t)
  {}

  /** Geo(2^k) is an odd multiple of 2^k. */
  lemma {:induction false} GeoAtPow2(k: nat) returns (odd: nat)
    ensures Geo(Pow2(k)) == Pow2(k) * odd && odd % 2 == 1
  {
    if k == 0 {
      assert Geo(1) == 1;
      odd := 1;
    } else {
      var o := GeoAtPow2(k - 1);
      GeoDoubles(Pow2(k - 1));
      odd := OddDoubling(Pow2(k - 1), o, Geo(Pow2(k - 1)));
    }
  }

  lemma OddDoubling(p: nat, o: nat, g: nat) returns (odd: nat)
    requires g == p * o && o % 2 == 1
    ensures 2 * g * (2 * g + 1) == 2 * p * odd && odd % 2 == 1
  {
    odd := o * (2 * g + 1);
    assert odd == 2 * (o * g) + o;
    MulAssoc(p, o, 2 * g + 1);
    MulAssoc(2, g, 2 * g + 1);
    MulAssoc(2, p, odd);
  }

  /** Modulo 2^(k+1), 2^k steps move every point by exactly 2^k. */
  lemma HalfTurn(x: int, k: nat)
    ensures Orbit(x, Pow2(k)) % Pow2(k + 1) == (x + Pow2(k)) % Pow2(k + 1)
  {
    var odd := GeoAtPow2(k);
    OrbitClosedForm(x, Pow2(k));
    OddMultiple(x, Pow2(k), odd, 4 * x + 1);
  }

  lemma OddMultiple(x: int, p: int, a: int, b: int)
    requires p > 0 && a % 2 == 1 && b % 2 == 1
    ensures (x + p * a * b) % (2 * p) == (x + p) % (2 * p)
  {
    var i, j := a / 2, b / 2;
    var h := 2 * (i * j) + i + j;
    assert a * b == 2 * h + 1 by {
      assert a == 2 * i + 1 && b == 2 * j + 1;
      assert a * b == (2 * i + 1) * (2 * j + 1);
    }
    MulAssoc(p, a, b);
    assert p * (2 * h + 1) == p + (2 * p) * h by { MulAssoc(2, p, h); }
    ModShift(2 * p, x + p, h);
  }

  /** Residues modulo n determine the residues of the orbit modulo n. */
  lemma OrbitModulo(x: int, y: int, n: int, t: nat)
    requires n > 0 && x % n == y % n
    ensures Orbit(x, t) % n == Orbit(y, t) % n
  {
    if t > 0 {
      OrbitModulo(x, y, n, t - 1);
      StepModulo(Orbit(x, t - 1), Orbit(y, t - 1), n);
    }
  }

  lemma StepModulo(a: int, b: int, n: int)
    requires n > 0 && a % n == b % n
    ensures (5 * a + 1) % n == (5 * b + 1) % n
  {
    var q := a / n - b / n;
    assert a == b + n * q by {
      assert a == n * (a / n) + a % n;
      assert b == n * (b / n) + b % n;
      assert n * q == n * (a / n) - n * (b / n);
    }
    assert 5 * a + 1 == (5 * b + 1) + n * (5 * q) by { assert n * (5 * q) == 5 * (n * q); }
    ModShift(n, 5 * b + 1, 5 * q);
  }

  /** x := 5x + 1 runs through all residues modulo 2^k in 2^k steps, from any start. */
  lemma {:induction false} FullPeriod(x: int, k: nat, y: nat) returns (t: nat)
    requires y < Pow2(k)
    ensures t < Pow2(k) && Orbit(x, t) % Pow2(k) == y
  {
    if k == 0 {
      t := 0;
    } else {
      var p := Pow2(k - 1);
      var low := if y < p then y else y - p;
      var s := FullPeriod(x, k - 1, low);
      var z := Orbit(x, s);
      LiftResidue(z, p, low);
      if z % (2 * p) == y {
        t := s;
      } else {
        t := s + p;
        OrbitAdds(x, s, p);
        HalfTurn(z, k - 1);
        ShiftByHalf(z, p, y);
      }
    }
  }

  lemma LiftResidue(z: int, p: int, low: int)
    requires p > 0 && z % p == low
    ensures z % (2 * p) == low || z % (2 * p) == low + p
  {
    var q := z / p;
    assert z == p * q + low;
    if q % 2 == 0 {
      assert p * q == (2 * p) * (q / 2) by { assert q == 2 * (q / 2); assert p * (2 * (q / 2)) == (2 * p) * (q / 2); }
      ModOf(2 * p, q / 2, low);
    } else {
      assert p * q == (2 * p) * (q / 2) + p by {
        assert q == 2 * (q / 2) + 1;
        assert p * (2 * (q / 2) + 1) == (2 * p) * (q / 2) + p;
      }
      ModOf(2 * p, q / 2, low + p);
    }
  }

  lemma ShiftByHalf(z: int, p: int, y: int)
    requires p > 0 && 0 <= y < 2 * p
    requires z % (2 * p) == if y < p then y + p else y - p
    ensures (z + p) % (2 * p) == y
  {
    var q := z / (2 * p);
    assert z == (2 * p) * q + z % (2 * p);
    if y < p {
      assert z + p == (2 * p) * (q + 1) + y by { assert (2 * p) * (q + 1) == (2 * p) * q + 2 * p; }
      ModOf(2 * p, q + 1, y);
    } else {
      ModOf(2 * p, q, y);
    }
  }

  // ---------- the whole sequence ----------

  /** A non-negative perturbation loses five bits a step. */
  lemma {:induction false} PerturbShrinks(hash: I64, t: nat)
    requires hash != I64_MIN && t <= 12
    ensures 0 <= After(hash, t).perturb < Pow2(63 - 5 * t)
  {
    if t == 0 {
      Pow2At64();
      assert Pow2(64) == 2 * Pow2(63);
    } else {
      PerturbShrinks(hash, t - 1);
      Pow2Splits(5, 63 - 5 * (t - 1));
      assert Pow2(5) == 32;
    }
  }

  /** From step 13 on nothing is left of it. */
  lemma {:induction false} PerturbVanishes(hash: I64, t: nat)
    requires hash != I64_MIN && t >= 13
    ensures After(hash, t).perturb == 0
  {
    if t == 13 {
      PerturbShrinks(hash, 12);
      assert Pow2(3) == 8;
    } else {
      PerturbVanishes(hash, t - 1);
    }
  }

  /** Once the perturbation is gone the slots follow the linear congruential orbit. */
  lemma {:induction false} TailIsOrbit(hash: I64, k: nat, t: nat)
    requires hash != I64_MIN && k <= 64
    ensures After(hash, 13 + t).idx % Pow2(k) == Orbit(After(hash, 13).idx, t) % Pow2(k)
  {
    if t > 0 {
      TailIsOrbit(hash, k, t - 1);
      var p := After(hash, 13 + t - 1);
      PerturbVanishes(hash, 13 + t - 1);
      assert After(hash, 13 + t) == Advance(p);
      WrapIsInvisible(p.idx * 5 + 1, k);
      StepModulo(p.idx, Orbit(After(hash, 13).idx, t - 1), Pow2(k));
    }
  }

  /** Every slot is probed within 13 + n steps. */
  lemma Coverage(hash: I64, k: nat, slot: nat) returns (t: nat)
    requires hash != I64_MIN && k <= 64 && slot < Pow2(k)
    ensures t < 13 + Pow2(k) && Slot(hash, Pow2(k), t) == slot
  {
    var u := FullPeriod(After(hash, 13).idx, k, slot);
    TailIsOrbit(hash, k, u);
    t := 13 + u;
  }

  // ---------- the one hash that has no absolute value ----------

  /** The perturbation of the minimal hash stays negative and ends at -1. */
  lemma {:induction false} MinPerturb(t: nat)
    ensures t <= 12 ==> After(I64_MIN, t).perturb + Pow2(63 - 5 * t) == 0
    ensures t >= 13 ==> After(I64_MIN, t).perturb == -1
  {
    if t == 0 {
      Pow2At64();
      assert Pow2(64) == 2 * Pow2(63);
    } else {
      hide Pow2;
      MinPerturb(t - 1);
      if t <= 12 {
        ThirtyTwoDivides(63 - 5 * t);
        ShiftNegated(After(I64_MIN, t - 1).perturb, Pow2(63 - 5 * t));
      } else if t == 13 {
        EightIsPow2();
      }
    }
  }

  lemma ThirtyTwoDivides(k: nat)
    ensures Pow2(k + 5) == 32 * Pow2(k)
  {
    SixteenDivides(k + 1);
  }

  /** Shifting an exact multiple right by five. */
  lemma ShiftNegated(p: int, m: int)
    requires p + 32 * m == 0
    ensures p / 32 + m == 0
  {}

  lemma MinPerturbModulo16(t: nat)
    ensures After(I64_MIN, t).perturb % 16 == if t <= 11 then 0 else if t == 12 then 8 else 15
  {
    hide After, Pow2;
    MinPerturb(t);
    if t <= 11 {
      SixteenDivides(59 - 5 * t);
      NegatedModulo16(After(I64_MIN, t).perturb, Pow2(59 - 5 * t));
    } else if t == 12 {
      EightIsPow2();
    }
  }

  lemma EightIsPow2()
    ensures Pow2(3) == 8
  {}

  lemma SixteenDivides(k: nat)
    ensures Pow2(k + 4) == 16 * Pow2(k)
  {
    assert Pow2(k + 4) == 2 * (2 * Pow2(k + 2));
  }

  lemma NegatedModulo16(p: int, m: int)
    requires p + 16 * m == 0
    ensures p % 16 == 0
  {
    ModShift(16, 0, -m);
  }

  lemma AffineModulo16(x: int, p: int)
    ensures (x * 5 + p + 1) % 16 == (5 * (x % 16) + p % 16 + 1) % 16
  {
    var q := 5 * (x / 16) + p / 16;
    assert x * 5 + p + 1 == (5 * (x % 16) + p % 16 + 1) + 16 * q;
    ModShift(16, 5 * (x % 16) + p % 16 + 1, q);
  }

  lemma MinStep(t: nat)
    ensures After(I64_MIN, t + 1).idx % 16
         == (5 * (After(I64_MIN, t).idx % 16) + if t <= 11 then 1 else if t == 12 then 9 else 16) % 16
  {
    MinPerturbModulo16(t);
    StepModulo16(I64_MIN, t);
  }

  lemma StepModulo16(hash: I64, t: nat)
    ensures After(hash, t + 1).idx % 16 == (5 * (After(hash, t).idx % 16) + After(hash, t).perturb % 16 + 1) % 16
  {
    var p := After(hash, t);
    assert Pow2(4) == 16;
    WrapIsInvisible(p.idx * 5 + p.perturb + 1, 4);
    AffineModulo16(p.idx, p.perturb);
  }

  /** The first thirteen residues modulo 16 that the minimal hash visits. */
  const MIN_RESIDUES: seq<nat> := [0, 1, 6, 15, 12, 13, 2, 11, 8, 9, 14, 7, 4]

  lemma {:induction false} MinFirstResidues(t: nat)
    requires t <= 12
    ensures After(I64_MIN, t).idx % 16 == MIN_RESIDUES[t]
  {
    if t > 0 {
      MinFirstResidues(t - 1);
      MinStep(t - 1);
      MinResiduesFollow(t);
    }
  }

  lemma MinResiduesFollow(t: nat)
    requires 1 <= t <= 12
    ensures MIN_RESIDUES[t] == (5 * MIN_RESIDUES[t - 1] + 1) % 16
  {}

  /** Afterwards it is stuck on the residues 4i + 1. */
  lemma {:induction false} MinLaterResidues(t: nat)
    requires t >= 13
    ensures After(I64_MIN, t).idx % 16 % 4 == 1
  {
    hide After;
    MinStep(t - 1);
    if t == 13 {
      MinFirstResidues(12);
    } else {
      MinLaterResidues(t - 1);
      TimesFiveModulo4(After(I64_MIN, t - 1).idx % 16);
    }
  }

  lemma TimesFiveModulo4(r: nat)
    requires r < 16 && r % 4 == 1
    ensures (5 * r + 16) % 16 % 4 == 1
  {
    assert r == 1 || r == 5 || r == 9 || r == 13;
  }

  lemma ModOfMultiple(x: int, a: int, m: int)
    requires a > 0 && m > 0
    ensures x % (a * m) % a == x % a
  {
    var r, q := x % (a * m), x / (a * m);
    assert a * m > 0;
    assert x == r + (a * m) * q;
    MulAssoc(a, m, q);
    ModShift(a, r, m * q);
  }

  /** In a table of 16 slots or more the minimal hash never probes slot 3. */
  lemma MinHashMisses3(k: nat, t: nat)
    requires 4 <= k <= 64
    ensures 3 < Pow2(k) && Slot(I64_MIN, Pow2(k), t) != 3
  {
    hide Slot, After, Pow2;
    SlotModulo16(I64_MIN, k, t);
    if t <= 12 { MinFirstResidues(t); } else { MinLaterResidues(t); }
  }

  lemma SlotModulo16(hash: I64, k: nat, t: nat)
    requires 4 <= k <= 64
    ensures Pow2(k) >= 16 && Slot(hash, Pow2(k), t) % 16 == After(hash, t).idx % 16
  {
    hide After, Pow2;
    SixteenDivides(k - 4);
    ModOfMultiple(After(hash, t).idx, 16, Pow2(k - 4));
  }

  lemma EightFirstResidues(slot: nat) returns (t: nat)
    requires slot < 8
    ensures t <= 12 && MIN_RESIDUES[t] % 8 == slot
  {
    var inverse := [0, 1, 6, 7, 4, 5, 2, 3];
    t := inverse[slot];
  }

  /** Up to eight slots it still reaches every one. */
  lemma MinHashSmall(k: nat, slot: nat) returns (t: nat)
    requires k <= 3 && slot < Pow2(k)
    ensures Slot(I64_MIN, Pow2(k), t) == slot
  {
    assert Pow2(k) == if k == 0 then 1 else if k == 1 then 2 else if k == 2 then 4 else 8;
    t := EightFirstResidues(slot);
    MinFirstResidues(t);
    SmallResidue(After(I64_MIN, t).idx, Pow2(k), slot);
  }

  lemma SmallResidue(x: int, n: nat, slot: nat)
    requires n == 1 || n == 2 || n == 4 || n == 8
    requires slot < n && x % 16 % 8 == slot
    ensures x % n == slot
  {
    var e := 2 * (x / 16) + x % 16 / 8;
    assert x == 8 * e + slot;
    if n == 8 { ModOf(8, e, slot); }
    else if n == 4 { ModOf(4, 2 * e, slot); }
    else if n == 2 { ModOf(2, 4 * e, slot); }
  }

  ghost predicate Reached(hash: I64, n: nat, slot: nat)
    requires n > 0
  {
    exists t: nat :: Slot(hash, n, t) == slot
  }

  ghost predicate Covers(hash: I64, n: nat)
    requires n > 0
  {
    forall slot: nat | slot < n :: Reached(hash, n, slot)
  }

  /** The probe sequence reaches every slot exactly when the hash has an absolute value in 64 bits
      or the table has at most eight slots. */
  lemma CoversExactly(hash: I64, k: nat)
    requires k <= 64
    ensures Covers(hash, Pow2(k)) <==> hash != I64_MIN || k <= 3
  {
    if hash == I64_MIN && k >= 4 {
      MinHashMisses3(k, 0);
      forall t: nat ensures Slot(hash, Pow2(k), t) != 3 { MinHashMisses3(k, t); }
      assert !Reached(hash, Pow2(k), 3);
    } else {
      forall slot: nat | slot < Pow2(k)
        ensures Reached(hash, Pow2(k), slot)
      {
        if hash == I64_MIN {
          var t := MinHashSmall(k, slot);
        } else {
          var t := Coverage(hash, k, slot);
        }
      }
    }
  }
}
