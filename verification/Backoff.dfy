/** The fixed-point exponential backoff of router-execution. */
module Backoff {
  import opened Common

  const SCALE := 100
  const CAP := 3_600_000
  const U128_MAX := 0xFFFF_FFFF_FFFF_FFFF_FFFF_FFFF_FFFF_FFFF

  /** One step: multiply by a factor given in hundredths, rounding down. */
  function Scaled(x: nat, multiplier: nat): nat {
    ProductNonNegative(x, multiplier);
    x * multiplier / SCALE
  }

  lemma ProductNonNegative(x: nat, y: nat)
    ensures x * y >= 0
  {
  }

  function Iterate(base: nat, multiplier: nat, k: nat): nat {
    if k == 0 then base else Scaled(Iterate(base, multiplier, k - 1), multiplier)
  }

  /** The delay before the retry of index `k`. */
  function Delay(base: u64, multiplier: u32, k: nat): nat {
    if base == 0 || multiplier <= SCALE then Min(base, CAP)
    else if k == 0 then base
    else Min(Iterate(base, multiplier, k), CAP)
  }

  // ---- Arithmetic ----

  lemma ProductMonotone(x: nat, y: nat, a: nat, b: nat)
    requires x <= y && a <= b
    ensures x * a <= y * b
  {
    assert x * a <= y * a;
    assert y * a <= y * b;
  }

  lemma ScaledMonotone(x: nat, y: nat, a: nat, b: nat)
    requires x <= y && a <= b
    ensures Scaled(x, a) <= Scaled(y, b)
  {
    ProductMonotone(x, y, a, b);
  }

  lemma ScaledGrows(x: nat, multiplier: nat)
    requires multiplier >= SCALE
    ensures Scaled(x, multiplier) >= x
  {
    ProductMonotone(x, x, SCALE, multiplier);
  }

  lemma {:induction false} IterateMonotone(x: nat, y: nat, a: nat, b: nat, k: nat)
    requires x <= y && a <= b
    ensures Iterate(x, a, k) <= Iterate(y, b, k)
    decreases k
  {
    if k > 0 {
      IterateMonotone(x, y, a, b, k - 1);
      ScaledMonotone(Iterate(x, a, k - 1), Iterate(y, b, k - 1), a, b);
    }
  }

  lemma {:induction false} IterateGrows(base: nat, multiplier: nat, j: nat, k: nat)
    requires multiplier >= SCALE && j <= k
    ensures Iterate(base, multiplier, j) <= Iterate(base, multiplier, k)
    decreases k
  {
    if j < k {
      IterateGrows(base, multiplier, j, k - 1);
      ScaledGrows(Iterate(base, multiplier, k - 1), multiplier);
    }
  }

  lemma {:induction false} IterateConstant(base: nat, k: nat)
    ensures Iterate(base, SCALE, k) == base
    ensures Iterate(0, SCALE, k) == 0
    decreases k
  {
    if k > 0 {
      IterateConstant(base, k - 1);
    }
  }

  lemma {:induction false} IterateZero(multiplier: nat, k: nat)
    ensures Iterate(0, multiplier, k) == 0
    decreases k
  {
    if k > 0 {
      IterateZero(multiplier, k - 1);
    }
  }

  // ---- The loop ----

  /** The multiplication never overflows 128 bits, so its error branch is dead. */
  method ComputeBackoffMs(base: u64, multiplier: u32, attemptIndex: u32) returns (delay: nat)
    ensures delay == Delay(base, multiplier, attemptIndex)
  {
    if base == 0 || multiplier <= SCALE {
      return Min(base, CAP);
    }
    var backoff: nat := base;
    for i := 0 to attemptIndex
      invariant backoff == Iterate(base, multiplier, i)
      invariant backoff <= U64_MAX && (i > 0 ==> backoff < CAP)
    {
      ProductMonotone(backoff, U64_MAX, multiplier, U32_MAX);
      assert backoff * multiplier <= U128_MAX;
      backoff := Scaled(backoff, multiplier);
      if backoff >= CAP {
        IterateGrows(base, multiplier, i + 1, attemptIndex);
        return CAP;
      }
    }
    delay := backoff;
  }

  // ---- What the delay is ----

  /** In plain numbers: no growth up to a multiplier of one, the base before the first retry,
      and then each delay is the one before times the multiplier, in hundredths and rounded
      down, but at most one hour. */
  lemma DelayMeaning(base: u64, multiplier: u32, k: nat)
    ensures multiplier <= 100 ==> Delay(base, multiplier, k) == Min(base, 3_600_000)
    ensures base > 0 && multiplier > 100 ==> Delay(base, multiplier, 0) == base
    ensures base > 0 && multiplier > 100 && k > 0 && Delay(base, multiplier, k) < 3_600_000 ==>
              var before, now := Delay(base, multiplier, k - 1), Delay(base, multiplier, k);
              now * 100 <= before * multiplier < now * 100 + 100
    ensures k > 0 ==> Delay(base, multiplier, k) <= 3_600_000
  {
    if base > 0 && multiplier > 100 && k > 0 {
      var x := Iterate(base, multiplier, k - 1);
      ScaledGrows(x, multiplier);
      ProductNonNegative(x, multiplier);
      assert Iterate(base, multiplier, k) == x * multiplier / 100;
    }
  }

  /** The one input family on which the cap is missed: no growth step was taken yet
      and the base itself is above the cap. */
  predicate UncappedBase(base: u64, multiplier: u32, k: nat) {
    k == 0 && multiplier > SCALE && base > CAP
  }

  /** The delay is the capped iterate, of a multiplier of at least one, exactly outside
      that family; inside it the delay is the uncapped base. */
  lemma {:induction false} DelayIsCappedIterateIff(base: u64, multiplier: u32, k: nat)
    ensures Delay(base, multiplier, k) == Min(Iterate(base, Max(multiplier, SCALE), k), CAP)
            <==> !UncappedBase(base, multiplier, k)
    ensures UncappedBase(base, multiplier, k) ==> Delay(base, multiplier, k) == base
  {
    IterateConstant(base, k);
    IterateZero(multiplier, k);
  }

  /** The documented cap of one hour holds exactly outside that family. */
  lemma DelayCappedIff(base: u64, multiplier: u32, k: nat)
    ensures Delay(base, multiplier, k) <= CAP <==> !UncappedBase(base, multiplier, k)
  {
    DelayIsCappedIterateIff(base, multiplier, k);
  }

  /** The delay never shrinks as attempts, base or multiplier grow. */
  lemma DelayMonotone(base: u64, base': u64, multiplier: u32, multiplier': u32, k: nat, k': nat)
    requires base <= base' && multiplier <= multiplier' && k <= k'
    requires !UncappedBase(base, multiplier, k)
    ensures Delay(base, multiplier, k) <= Delay(base', multiplier', k')
  {
    var m, m' := Max(multiplier, SCALE), Max(multiplier', SCALE);
    IterateMonotone(base, base', m, m', k);
    IterateGrows(base', m', k, k');
    DelayIsCappedIterateIff(base, multiplier, k);
    DelayIsCappedIterateIff(base', multiplier', k');
  }

  /** Below the cap, a base large enough for its first step to grow grows at every step. */
  lemma DelayStrictlyIncreases(base: u64, multiplier: u32, k: nat)
    requires multiplier > SCALE && base * (multiplier - SCALE) >= SCALE
    requires Iterate(base, multiplier, k) < CAP
    ensures Delay(base, multiplier, k) < Delay(base, multiplier, k + 1)
  {
    IterateGrows(base, multiplier, 0, k);
    var x := Iterate(base, multiplier, k);
    ProductMonotone(base, x, multiplier - SCALE, multiplier - SCALE);
    assert x * multiplier == x * SCALE + x * (multiplier - SCALE);
    ScaledGrows(x, multiplier);
  }
}
