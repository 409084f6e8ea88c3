/** The 64-bit sets a schedule is compiled into. */
module CronBits {
  import opened Arithmetic

  const MAX_UINT64: bv64 := 0xFFFF_FFFF_FFFF_FFFF

  /** The top bit, `1 << 63`. */
  const STAR_BIT: bv64 := 0x8000_0000_0000_0000

  /** Go's `x << k` on uint64: bits shifted past the top are lost, for any count. */
  function Shl(x: bv64, k: nat): bv64 {
    if k == 0 then x else Shl(x, k - 1) << 1
  }

  predicate Test(m: bv64, x: bv64) {
    m & x != 0
  }

  /** Go's test `1<<i & x != 0`. */
  predicate Bit(x: bv64, i: nat) {
    Test(Shl(1, i), x)
  }

  // ----- masks -----

  lemma {:induction false} ShlAdd(x: bv64, a: nat, b: nat)
    ensures Shl(Shl(x, a), b) == Shl(x, a + b)
  {
    if b > 0 {
      ShlAdd(x, a, b - 1);
    }
  }

  lemma {:induction false} ShlZero(k: nat)
    ensures Shl(0, k) == 0
  {
    if k > 0 {
      ShlZero(k - 1);
    }
  }

  lemma StarBitIsTop()
    ensures Shl(1, 63) == STAR_BIT
  {
    assert Shl(1, 8) == 0x100;
    assert Shl(1, 16) == 0x1_0000;
    assert Shl(1, 24) == 0x100_0000;
    assert Shl(1, 32) == 0x1_0000_0000;
    assert Shl(1, 40) == 0x100_0000_0000;
    assert Shl(1, 48) == 0x1_0000_0000_0000;
    assert Shl(1, 56) == 0x100_0000_0000_0000;
  }

  predicate OneHot(m: bv64) {
    m != 0 && m & (m - 1) == 0
  }

  lemma OneHotShift(m: bv64)
    requires OneHot(m)
    ensures m << 1 == 0 || OneHot(m << 1)
  {
  }

  lemma {:induction false} MaskOneHot(i: nat)
    requires i < 64
    ensures OneHot(Shl(1, i))
  {
    if i > 0 {
      MaskOneHot(i - 1);
      OneHotShift(Shl(1, i - 1));
      if Shl(1, i) == 0 {
        ShlAdd(1, i, 63 - i);
        ShlZero(63 - i);
        StarBitIsTop();
      }
    }
  }

  lemma TestOr(m: bv64, x: bv64, y: bv64)
    ensures Test(m, x | y) <==> Test(m, x) || Test(m, y)
  {
    TestOrZero(m, x, y);
  }

  lemma TestOrZero(m: bv64, x: bv64, y: bv64)
    ensures m & x == 0 && m & y == 0 ==> m & (x | y) == 0
    ensures m & (x | y) == 0 ==> m & x == 0 && m & y == 0
  {
  }

  lemma TestAndNot(m: bv64, x: bv64, y: bv64)
    requires OneHot(m)
    ensures Test(m, !x & y) <==> !Test(m, x) && Test(m, y)
  {
    TestAndNotZero(m, x, y);
  }

  lemma TestAndNotZero(m: bv64, x: bv64, y: bv64)
    requires OneHot(m)
    ensures m & (!x & y) != 0 <==> m & x == 0 && m & y != 0
  {
  }

  lemma TestShift(m: bv64, x: bv64)
    requires OneHot(m) && OneHot(m << 1)
    ensures Test(m << 1, x << 1) <==> Test(m, x)
  {
  }

  lemma TestOnes(m: bv64)
    requires OneHot(m)
    ensures Test(m, MAX_UINT64)
  {
  }

  lemma TestLowest(m: bv64, x: bv64)
    requires OneHot(m)
    ensures !Test(1, x << 1)
    ensures Test(m, 1) <==> m == 1
    ensures Test(m << 1, 1) <==> false
  {
  }

  // ----- bits of the operators -----

  lemma BitOr(x: bv64, y: bv64, i: nat)
    ensures Bit(x | y, i) <==> Bit(x, i) || Bit(y, i)
  {
    hide Test;
    TestOr(Shl(1, i), x, y);
  }

  lemma BitAndNot(x: bv64, y: bv64, i: nat)
    requires i < 64
    ensures Bit(!x & y, i) <==> !Bit(x, i) && Bit(y, i)
  {
    hide Test, OneHot;
    MaskOneHot(i);
    TestAndNot(Shl(1, i), x, y);
  }

  lemma {:induction false} BitMask(i: nat, j: nat)
    requires i < 64 && j < 64
    ensures Bit(Shl(1, i), j) <==> i == j
    decreases i
  {
    hide Test, OneHot;
    MaskOneHot(j);
    if j == 0 {
      if i == 0 {
        TestOnes(1);
        TestLowest(1, 1);
      } else {
        TestLowest(1, Shl(1, i - 1));
      }
    } else {
      MaskOneHot(j - 1);
      if i == 0 {
        TestLowest(Shl(1, j - 1), 1);
      } else {
        BitMask(i - 1, j - 1);
        TestShift(Shl(1, j - 1), Shl(1, i - 1));
      }
    }
  }

  lemma {:induction false} BitShlOnes(k: nat, i: nat)
    requires i < 64
    ensures Bit(Shl(MAX_UINT64, k), i) <==> k <= i
    decreases k
  {
    hide Test, OneHot;
    MaskOneHot(i);
    if k == 0 {
      TestOnes(Shl(1, i));
    } else if i == 0 {
      TestLowest(1, Shl(MAX_UINT64, k - 1));
    } else {
      BitShlOnes(k - 1, i - 1);
      MaskOneHot(i - 1);
      TestShift(Shl(1, i - 1), Shl(MAX_UINT64, k - 1));
    }
  }

  lemma BitZero(i: nat)
    ensures !Bit(0, i)
  {
  }

  // ----- getBits -----

  /** The values a step range stands for. */
  predicate InSteps(min: nat, max: nat, step: nat, i: nat)
    requires step > 0
  {
    min <= i <= max && (i - min) % step == 0
  }

  /** Between two consecutive steps lies no step value. */
  lemma StepGap(min: nat, step: nat, n: nat, j: nat)
    requires step > 0 && min + n * step <= j < min + n * step + step
    ensures (j - min) % step == 0 <==> j == min + n * step
  {
    ModUnique(j - min, step, n, j - min - n * step);
  }

  /** Exactly the values of the step range below `end` are in the set. */
  ghost predicate StepsBelow(bits: bv64, min: nat, max: nat, step: nat, end: nat)
    requires step > 0
  {
    forall i: nat | i < 64 :: Bit(bits, i) <==> InSteps(min, max, step, i) && i < end
  }

  lemma ShiftFormAt(above: bv64, from: bv64, min: nat, max: nat, i: nat)
    requires i < 64
    requires (Bit(above, i) <==> max + 1 <= i) && (Bit(from, i) <==> min <= i)
    ensures Bit(!above & from, i) <==> InSteps(min, max, 1, i)
  {
    hide Bit;
    BitAndNot(above, from, i);
  }

  lemma LoopFormAt(bits: bv64, min: nat, max: nat, step: nat, n: nat, j: nat)
    requires step > 0 && max < 63 && min + n * step <= max && j < 64
    requires Bit(bits, j) <==> InSteps(min, max, step, j) && j < min + n * step
    ensures Bit(bits | Shl(1, min + n * step), j) <==> InSteps(min, max, step, j) && j < min + n * step + step
  {
    hide Bit, Shl;
    var i := min + n * step;
    BitOr(bits, Shl(1, i), j);
    BitMask(i, j);
    if i <= j < i + step {
      StepGap(min, step, n, j);
    }
  }

  /** Exactly the bits from k on are set. */
  ghost predicate OnesFrom(x: bv64, k: nat) {
    forall i: nat | i < 64 :: Bit(x, i) <==> k <= i
  }

  lemma ShlOnes(k: nat)
    ensures OnesFrom(Shl(MAX_UINT64, k), k)
  {
    hide Bit;
    forall i: nat | i < 64 ensures Bit(Shl(MAX_UINT64, k), i) <==> k <= i {
      BitShlOnes(k, i);
    }
  }

  lemma ShiftForm(above: bv64, from: bv64, min: nat, max: nat)
    requires OnesFrom(above, max + 1) && OnesFrom(from, min)
    ensures StepsBelow(!above & from, min, max, 1, 64)
  {
    hide Bit;
    var bits := !above & from;
    forall i: nat | i < 64 ensures Bit(bits, i) <==> InSteps(min, max, 1, i) {
      ShiftFormAt(above, from, min, max, i);
    }
  }

  lemma LoopStarts(min: nat, max: nat, step: nat)
    requires step > 0
    ensures StepsBelow(0, min, max, step, min)
  {
    hide Bit;
    forall i: nat ensures !Bit(0, i) {
      BitZero(i);
    }
  }

  lemma LoopForm(bits: bv64, min: nat, max: nat, step: nat, n: nat)
    requires step > 0 && max < 63 && min + n * step <= max
    requires StepsBelow(bits, min, max, step, min + n * step)
    ensures StepsBelow(bits | Shl(1, min + n * step), min, max, step, min + n * step + step)
  {
    hide Bit, InSteps;
    var end := min + n * step + step;
    var more := bits | Shl(1, min + n * step);
    forall j: nat | j < 64 ensures Bit(more, j) <==> InSteps(min, max, step, j) && j < end {
      LoopFormAt(bits, min, max, step, n, j);
    }
  }

  lemma LoopEnds(bits: bv64, min: nat, max: nat, step: nat, end: nat)
    requires step > 0 && StepsBelow(bits, min, max, step, end) && end > max
    ensures StepsBelow(bits, min, max, step, 64)
  {
    hide Bit;
  }

  /** getBits: the shift form for step 1 and the loop form set exactly the bits min, min+step, ... up
      to max. The counter cannot wrap: min <= 59 and step < 2^63 in every call. */
  method GetBits(min: nat, max: nat, step: nat) returns (bits: bv64)
    requires step > 0 && max < 63
    ensures StepsBelow(bits, min, max, step, 64)
  {
    hide StepsBelow, OnesFrom, Shl;
    if step == 1 {
      ShlOnes(max + 1);
      ShlOnes(min);
      ShiftForm(Shl(MAX_UINT64, max + 1), Shl(MAX_UINT64, min), min, max);
      return !Shl(MAX_UINT64, max + 1) & Shl(MAX_UINT64, min);
    }
    bits := 0;
    LoopStarts(min, max, step);
    var i := min;
    ghost var n := 0;
    while i <= max
      invariant i == min + n * step
      invariant StepsBelow(bits, min, max, step, i)
      decreases max + step - i
    {
      LoopForm(bits, min, max, step, n);
      bits := bits | Shl(1, i);
      i := i + step;
      n := n + 1;
    }
    LoopEnds(bits, min, max, step, i);
  }
}
