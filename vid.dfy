/** The two rounding helpers of the video encoder (vid.c), on 32-bit
    unsigned words. */
module Vid {
  /** IS_POW_2(val): the two's complement trick `(~val + 1) & val == val`. */
  predicate IsPow2Bits(v: bv32)
    ensures IsPow2Bits(v) <==> v & (v - 1) == 0
  {
    ((!v + 1) & v) == v
  }

  /** The word with only bit k set (zero for k = 32: the bit is shifted out). */
  function Bit(k: bv32): bv32
    requires k <= 32
  {
    (1 as bv32) << k
  }

  /** Reference definition: the value is `1 << k` for a bit position k below 32. */
  ghost predicate PowerOfTwo(v: bv32)
  {
    exists k: bv32 :: k < 32 && v == Bit(k)
  }
  /** Exactly one bit is set: the value is non-zero and clearing its lowest
      set bit leaves nothing. */
  predicate SingleBit(v: bv32)
  {
    v != 0 && v & (v - 1) == 0
  }

  /** The two formulations of "power of two" agree. */
  lemma SingleBitIsPowerOfTwo(v: bv32)
    ensures SingleBit(v) <==> PowerOfTwo(v)
  {
    if SingleBit(v) {
      assert IsPow2Bits(v);
      LowestBit(v, 0);
    }
    if PowerOfTwo(v) {
      var k: bv32 :| k < 32 && v == Bit(k);
      assert SingleBit(v);
    }
  }

  lemma {:induction false} LowestBit(v: bv32, k: bv32)
    requires k < 32 && v != 0 && IsPow2Bits(v)
    requires v & (Bit(k) - 1) == 0
    ensures PowerOfTwo(v)
    decreases 32 - k
  {
    if v & Bit(k) != 0 {
      assert v == Bit(k);
    } else {
      assert k + 1 < 32;
      LowestBit(v, k + 1);
    }
  }

  /** The bit trick holds exactly of zero and of the powers of two. */
  lemma IsPow2BitsCharacterised(v: bv32)
    ensures IsPow2Bits(v) <==> v == 0 || PowerOfTwo(v)
  {
    if v != 0 && IsPow2Bits(v) {
      LowestBit(v, 0);
    }
    if PowerOfTwo(v) {
      var k: bv32 :| k < 32 && v == Bit(k);
      assert IsPow2Bits(v);
    }
  }

  /** The loop of get_pow_2: double `est`, starting from 1, while it is
      non-zero and below the value. */
  method Doubling(value: bv32) returns (est: bv32)
    requires value > 1
    ensures value <= 0x8000_0000 ==> SingleBit(est)
    ensures value <= 0x8000_0000 ==> value <= est
    ensures value <= 0x8000_0000 ==> (est >> 1) < value
    ensures value > 0x8000_0000 ==> est == 0
  {
    est := 1;
    ghost var k: bv32 := 0;
    while est != 0 && est < value
      invariant k <= 32 && est == Bit(k)
      invariant k > 0 ==> Bit(k - 1) < value
      decreases 32 - k
    {
      est := est << 1;
      k := k + 1;
    }
    DoublingResult(value, est, k);
  }

  /** What the doubling loop of get_pow_2 leaves behind once it stops. */
  lemma DoublingResult(value: bv32, est: bv32, k: bv32)
    requires value > 1
    requires k <= 32 && est == Bit(k)
    requires k > 0 ==> Bit(k - 1) < value
    requires est == 0 || value <= est
    ensures value <= 0x8000_0000 ==> SingleBit(est)
    ensures value <= 0x8000_0000 ==> value <= est
    ensures value <= 0x8000_0000 ==> (est >> 1) < value
    ensures value > 0x8000_0000 ==> est == 0
  {
    assert k > 0;
    if est != 0 {
      assert k < 32 && est >> 1 == Bit(k - 1);
    } else {
      assert k == 32;
    }
  }

  /** get_pow_2: the value itself when IS_POW_2 holds (zero included);
      otherwise the first power of two reached by doubling from 1 that is not
      below the value, or 0 once the doubling has shifted the bit out. */
  method GetPow2(value: bv32) returns (r: bv32)
    ensures IsPow2Bits(value) ==> r == value
    ensures !IsPow2Bits(value) && value <= 0x8000_0000 ==> SingleBit(r)
    ensures !IsPow2Bits(value) && value <= 0x8000_0000 ==> value <= r
    ensures !IsPow2Bits(value) && value <= 0x8000_0000 ==> (r >> 1) < value
    ensures !IsPow2Bits(value) && value > 0x8000_0000 ==> r == 0
  {
    if IsPow2Bits(value) {
      r := value;
      return;
    }
    assert value > 1;
    r := Doubling(value);
  }

  /** get_ceil_even: an odd value is rounded up by one (wrapping for the
      largest word), an even value is returned unchanged. */
  function GetCeilEven(value: bv32): (r: bv32)
    ensures value & 1 == 0 ==> r == value
    ensures value & 1 == 1 ==> r == value + 1
  {
    if value & 0x1 != 0 then value + 1 else value
  }

  /** Without wrap-around the result is even and at most one above the
      value. */
  lemma CeilEvenBounds(value: bv32)
    requires value != 0xffff_ffff
    ensures GetCeilEven(value) & 1 == 0
    ensures value <= GetCeilEven(value) && GetCeilEven(value) - value <= 1
  {
  }
}
