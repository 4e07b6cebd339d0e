/**
 * Bit-level facts about 64-bit machine words (`usize` on a 64-bit target).
 * Bit positions are `bv6` values so that a position is always in range.
 *
 * The facts about shifts by a variable amount are split by ranges of the
 * amount: the bit-vector solver handles each range cheaply, where one lemma
 * over all 64 amounts is expensive.
 */
module Bits {
  /** Bit k (0 = least significant) of w. */
  predicate Bit(w: bv64, k: bv6) {
    (w >> k) & 1 == 1
  }

  /** A bit position below 64 as a `bv6`. */
  function ToBv6(k: nat): (r: bv6)
    requires k < 64
    ensures r as int == k
  {
    k as bv6
  }

  lemma BvLe(a: bv6, b: bv6)
    ensures (a <= b) == (a as int <= b as int)
  {
  }

  lemma BvSub(a: bv6, b: bv6)
    requires b <= a
    ensures (a - b) as int == a as int - b as int
  {
  }

  /** Subtraction that wraps around in 6-bit arithmetic. */
  lemma BvSubWrap(a: bv6, b: bv6)
    requires a < b
    ensures (a - b) as int == a as int + 64 - b as int
  {
  }

  lemma ZeroBit(k: bv6)
    ensures !Bit(0, k)
  {
  }

  /**
   * Exclusive or under a name, for use inside quantified statements (where
   * a bare bit-vector operator is much harder for the solver).
   */
  function Xor(a: bv64, b: bv64): bv64 {
    a ^ b
  }

  lemma XorBit(a: bv64, b: bv64, k: bv6)
    ensures Bit(Xor(a, b), k) == (Bit(a, k) != Bit(b, k))
  {
    XorBitRaw(a, b, k);
  }

  lemma XorBitRaw(a: bv64, b: bv64, k: bv6)
    ensures Bit(a ^ b, k) == (Bit(a, k) != Bit(b, k))
  {
  }

  lemma OrBit(a: bv64, b: bv64, k: bv6)
    ensures Bit(a | b, k) == (Bit(a, k) || Bit(b, k))
  {
  }

  /** XOR with a one-bit mask flips exactly that bit. */
  lemma ToggleBit(w: bv64, s: bv6, m: bv6)
    ensures Bit(w ^ (1 << s), m) == (Bit(w, m) != (m == s))
  {
  }

  /** XOR with the one-bit mask of position s flips exactly bit s. */
  lemma ToggleBits(w: bv64, v: bv64, s: bv6)
    requires v == 1 << s
    ensures forall m: bv6 :: Bit(Xor(w, v), m) == (Bit(w, m) != (m == s))
  {
    forall m: bv6
      ensures Bit(Xor(w, v), m) == (Bit(w, m) != (m == s))
    {
      ToggleBit(w, s, m);
    }
  }

  /** Masking bit k and shifting it down yields that bit as 0 or 1. */
  lemma ExtractBit(w: bv64, k: bv6)
    ensures (w & (1 << k)) >> k == if Bit(w, k) then 1 else 0
  {
  }

  /** Counting a bit position up by one. */
  lemma Succ6(k: bv6)
    requires k < 63
    ensures (k + 1) as int == k as int + 1
  {
  }

  /** `ToBv6` of a position's own value is that position. */
  lemma SameBv6(k: bv6, n: nat)
    requires n < 64 && k as int == n
    ensures ToBv6(n) == k
  {
  }

  /** Bit 0 is the low bit. */
  lemma LowBit(w: bv64)
    ensures (w & 1 == 1) == Bit(w, 0)
  {
  }

  /** Testing bit k with a one-bit mask. */
  lemma TestBit(w: bv64, k: bv6)
    ensures (w & (1 << k) != 0) == Bit(w, k)
  {
  }

  /** A word with no set bit is zero. */
  lemma ZeroBits(w: bv64)
    requires forall k: bv6 :: !Bit(w, k)
    ensures w == 0
  {
    assert !Bit(w, 0) && !Bit(w, 1) && !Bit(w, 2) && !Bit(w, 3) && !Bit(w, 4) && !Bit(w, 5) && !Bit(w, 6) && !Bit(w, 7) &&
      !Bit(w, 8) && !Bit(w, 9) && !Bit(w, 10) && !Bit(w, 11) && !Bit(w, 12) && !Bit(w, 13) && !Bit(w, 14) && !Bit(w, 15) &&
      !Bit(w, 16) && !Bit(w, 17) && !Bit(w, 18) && !Bit(w, 19) && !Bit(w, 20) && !Bit(w, 21) && !Bit(w, 22) && !Bit(w, 23) &&
      !Bit(w, 24) && !Bit(w, 25) && !Bit(w, 26) && !Bit(w, 27) && !Bit(w, 28) && !Bit(w, 29) && !Bit(w, 30) && !Bit(w, 31) &&
      !Bit(w, 32) && !Bit(w, 33) && !Bit(w, 34) && !Bit(w, 35) && !Bit(w, 36) && !Bit(w, 37) && !Bit(w, 38) && !Bit(w, 39) &&
      !Bit(w, 40) && !Bit(w, 41) && !Bit(w, 42) && !Bit(w, 43) && !Bit(w, 44) && !Bit(w, 45) && !Bit(w, 46) && !Bit(w, 47) &&
      !Bit(w, 48) && !Bit(w, 49) && !Bit(w, 50) && !Bit(w, 51) && !Bit(w, 52) && !Bit(w, 53) && !Bit(w, 54) && !Bit(w, 55) &&
      !Bit(w, 56) && !Bit(w, 57) && !Bit(w, 58) && !Bit(w, 59) && !Bit(w, 60) && !Bit(w, 61) && !Bit(w, 62) && !Bit(w, 63);
  }

  /** A nonzero word has a set bit. */
  lemma SomeBit(w: bv64)
    requires w != 0
    ensures exists k: bv6 :: Bit(w, k)
  {
    if forall k: bv6 :: !Bit(w, k) {
      ZeroBits(w);
    }
  }

  lemma ShlBit0(w: bv64, s: bv6, m: bv6)
    requires s < 8
    ensures Bit(w << s, m) == (m >= s && Bit(w, m - s))
  {
  }

  lemma ShlBit8(w: bv64, s: bv6, m: bv6)
    requires 8 <= s && s < 16
    ensures Bit(w << s, m) == (m >= s && Bit(w, m - s))
  {
  }

  lemma ShlBit16(w: bv64, s: bv6, m: bv6)
    requires 16 <= s && s < 24
    ensures Bit(w << s, m) == (m >= s && Bit(w, m - s))
  {
  }

  lemma ShlBit24(w: bv64, s: bv6, m: bv6)
    requires 24 <= s && s < 32
    ensures Bit(w << s, m) == (m >= s && Bit(w, m - s))
  {
  }

  lemma ShlBit32(w: bv64, s: bv6, m: bv6)
    requires 32 <= s && s < 40
    ensures Bit(w << s, m) == (m >= s && Bit(w, m - s))
  {
  }

  lemma ShlBit40(w: bv64, s: bv6, m: bv6)
    requires 40 <= s && s < 48
    ensures Bit(w << s, m) == (m >= s && Bit(w, m - s))
  {
  }

  lemma ShlBit48(w: bv64, s: bv6, m: bv6)
    requires 48 <= s && s < 56
    ensures Bit(w << s, m) == (m >= s && Bit(w, m - s))
  {
  }

  lemma ShlBit56(w: bv64, s: bv6, m: bv6)
    requires 56 <= s
    ensures Bit(w << s, m) == (m >= s && Bit(w, m - s))
  {
  }

  /** Bit m of w << s is bit m - s of w, or 0 below s. */
  lemma ShlBit(w: bv64, s: bv6, m: bv6)
    ensures Bit(w << s, m) == (m >= s && Bit(w, m - s))
  {
    if s < 8 {
      ShlBit0(w, s, m);
    } else if s < 16 {
      ShlBit8(w, s, m);
    } else if s < 24 {
      ShlBit16(w, s, m);
    } else if s < 32 {
      ShlBit24(w, s, m);
    } else if s < 40 {
      ShlBit32(w, s, m);
    } else if s < 48 {
      ShlBit40(w, s, m);
    } else if s < 56 {
      ShlBit48(w, s, m);
    } else {
      ShlBit56(w, s, m);
    }
  }

  lemma SaveBit1(w: bv64, s: bv6, m: bv6)
    requires 1 <= s && s < 8
    ensures Bit((w & (((1 << s) - 1) << (64 - s as bv7))) >> (64 - s as bv7), m) == (m < s && Bit(w, m - s))
  {
  }

  lemma SaveBit8(w: bv64, s: bv6, m: bv6)
    requires 8 <= s && s < 16
    ensures Bit((w & (((1 << s) - 1) << (64 - s as bv7))) >> (64 - s as bv7), m) == (m < s && Bit(w, m - s))
  {
  }

  lemma SaveBit16(w: bv64, s: bv6, m: bv6)
    requires 16 <= s && s < 24
    ensures Bit((w & (((1 << s) - 1) << (64 - s as bv7))) >> (64 - s as bv7), m) == (m < s && Bit(w, m - s))
  {
  }

  lemma SaveBit24(w: bv64, s: bv6, m: bv6)
    requires 24 <= s && s < 32
    ensures Bit((w & (((1 << s) - 1) << (64 - s as bv7))) >> (64 - s as bv7), m) == (m < s && Bit(w, m - s))
  {
  }

  lemma SaveBit32(w: bv64, s: bv6, m: bv6)
    requires 32 <= s && s < 40
    ensures Bit((w & (((1 << s) - 1) << (64 - s as bv7))) >> (64 - s as bv7), m) == (m < s && Bit(w, m - s))
  {
  }

  lemma SaveBit40(w: bv64, s: bv6, m: bv6)
    requires 40 <= s && s < 48
    ensures Bit((w & (((1 << s) - 1) << (64 - s as bv7))) >> (64 - s as bv7), m) == (m < s && Bit(w, m - s))
  {
  }

  lemma SaveBit48(w: bv64, s: bv6, m: bv6)
    requires 48 <= s && s < 56
    ensures Bit((w & (((1 << s) - 1) << (64 - s as bv7))) >> (64 - s as bv7), m) == (m < s && Bit(w, m - s))
  {
  }

  lemma SaveBit56(w: bv64, s: bv6, m: bv6)
    requires 56 <= s && s < 60
    ensures Bit((w & (((1 << s) - 1) << (64 - s as bv7))) >> (64 - s as bv7), m) == (m < s && Bit(w, m - s))
  {
  }

  lemma SaveBit60(w: bv64, s: bv6, m: bv6)
    requires 60 <= s
    ensures Bit((w & (((1 << s) - 1) << (64 - s as bv7))) >> (64 - s as bv7), m) == (m < s && Bit(w, m - s))
  {
  }

  /**
   * The top s bits of w, moved to the bottom: bit m of the result is bit
   * m + 64 - s of w (that is m - s in 6-bit arithmetic) for m < s.
   */
  lemma SaveBit(w: bv64, s: bv6, m: bv6)
    requires s > 0
    ensures Bit((w & (((1 << s) - 1) << (64 - s as bv7))) >> (64 - s as bv7), m) == (m < s && Bit(w, m - s))
  {
    if s < 8 {
      SaveBit1(w, s, m);
    } else if s < 16 {
      SaveBit8(w, s, m);
    } else if s < 24 {
      SaveBit16(w, s, m);
    } else if s < 32 {
      SaveBit24(w, s, m);
    } else if s < 40 {
      SaveBit32(w, s, m);
    } else if s < 48 {
      SaveBit40(w, s, m);
    } else if s < 56 {
      SaveBit48(w, s, m);
    } else if s < 60 {
      SaveBit56(w, s, m);
    } else {
      SaveBit60(w, s, m);
    }
  }
}
