/**
 * `GF2Element`: an element of GF(2^419) stored as seven 64-bit words, and
 * its arithmetic (src/lib.rs).  Every operation is a method that computes
 * on the words as the library does; its contract gives the polynomial the
 * result holds in terms of the specification in FieldSpec.
 *
 * Words may hold bits at x^419 .. x^447 (`new`, `add` and the public
 * `data` field do not reduce); `mul` and everything built on it reduce.
 */
module GF2 {
  import opened Bits
  import opened Poly
  import P = Poly
  import opened FieldSpec
  import opened Words

  /** The seven words of an element. */
  type Data = s: seq<bv64> | |s| == DIM witness [0, 0, 0, 0, 0, 0, 0]

  datatype GF2Element = GF2Element(data: Data)
  {
    /** The polynomial the words hold. */
    ghost function Value(): Poly {
      Elem(data)
    }

    static const ZERO: GF2Element := GF2Element([0, 0, 0, 0, 0, 0, 0])

    static const ONE: GF2Element := GF2Element([1, 0, 0, 0, 0, 0, 0])

    /** A fresh element: all words zero. */
    static method New() returns (r: GF2Element)
      ensures r == ZERO && r.Value() == {}
    {
      r := GF2Element([0, 0, 0, 0, 0, 0, 0]);
      ZeroValue();
    }

    /** The sum: word-by-word XOR. */
    method Add(other: GF2Element) returns (r: GF2Element)
      ensures forall i :: 0 <= i < DIM ==> r.data[i] == Xor(data[i], other.data[i])
      ensures r.Value() == P.Add(Value(), other.Value())
    {
      var newpol := new bv64[DIM](_ => 0);
      for i := 0 to DIM
        invariant forall j :: 0 <= j < i ==> newpol[j] == Xor(data[j], other.data[j])
      {
        newpol[i] := data[i] ^ other.data[i];
      }
      r := GF2Element(newpol[..]);
      ElemXor(data, other.data, r.data);
    }

    /**
     * The product: every pair of set bits i, j of the factors flips bit
     * i + j of a 14-word buffer, which is then reduced modulo F.
     */
    method Mul(other: GF2Element) returns (r: GF2Element)
      ensures r.Value() == FMul(Value(), other.Value())
    {
      var temp := Product(data, other.data);
      var d := Modulo(temp);
      r := GF2Element(d);
    }

    /**
     * The coefficient of x^n as the source reads it: bit n % 64 of word
     * n / 7, which is the coefficient of x^(64 (n / 7) + n % 64).
     */
    function GetCoefAsWritten(n: nat): (r: bool)
      requires n / DIM < DIM
      ensures r == (64 * (n / DIM) + n % 64 in Value())
    {
      var i, k := n / DIM, ToBv6(n % 64);
      MaskCoef(data, 64 * i + n % 64, i, k);
      data[i] & (1 << k) != 0
    }

    /** The coefficient of x^n, reading word n / 64. */
    function GetCoef(n: nat): (r: bool)
      requires n < 64 * DIM
      ensures r == (n in Value())
    {
      var i, k := n / 64, ToBv6(n % 64);
      MaskCoef(data, n, i, k);
      data[i] & (1 << k) != 0
    }

    /** The degree of the stored polynomial (0 for zero and one). */
    method Deg() returns (d: nat)
      ensures d == Degree(Value()) && d < 64 * DIM
    {
      d := Words.Deg(data);
    }

    /**
     * a^e by left-to-right square-and-multiply over the bits of e; the
     * exponent is an unbounded natural number.
     */
    method Pow(e: nat) returns (r: GF2Element)
      ensures r.Value() == FPow(Value(), e)
    {
      if e == 0 {
        OneValue();
        return ONE;
      }
      var result := ONE;
      OneValue();
      var hsb := HighestSetBit(e);
      PowStart(Value(), e, hsb);
      var i := hsb + 1;
      while i > 0
        invariant i <= hsb + 1
        invariant i > 0 ==> result.Value() == FPow(Value(), 2 * Shr(e, i))
        invariant i == 0 ==> result.Value() == FPow(Value(), e)
      {
        i := i - 1;
        ghost var r0 := result.Value();
        if GetBit(e, i) {
          result := result.Mul(this);
        }
        PowBitStep(Value(), e, i, r0, result.Value());
        if i != 0 {
          result := result.Sqr();
          FPowDouble(Value(), Shr(e, i));
        }
      }
      r := result;
    }

    method Sqr() returns (r: GF2Element)
      ensures r.Value() == FSqr(Value())
    {
      r := Mul(this);
    }

    /**
     * Tr(a) = a + a^2 + ... + a^(2^418), in Horner form: 417 rounds of
     * "add a, square" after a first squaring, then a last addition of a.
     */
    method Trace() returns (r: GF2Element)
      ensures r.Value() == FieldSpec.Trace(Value())
    {
      ghost var a := Value();
      var out := Sqr();
      TraceStart(a);
      for i := 2 to M
        invariant out.Value() == P.Add(FrobSum(a, i), a)
      {
        var s := out.Add(this);
        AddTwice(FrobSum(a, i), a);
        FSqrFrobSum(a, i);
        out := s.Sqr();
      }
      r := out.Add(this);
      AddTwice(FrobSum(a, M), a);
    }

    /**
     * a^(2^419 - 2) by 418 squarings and 417 multiplications: the inverse
     * of a nonzero element (InverseCorrect) and zero for zero (InverseZero).
     */
    method Inverse() returns (r: GF2Element)
      ensures r.Value() == FieldSpec.Inverse(Value())
    {
      ghost var a := Value();
      var out := Sqr();
      FPowTwo(a);
      for i := 2 to M
        invariant out.Value() == InverseChain(a, i)
      {
        var s := out.Mul(this);
        out := s.Sqr();
      }
      r := out;
      InverseFromChain(a, r.Value());
    }

    /** `From<[usize; 14]>`: the remainder of a 14-word polynomial. */
    static method FromWide(value: seq<bv64>) returns (r: GF2Element)
      requires |value| == 2 * DIM
      ensures r.Value() == ModF(Elem(value))
      ensures Degree(Elem(value)) < M ==> r.data == value[..DIM]
    {
      var d := Modulo(value);
      r := GF2Element(d);
    }
  }

  lemma ZeroValue()
    ensures GF2Element.ZERO.Value() == {}
  {
    ElemZero(GF2Element.ZERO.data);
  }

  lemma OneValue()
    ensures GF2Element.ONE.Value() == FieldSpec.ONE
  {
    var one := GF2Element.ONE.data;
    forall n: nat
      ensures (n in Elem(one)) == (n == 0)
    {
      if n < 64 * DIM {
        var i, k := n / 64, ToBv6(n % 64);
        ZeroBit(k);
        OneBit(k);
      }
    }
  }

  lemma OneBit(k: bv6)
    ensures Bit(1, k) == (k == 0)
  {
  }

  /** Two elements are equal exactly when they hold the same polynomial. */
  lemma ValueInjective(x: GF2Element, y: GF2Element)
    ensures (x == y) == (x.Value() == y.Value())
  {
    if x.Value() == y.Value() {
      ElemInjective(x.data, y.data);
    }
  }

  /** The source reads word n / 7 instead of n / 64: x^7 reads as absent. */
  lemma GetCoefAsWrittenMisreads()
    ensures var x := GF2Element([0x80, 0, 0, 0, 0, 0, 0]);
      7 in x.Value() && !x.GetCoefAsWritten(7)
  {
    var x := GF2Element([0x80, 0, 0, 0, 0, 0, 0]);
    ElemAt(x.data, 0, 7);
    ElemAt(x.data, 1, 7);
    SeventhBit();
    ZeroBit(7);
  }

  lemma SeventhBit()
    ensures Bit(0x80, 7)
  {
  }

  // ---------------------------------------------------------------------
  // The loops of `mul`

  /** Testing bit k of word i with a one-bit mask reads the coefficient of x^(64 i + k). */
  lemma MaskCoef(ws: seq<bv64>, n: nat, i: nat, k: bv6)
    requires i < |ws| && n == 64 * i + k as int
    ensures (ws[i] & (1 << k) != 0) == (n in Elem(ws))
  {
    TestBit(ws[i], k);
    ElemAtPos(ws, i, k, n);
  }

  /** The two loops of `mul`: the unreduced carry-less product in 14 words. */
  method Product(a: Data, b: Data) returns (temp: seq<bv64>)
    ensures |temp| == 2 * DIM && Elem(temp) == P.Mul(Elem(a), Elem(b))
  {
    ghost var p, q := Elem(a), Elem(b);
    var buf := new bv64[2 * DIM](_ => 0);
    ElemZero(buf[..]);
    for i := 0 to 64 * DIM
      invariant Elem(buf[..]) == MulUpTo(p, q, i)
    {
      ghost var before := Elem(buf[..]);
      MulRow(buf, a, b, i);
      MulUpToNext(p, q, i, before, Elem(buf[..]));
    }
    temp := buf[..];
    ProductDone(a, b, Elem(temp));
  }

  /** The outer loop of `mul` advances by one i. */
  lemma MulUpToNext(p: Poly, q: Poly, i: nat, before: Poly, after: Poly)
    requires before == MulUpTo(p, q, i)
    requires after == P.Add(before, if i in p then Shift(q, i) else {})
    ensures after == MulUpTo(p, q, i + 1)
  {
  }

  /** After all 64 * DIM rows the truncated product is the whole product. */
  lemma ProductDone(a: Data, b: Data, e: Poly)
    requires e == MulUpTo(Elem(a), Elem(b), 64 * DIM)
    ensures e == P.Mul(Elem(a), Elem(b))
  {
    ElemBelow(a);
    MulIsMulUpTo(Elem(a), Elem(b), 64 * DIM);
  }

  /** One pass of the inner loop of `mul`: adds x^i * b when bit i of a is set. */
  method MulRow(temp: array<bv64>, a: Data, b: Data, i: nat)
    requires temp.Length == 2 * DIM && i < 64 * DIM
    modifies temp
    ensures Elem(temp[..]) == P.Add(Elem(old(temp[..])), if i in Elem(a) then Shift(Elem(b), i) else {})
  {
    ghost var t0 := Elem(temp[..]);
    ghost var p, q := Elem(a), Elem(b);
    AddZero(t0);
    for j := 0 to 64 * DIM
      invariant Elem(temp[..]) == P.Add(t0, if i in p then Shift(Restrict(q, j), i) else {})
    {
      ghost var before := Elem(temp[..]);
      FlipProductBit(temp, a, b, i, j);
      RowAdvance(t0, before, Elem(temp[..]), p, q, i, j);
    }
    ElemBelow(b);
    assert Restrict(q, 64 * DIM) == q;
  }

  /** The statement of `mul`'s inner loop for one pair (i, j). */
  method FlipProductBit(temp: array<bv64>, a: Data, b: Data, i: nat, j: nat)
    requires temp.Length == 2 * DIM && i < 64 * DIM && j < 64 * DIM
    modifies temp
    ensures Elem(temp[..]) == P.Add(Elem(old(temp[..])), if i in Elem(a) && j in Elem(b) then {i + j} else {})
  {
    ghost var before := temp[..];
    var k, l, t := ToBv6(i % 64), ToBv6(j % 64), ToBv6((i + j) % 64);
    var ai, bj := a[i / 64], b[j / 64];
    var v := ProductMask(ai, bj, k, l, t);
    ghost var both := i in Elem(a) && j in Elem(b);
    CoefBits(a, b, i, j, ai, bj, k, l);
    var w := temp[(i + j) / 64];
    temp[(i + j) / 64] := Xor(w, v);
    ProductStep(before, temp[..], (i + j) / 64, t, v, i, j, both);
  }

  /** The source's product-bit expression is 1 << t exactly when both bits are set. */
  lemma ProductBit(a: bv64, b: bv64, k: bv6, l: bv6, t: bv6)
    ensures (((a & (1 << k)) >> k) & ((b & (1 << l)) >> l)) << t
      == if Bit(a, k) && Bit(b, l) then 1 << t else 0
  {
    ExtractBit(a, k);
    ExtractBit(b, l);
  }

  /** The mask `mul` XORs in for one pair of bits: bit t exactly when both bits are set. */
  method ProductMask(ai: bv64, bj: bv64, k: bv6, l: bv6, t: bv6) returns (v: bv64)
    ensures v == if Bit(ai, k) && Bit(bj, l) then 1 << t else 0
  {
    v := (((ai & (1 << k)) >> k) & ((bj & (1 << l)) >> l)) << t;
    ProductBit(ai, bj, k, l, t);
  }

  /** Bits k of word i / 64 and l of word j / 64 are the coefficients x^i and x^j. */
  lemma CoefBits(a: Data, b: Data, i: nat, j: nat, ai: bv64, bj: bv64, k: bv6, l: bv6)
    requires i < 64 * DIM && j < 64 * DIM
    requires ai == a[i / 64] && bj == b[j / 64]
    requires k as int == i % 64 && l as int == j % 64
    ensures (Bit(ai, k) && Bit(bj, l)) == (i in Elem(a) && j in Elem(b))
  {
    ElemAt(a, i / 64, k);
    ElemAt(b, j / 64, l);
  }

  /** One inner step of `mul`: the XOR adds x^(i + j) when both bits are set. */
  lemma ProductStep(ws: seq<bv64>, out: seq<bv64>, idx: nat, t: bv6, v: bv64, i: nat, j: nat, both: bool)
    requires |out| == |ws| && idx < |ws| && 64 * idx + t as int == i + j
    requires v == if both then 1 << t else 0
    requires out == ws[idx := Xor(ws[idx], v)]
    ensures Elem(out) == P.Add(Elem(ws), if both then {i + j} else {})
  {
    if both {
      ElemToggle(ws, out, idx, t, v);
    } else {
      assert out == ws;
    }
  }

  /** The invariant of `mul`'s inner loop advances by one j. */
  lemma RowAdvance(t0: Poly, before: Poly, after: Poly, p: Poly, q: Poly, i: nat, j: nat)
    requires before == P.Add(t0, if i in p then Shift(Restrict(q, j), i) else {})
    requires after == P.Add(before, if i in p && j in q then {i + j} else {})
    ensures after == P.Add(t0, if i in p then Shift(Restrict(q, j + 1), i) else {})
  {
    if i in p {
      RowStep(q, i, j);
      AddAssoc(t0, Shift(Restrict(q, j), i), if j in q then {i + j} else {});
    } else {
      AddZero(before);
    }
  }

  /** Adding the next term of q to the row p_i * q. */
  lemma RowStep(q: Poly, i: nat, j: nat)
    ensures Shift(Restrict(q, j + 1), i) == P.Add(Shift(Restrict(q, j), i), if j in q then {i + j} else {})
  {
  }

  lemma TraceStart(a: Poly)
    ensures P.Add(FrobSum(a, 2), a) == FSqr(a)
  {
    AddZero(a);
    assert FrobSum(a, 1) == a;
    assert FrobSum(a, 2) == P.Add(a, FSqr(a));
    AddCancel(a, FSqr(a));
  }

  /** Before the first round of `pow`, the accumulator ONE is a^(2 (e >> (h + 1))) = a^0. */
  lemma PowStart(a: Poly, e: nat, h: nat)
    requires Shr(e, h) == 1
    ensures FPow(a, 2 * Shr(e, h + 1)) == FieldSpec.ONE
  {
  }

  /** The multiply of one round of `pow`: the accumulator becomes a^(e >> i). */
  lemma PowBitStep(a: Poly, e: nat, i: nat, r0: Poly, r1: Poly)
    requires r0 == FPow(a, 2 * Shr(e, i + 1))
    requires r1 == if GetBit(e, i) then FMul(r0, a) else r0
    ensures r1 == FPow(a, Shr(e, i))
    ensures i == 0 ==> r1 == FPow(a, e)
  {
    ShrStep(e, i);
  }

  /** One round of `inverse`: multiply by a, then square. */
  lemma InverseStep(a: Poly, i: nat, prev: Poly, next: Poly)
    requires i >= 2 && prev == FPow(a, Pow2(i) - 2) && next == FSqr(FMul(prev, a))
    ensures next == FPow(a, Pow2(i + 1) - 2)
  {
    Pow2Ge4(i);
    ghost var n := Pow2(i) - 1;
    assert FMul(prev, a) == FPow(a, n);
    FPowDouble(a, n);
  }

  /** The value `inverse` holds after its first i - 1 squarings. */
  ghost function InverseChain(a: Poly, i: nat): Poly
    requires i >= 2
  {
    if i == 2 then FSqr(a) else FSqr(FMul(InverseChain(a, i - 1), a))
  }

  lemma {:induction false} InverseChainPow(a: Poly, i: nat)
    requires i >= 2
    ensures InverseChain(a, i) == FPow(a, Pow2(i) - 2)
  {
    if i == 2 {
      FPowTwo(a);
    } else {
      var prev := InverseChain(a, i - 1);
      InverseChainPow(a, i - 1);
      InverseStep(a, i - 1, prev, InverseChain(a, i));
    }
  }

  lemma InverseFromChain(a: Poly, x: Poly)
    requires x == InverseChain(a, M)
    ensures x == FieldSpec.Inverse(a)
  {
    InverseChainPow(a, M);
  }

  lemma FPowTwo(a: Poly)
    ensures FPow(a, Pow2(2) - 2) == FSqr(a)
  {
    calc {
      FPow(a, 2);
      FMul(FMul(FPow(a, 0), a), a);
      FMul(FMul(FieldSpec.ONE, a), a);
      { FMulOneLeft(a); FMulModLeft(a, a); }
      FSqr(a);
    }
  }

  // ---------------------------------------------------------------------
  // The exponent's bits (`get_highest_set_bit`, `get_bit` of the big integer)

  /** e shifted right by i bits. */
  function Shr(e: nat, i: nat): nat {
    if i == 0 then e else Shr(e, i - 1) / 2
  }

  /** Bit i of e. */
  function GetBit(e: nat, i: nat): bool {
    Shr(e, i) % 2 == 1
  }

  /** Index of the highest set bit of a positive e. */
  function HighestSetBit(e: nat): (r: nat)
    requires e > 0
    ensures Shr(e, r) == 1
  {
    if e == 1 then 0 else ShrSucc(e, HighestSetBit(e / 2)); 1 + HighestSetBit(e / 2)
  }

  lemma {:induction false} ShrSucc(e: nat, k: nat)
    ensures Shr(e, k + 1) == Shr(e / 2, k)
  {
    if k > 0 {
      ShrSucc(e, k - 1);
    }
  }

  /** e >> i = 2 (e >> (i + 1)) + bit i of e. */
  lemma ShrStep(e: nat, i: nat)
    ensures Shr(e, i) == 2 * Shr(e, i + 1) + (if GetBit(e, i) then 1 else 0)
  {
  }
}
