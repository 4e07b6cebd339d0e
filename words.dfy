/**
 * Word vectors (`[usize; N]`, `&[usize]`) read as polynomials over GF(2),
 * and the two free functions of the library that work on them: `deg` and
 * `modulo`.
 */
module Words {
  import opened Bits
  import opened Poly
  import opened FieldSpec

  /** Number of words of an element: ceil(419 / 64). */
  const DIM: nat := 7

  /** Words of the field polynomial x^419 + x^21 + x^14 + x + 1. */
  const MOD: seq<bv64> := [0x204003, 0, 0, 0, 0, 0, 0x8_0000_0000]

  /** Bit k of word i is the coefficient of x^(64 i + k). */
  ghost function Elem(ws: seq<bv64>): (r: Poly)
    ensures forall n: nat {:trigger n in r} :: n in r <==> n < 64 * |ws| && Bit(ws[n / 64], ToBv6(n % 64))
  {
    set n: nat | n < 64 * |ws| && Bit(ws[n / 64], ToBv6(n % 64))
  }

  lemma DivMod64(n: nat, i: nat, k: nat)
    requires k < 64 && n == 64 * i + k
    ensures n / 64 == i && n % 64 == k
  {
  }

  /** The coefficient at word i, bit k. */
  lemma ElemAt(ws: seq<bv64>, i: nat, k: bv6)
    requires i < |ws|
    ensures (64 * i + k as int in Elem(ws)) == Bit(ws[i], k)
  {
    DivMod64(64 * i + k as int, i, k as int);
  }

  /** The same, for a position given by its value. */
  lemma ElemAtPos(ws: seq<bv64>, i: nat, k: bv6, n: nat)
    requires i < |ws| && n == 64 * i + k as int
    ensures (n in Elem(ws)) == Bit(ws[i], k)
  {
    ElemAt(ws, i, k);
  }

  lemma ElemBelow(ws: seq<bv64>)
    ensures Below(Elem(ws), 64 * |ws|)
  {
  }

  lemma ElemZero(ws: seq<bv64>)
    requires forall i :: 0 <= i < |ws| ==> ws[i] == 0
    ensures Elem(ws) == {}
  {
  }

  /** Words that are the XOR of two others hold the sum of their polynomials. */
  lemma ElemXor(a: seq<bv64>, b: seq<bv64>, c: seq<bv64>)
    requires |a| == |b| == |c|
    requires forall i :: 0 <= i < |c| ==> c[i] == Xor(a[i], b[i])
    ensures Elem(c) == Add(Elem(a), Elem(b))
  {
    forall n: nat
      ensures (n in Elem(c)) == ((n in Elem(a)) != (n in Elem(b)))
    {
      ElemXorAt(a, b, c, n);
    }
  }

  lemma ElemXorAt(a: seq<bv64>, b: seq<bv64>, c: seq<bv64>, n: nat)
    requires |a| == |b| == |c|
    requires forall i :: 0 <= i < |c| ==> c[i] == Xor(a[i], b[i])
    ensures (n in Elem(c)) == ((n in Elem(a)) != (n in Elem(b)))
  {
    if n < 64 * |c| {
      var i, k := n / 64, ToBv6(n % 64);
      assert c[i] == Xor(a[i], b[i]);
      XorBit(a[i], b[i], k);
    }
  }

  /** Flipping bit t of word idx adds the term x^(64 idx + t). */
  lemma ElemToggle(ws: seq<bv64>, out: seq<bv64>, idx: nat, t: bv6, v: bv64)
    requires idx < |ws| && v == 1 << t && out == ws[idx := Xor(ws[idx], v)]
    ensures Elem(out) == Add(Elem(ws), {64 * idx + t as int})
  {
    ToggleBits(ws[idx], v, t);
    ElemToggleBits(ws, out, idx, t);
  }

  /** The same, given how the bits of word idx change. */
  lemma ElemToggleBits(ws: seq<bv64>, out: seq<bv64>, idx: nat, t: bv6)
    requires |out| == |ws| && idx < |ws|
    requires forall k: bv6 :: Bit(out[idx], k) == (Bit(ws[idx], k) != (k == t))
    requires forall j :: 0 <= j < |ws| && j != idx ==> out[j] == ws[j]
    ensures Elem(out) == Add(Elem(ws), {64 * idx + t as int})
  {
    forall n: nat
      ensures (n in Elem(out)) == ((n in Elem(ws)) != (n == 64 * idx + t as int))
    {
      ElemToggleAt(ws, out, idx, t, n);
    }
  }

  lemma ElemToggleAt(ws: seq<bv64>, out: seq<bv64>, idx: nat, t: bv6, n: nat)
    requires |out| == |ws| && idx < |ws|
    requires forall k: bv6 :: Bit(out[idx], k) == (Bit(ws[idx], k) != (k == t))
    requires forall j :: 0 <= j < |ws| && j != idx ==> out[j] == ws[j]
    ensures (n in Elem(out)) == ((n in Elem(ws)) != (n == 64 * idx + t as int))
  {
    if n < 64 * |ws| {
      var i, k := n / 64, ToBv6(n % 64);
      if i == idx {
        SamePosition(n, idx, t, k);
      } else {
        assert out[i] == ws[i];
      }
    }
  }

  /** Within word idx, position n is the toggled one exactly when its bit index is t. */
  lemma SamePosition(n: nat, idx: nat, t: bv6, k: bv6)
    requires n / 64 == idx && k as int == n % 64
    ensures (k == t) == (n == 64 * idx + t as int)
  {
  }

  /** The first k words hold the terms below x^(64 k). */
  lemma ElemPrefix(ws: seq<bv64>, k: nat)
    requires k <= |ws|
    ensures Elem(ws[..k]) == Restrict(Elem(ws), 64 * k)
  {
    forall n: nat | n < 64 * k
      ensures n / 64 < k
    {
    }
  }

  lemma ElemInjective(a: seq<bv64>, b: seq<bv64>)
    requires |a| == |b| && Elem(a) == Elem(b)
    ensures a == b
  {
    forall i | 0 <= i < |a|
      ensures a[i] == b[i]
    {
      forall k: bv6
        ensures !Bit(Xor(a[i], b[i]), k) && Bit(a[i], k) == Bit(b[i], k)
      {
        ElemAt(a, i, k);
        ElemAt(b, i, k);
        XorBit(a[i], b[i], k);
      }
      ZeroBits(Xor(a[i], b[i]));
    }
  }

  lemma LowModBits(k: bv6)
    ensures Bit(0x204003, k) == (k == 0 || k == 1 || k == 14 || k == 21)
  {
  }

  lemma HighModBits(k: bv6)
    ensures Bit(0x8_0000_0000, k) == (k == 35)
  {
  }

  /** The constant MOD holds the field polynomial. */
  lemma ElemMod()
    ensures Elem(MOD) == F
  {
    forall n | n in Elem(MOD)
      ensures n in F
    {
      var i, k := n / 64, ToBv6(n % 64);
      LowModBits(k);
      HighModBits(k);
      if 0 < i < 6 {
        ZeroBit(k);
      }
    }
    forall n | n in F
      ensures n in Elem(MOD)
    {
      var k := ToBv6(n % 64);
      LowModBits(k);
      HighModBits(k);
    }
  }

  /** deg(MOD) = 419. */
  lemma DegMod()
    ensures Degree(Elem(MOD)) == M
  {
    ElemMod();
  }

  // ---------------------------------------------------------------------
  // deg

  /**
   * Index of the highest set bit, or 0 for the all-zero vector (so the zero
   * polynomial and the polynomial 1 both have degree 0).  The source panics
   * on an empty slice.
   */
  method Deg(arr: seq<bv64>) returns (d: nat)
    requires |arr| >= 1
    ensures d == Degree(Elem(arr))
    ensures d < 64 * |arr|
  {
    var maxpart := 0;
    var i := |arr|;
    while i > 0
      invariant 0 <= i <= |arr|
      invariant maxpart == 0
      invariant forall j :: i <= j < |arr| ==> arr[j] == 0
    {
      i := i - 1;
      if arr[i] > 0 {
        maxpart := i;
        break;
      }
    }
    if arr[maxpart] == 0 {
      ElemZero(arr);
      return 0;
    }
    var w := arr[maxpart];
    assert forall j :: maxpart < j < |arr| ==> arr[j] == 0;
    var biti: bv6 := 63;
    while true
      invariant forall k: bv6 :: biti < k ==> !Bit(w, k)
      decreases biti
    {
      TestBit(w, biti);
      if w & (1 << biti) != 0 {
        d := maxpart * 64 + biti as int;
        DegIsTop(arr, maxpart, biti);
        return;
      }
      if biti == 0 {
        ZeroBits(w);
        assert false;
      }
      biti := biti - 1;
    }
  }

  /** The highest set bit of the highest nonzero word is the degree. */
  lemma DegIsTop(arr: seq<bv64>, i: nat, b: bv6)
    requires i < |arr| && Bit(arr[i], b)
    requires forall k: bv6 :: b < k ==> !Bit(arr[i], k)
    requires forall j :: i < j < |arr| ==> arr[j] == 0
    ensures Degree(Elem(arr)) == 64 * i + b as int
  {
    ElemAt(arr, i, b);
    forall n | n in Elem(arr)
      ensures n <= 64 * i + b as int
    {
      BelowTop(arr, i, b, n);
    }
  }

  lemma BelowTop(arr: seq<bv64>, i: nat, b: bv6, n: nat)
    requires i < |arr|
    requires forall k: bv6 :: b < k ==> !Bit(arr[i], k)
    requires forall j :: i < j < |arr| ==> arr[j] == 0
    requires n in Elem(arr)
    ensures n <= 64 * i + b as int
  {
    var j, k := n / 64, ToBv6(n % 64);
    assert Bit(arr[j], k);
    if j > i {
      assert arr[j] == 0;
      ZeroBit(k);
    } else if j == i {
      BvLe(k, b);
    }
  }

  // ---------------------------------------------------------------------
  // modulo

  /** The 14-word buffer with MOD placed at words d .. d + 6. */
  ghost predicate PlacedMod(ws: seq<bv64>, d: nat) {
    forall j :: 0 <= j < |ws| ==> ws[j] == if d <= j < d + DIM then MOD[j - d] else 0
  }

  lemma PlacedModElem(ws: seq<bv64>, d: nat)
    requires |ws| == 2 * DIM && d <= DIM && PlacedMod(ws, d)
    ensures Elem(ws) == Shift(F, 64 * d)
  {
    ElemMod();
    forall n: nat
      ensures (n in Elem(ws)) == (n >= 64 * d && n - 64 * d in Elem(MOD))
    {
      PlacedAt(ws, d, n);
    }
  }

  lemma PlacedAt(ws: seq<bv64>, d: nat, n: nat)
    requires |ws| == 2 * DIM && d <= DIM && PlacedMod(ws, d)
    ensures (n in Elem(ws)) == (n >= 64 * d && n - 64 * d in Elem(MOD))
  {
    if n < 64 * |ws| {
      var i := n / 64;
      if d <= i < d + DIM {
        PlacedInside(ws, MOD, d, i, n);
      } else {
        PlacedOutside(ws, MOD, d, i, n);
      }
    }
  }

  lemma PlacedInside(ws: seq<bv64>, src: seq<bv64>, d: nat, i: nat, n: nat)
    requires d <= i < d + |src| && i < |ws| && i == n / 64
    requires ws[i] == src[i - d]
    ensures (n in Elem(ws)) == (n >= 64 * d && n - 64 * d in Elem(src))
  {
    var k := ToBv6(n % 64);
    ElemAt(ws, i, k);
    ElemAt(src, i - d, k);
  }

  lemma PlacedOutside(ws: seq<bv64>, src: seq<bv64>, d: nat, i: nat, n: nat)
    requires (i < d || d + |src| <= i) && i < |ws| && i == n / 64
    requires ws[i] == 0
    ensures (n in Elem(ws)) == (n >= 64 * d && n - 64 * d in Elem(src))
  {
    ZeroBit(ToBv6(n % 64));
    assert n - 64 * d >= 64 * |src| ==> n - 64 * d !in Elem(src);
  }

  /** The word below word j, or 0 below the first. */
  function Prev(ws: seq<bv64>, j: nat): bv64
    requires j < |ws|
  {
    if j == 0 then 0 else ws[j - 1]
  }

  /** Word y holds the top s bits of p, moved to the bottom. */
  ghost predicate Saved(y: bv64, p: bv64, s: bv6) {
    forall m: bv6 :: Bit(y, m) == (m < s && Bit(p, m - s))
  }

  /** Word r is word a shifted up by s, with the top s bits of p carried in. */
  ghost predicate Carried(r: bv64, a: bv64, p: bv64, s: bv6) {
    forall m: bv6 :: Bit(r, m) == if m >= s then Bit(a, m - s) else Bit(p, m - s)
  }

  lemma SavedZero(s: bv6)
    ensures Saved(0, 0, s)
  {
  }

  /** The `save` expression of `modulo` keeps the top s bits. */
  lemma SaveWord(p: bv64, s: bv6, y: bv64)
    requires s > 0
    requires y == (p & (((1 << s) - 1) << (64 - s as bv7))) >> (64 - s as bv7)
    ensures Saved(y, p, s)
  {
    forall m: bv6
      ensures Bit(y, m) == (m < s && Bit(p, m - s))
    {
      SaveBit(p, s, m);
    }
  }

  lemma ShlOrBit(a: bv64, y: bv64, s: bv6, m: bv6)
    ensures Bit((a << s) | y, m) == ((m >= s && Bit(a, m - s)) || Bit(y, m))
  {
    OrBit(a << s, y, m);
    ShlBit(a, s, m);
  }

  lemma ShlOrAll(a: bv64, y: bv64, s: bv6, r: bv64)
    requires r == (a << s) | y
    ensures forall m: bv6 :: Bit(r, m) == ((m >= s && Bit(a, m - s)) || Bit(y, m))
  {
    forall m: bv6
      ensures Bit(r, m) == ((m >= s && Bit(a, m - s)) || Bit(y, m))
    {
      ShlOrBit(a, y, s, m);
    }
  }

  /** Shifting a word up and OR-ing in the saved bits of its neighbour. */
  lemma CarryWord(a: bv64, y: bv64, p: bv64, s: bv6, r: bv64)
    requires r == (a << s) | y
    requires Saved(y, p, s)
    ensures Carried(r, a, p, s)
  {
    ShlOrAll(a, y, s, r);
  }

  /** The carry loop multiplies by x^s, dropping what leaves the buffer. */
  lemma CarryElem(ws: seq<bv64>, out: seq<bv64>, s: bv6)
    requires |out| == |ws| && s > 0
    requires forall j :: 0 <= j < |ws| ==> Carried(out[j], ws[j], Prev(ws, j), s)
    ensures Elem(out) == Restrict(Shift(Elem(ws), s as int), 64 * |ws|)
  {
    forall n: nat | n < 64 * |ws|
      ensures (n in Elem(out)) == (n >= s as int && n - s as int in Elem(ws))
    {
      CarryAt(ws, out, s, n);
    }
  }

  lemma CarryAt(ws: seq<bv64>, out: seq<bv64>, s: bv6, n: nat)
    requires |out| == |ws| && s > 0 && n < 64 * |ws|
    requires forall j :: 0 <= j < |ws| ==> Carried(out[j], ws[j], Prev(ws, j), s)
    ensures (n in Elem(out)) == (n >= s as int && n - s as int in Elem(ws))
  {
    var j, m := n / 64, ToBv6(n % 64);
    ElemAt(out, j, m);
    CarriedBitAt(ws, out, s, j, m);
    CarryBitElem(ws, j, m, s, n, Bit(out[j], m));
  }

  /** The source of bit m of a carried word. */
  predicate CarrySource(a: bv64, p: bv64, s: bv6, m: bv6) {
    if m >= s then Bit(a, m - s) else Bit(p, m - s)
  }

  lemma CarriedBitAt(ws: seq<bv64>, out: seq<bv64>, s: bv6, j: nat, m: bv6)
    requires |out| == |ws| && j < |ws|
    requires forall j :: 0 <= j < |ws| ==> Carried(out[j], ws[j], Prev(ws, j), s)
    ensures Bit(out[j], m) == CarrySource(ws[j], Prev(ws, j), s, m)
  {
    assert Carried(out[j], ws[j], Prev(ws, j), s);
  }

  /** Bit m of carried word j, whichever word it comes from, is the coefficient of x^(n - s). */
  lemma CarryBitElem(ws: seq<bv64>, j: nat, m: bv6, s: bv6, n: nat, b: bool)
    requires j < |ws| && n == 64 * j + m as int
    requires b == CarrySource(ws[j], Prev(ws, j), s, m)
    ensures b == (n >= s as int && n - s as int in Elem(ws))
  {
    if m >= s {
      CarryHigh(ws, j, m, s, n, b);
    } else if j > 0 {
      CarryLow(ws, j, m, s, n, b);
    } else {
      CarryNone(m, s, n, b);
    }
  }

  lemma CarryHigh(ws: seq<bv64>, j: nat, m: bv6, s: bv6, n: nat, b: bool)
    requires j < |ws| && n == 64 * j + m as int && m >= s
    requires b == Bit(ws[j], m - s)
    ensures b == (n >= s as int && n - s as int in Elem(ws))
  {
    BvSub(m, s);
    ElemAtPos(ws, j, m - s, n - s as int);
  }

  /** A bit below the shift comes from the word below. */
  lemma CarryLow(ws: seq<bv64>, j: nat, m: bv6, s: bv6, n: nat, b: bool)
    requires 0 < j < |ws| && n == 64 * j + m as int && m < s
    requires b == Bit(ws[j - 1], m - s)
    ensures b == (n >= s as int && n - s as int in Elem(ws))
  {
    BvSubWrap(m, s);
    CarryFromPrev(ws, j, m - s, n - s as int, b);
  }

  /** Nothing is carried into the bottom word. */
  lemma CarryNone(m: bv6, s: bv6, n: nat, b: bool)
    requires n == m as int && m < s
    requires b == Bit(0, m - s)
    ensures !b && n < s as int
  {
    ZeroBit(m - s);
  }

  /** A bit carried out of word j - 1 is the coefficient it had there. */
  lemma CarryFromPrev(ws: seq<bv64>, j: nat, k: bv6, e: nat, b: bool)
    requires 0 < j < |ws| && e == 64 * (j - 1) + k as int
    requires b == Bit(ws[j - 1], k)
    ensures b == (e in Elem(ws))
  {
    ElemAt(ws, j - 1, k);
  }

  lemma RestrictShiftF(t: nat, k: nat)
    requires t + M < k
    ensures Restrict(Shift(F, t), k) == Shift(F, t)
  {
  }

  /**
   * Remainder of a 14-word polynomial modulo the field polynomial, by
   * repeated cancellation of the leading term with a shifted copy of MOD.
   */
  method Modulo(x0: seq<bv64>) returns (r: seq<bv64>)
    requires |x0| == 2 * DIM
    ensures |r| == DIM
    ensures Elem(r) == ModF(Elem(x0))
    ensures Degree(Elem(x0)) < M ==> r == x0[..DIM]
  {
    var x := new bv64[2 * DIM](i requires 0 <= i < 2 * DIM => x0[i]);
    assert x[..] == x0;
    var d0 := Deg(x[..]);
    if d0 < M {
      r := Truncate(x);
      ElemPrefix(x0, DIM);
      return;
    }
    Reduce(x);
    r := Truncate(x);
    ghost var p := Elem(x[..]);
    ElemPrefix(x[..], DIM);
    ModFOfReduced(p);
    assert Elem(r) == p;
  }

  /** The `loop` of `modulo`: cancel the leading term until the degree is below 419. */
  method Reduce(x: array<bv64>)
    requires x.Length == 2 * DIM
    modifies x
    ensures ModF(Elem(x[..])) == ModF(Elem(old(x[..])))
    ensures Degree(Elem(x[..])) < M
  {
    while true
      invariant ModF(Elem(x[..])) == ModF(Elem(old(x[..])))
      decreases Degree(Elem(x[..]))
    {
      var xDeg := Deg(x[..]);
      if xDeg < M {
        break;
      }
      ghost var x1 := x[..];
      Step(x, xDeg);
      StepLowers(Elem(x1));
    }
  }

  /** The first DIM words of x, copied into a fresh result buffer. */
  method Truncate(x: array<bv64>) returns (r: seq<bv64>)
    requires x.Length == 2 * DIM
    ensures r == x[..DIM]
  {
    var result := new bv64[DIM](_ => 0);
    for i := 0 to DIM
      invariant result[..i] == x[..i]
    {
      result[i] := x[i];
    }
    r := result[..];
  }

  /** One pass of the `modulo` loop: XOR in MOD shifted under the leading term. */
  method Step(x: array<bv64>, xDeg: nat)
    requires x.Length == 2 * DIM
    requires xDeg == Degree(Elem(x[..])) >= M
    modifies x
    ensures Elem(x[..]) == Add(Elem(old(x[..])), Shift(F, Max(Elem(old(x[..]))) - M))
  {
    ElemBelow(x[..]);
    var toShiftTotal := xDeg - M;
    var localModCopy := ShiftedMod(toShiftTotal);
    XorInto(x, localModCopy);
  }

  /** The `local_mod_copy` of one pass: MOD shifted up by `to_shift_total` bits. */
  method ShiftedMod(toShiftTotal: nat) returns (localModCopy: array<bv64>)
    requires toShiftTotal + M < 64 * 2 * DIM
    ensures fresh(localModCopy) && localModCopy.Length == 2 * DIM
    ensures Elem(localModCopy[..]) == Shift(F, toShiftTotal)
  {
    var toShiftBits := toShiftTotal % 64;
    var toShiftDigits := toShiftTotal / 64;
    ShiftParts(toShiftTotal, toShiftDigits, toShiftBits);
    localModCopy := PlaceMod(toShiftDigits);
    PlacedModElem(localModCopy[..], toShiftDigits);
    if toShiftBits > 0 {
      ShiftModBits(localModCopy, 64 * toShiftDigits, toShiftBits);
    }
  }

  /** A shift below 14 words splits into at most 7 whole words and a bit count. */
  lemma ShiftParts(n: nat, digits: nat, bits: nat)
    requires n + M < 64 * 2 * DIM && digits == n / 64 && bits == n % 64
    ensures n == 64 * digits + bits && digits <= DIM && bits < 64
  {
  }

  /** The bit shift of `local_mod_copy`, when `to_shift_bits` is not zero. */
  method ShiftModBits(a: array<bv64>, digits: nat, bits: nat)
    requires a.Length == 2 * DIM && 0 < bits < 64 && digits + bits + M < 64 * 2 * DIM
    requires Elem(a[..]) == Shift(F, digits)
    modifies a
    ensures Elem(a[..]) == Shift(F, digits + bits)
  {
    ShiftUp(a, ToBv6(bits));
    ShiftModChain(Elem(a[..]), digits, bits);
  }

  /** Shifting MOD by whole words and then by bits shifts it by the sum. */
  lemma ShiftModChain(e: Poly, digits: nat, bits: nat)
    requires digits + bits + M < 64 * 2 * DIM
    requires e == Restrict(Shift(Shift(F, digits), bits), 64 * 2 * DIM)
    ensures e == Shift(F, digits + bits)
  {
    ShiftShift(F, digits, bits);
    RestrictShiftF(digits + bits, 64 * 2 * DIM);
  }

  /** A fresh 14-word buffer holding MOD at words d .. d + 6. */
  method PlaceMod(d: nat) returns (a: array<bv64>)
    requires d <= DIM
    ensures fresh(a) && a.Length == 2 * DIM
    ensures PlacedMod(a[..], d)
  {
    a := new bv64[2 * DIM](_ => 0);
    for i := d to DIM + d
      invariant forall j :: 0 <= j < 2 * DIM ==>
        a[j] == if d <= j < i then MOD[j - d] else 0
    {
      a[i] := MOD[i - d];
    }
  }

  /**
   * Shifts the whole buffer up by s bits, word by word from the bottom,
   * carrying the top s bits of each word into the next.
   */
  method ShiftUp(a: array<bv64>, s: bv6)
    requires s > 0
    modifies a
    ensures Elem(a[..]) == Restrict(Shift(Elem(old(a[..])), s as int), 64 * a.Length)
  {
    ghost var placed := a[..];
    var prev: bv64 := 0;
    SavedZero(s);
    for i := 0 to a.Length
      invariant CarriedUpTo(a[..], placed, i, s)
      invariant i < a.Length ==> Saved(prev, Prev(placed, i), s)
    {
      var w := a[i];
      var save := (w & (((1 << s) - 1) << (64 - s as bv7))) >> (64 - s as bv7);
      SaveWord(w, s, save);
      ghost var before := a[..];
      a[i] := (w << s) | prev;
      CarryStep(placed, before, a[..], i, s, prev, w);
      prev := save;
    }
    CarryElem(placed, a[..], s);
  }

  /** The words below i carry their neighbours' top bits; the rest are untouched. */
  ghost predicate CarriedUpTo(out: seq<bv64>, ws: seq<bv64>, i: nat, s: bv6) {
    |out| == |ws| && i <= |ws|
    && (forall j :: 0 <= j < i ==> Carried(out[j], ws[j], Prev(ws, j), s))
    && (forall j :: i <= j < |ws| ==> out[j] == ws[j])
  }

  /** One pass of the carry loop: word i is shifted and takes the saved bits. */
  lemma CarryStep(ws: seq<bv64>, before: seq<bv64>, after: seq<bv64>, i: nat, s: bv6, y: bv64, w: bv64)
    requires CarriedUpTo(before, ws, i, s) && i < |ws|
    requires Saved(y, Prev(ws, i), s) && w == before[i]
    requires after == before[i := (w << s) | y]
    ensures CarriedUpTo(after, ws, i + 1, s) && w == ws[i]
  {
    CarryWord(w, y, Prev(ws, i), s, (w << s) | y);
  }

  /** XOR of y into x, word by word: the sum of the two polynomials. */
  method XorInto(x: array<bv64>, y: array<bv64>)
    requires x.Length == y.Length && x != y
    modifies x
    ensures Elem(x[..]) == Add(Elem(old(x[..])), Elem(y[..]))
  {
    ghost var x1 := x[..];
    for i := 0 to x.Length
      invariant forall j :: 0 <= j < i ==> x[j] == Xor(x1[j], y[j])
      invariant forall j :: i <= j < x.Length ==> x[j] == x1[j]
    {
      var xi := x[i];
      x[i] := xi ^ y[i];
    }
    ElemXor(x1, y[..], x[..]);
  }
}
