/**
 * Writing an element as text (src/display.rs): the polynomial form
 * "[x^k + ... + 1]" of `Display` and `dispaly_as_poly`, the 112-digit
 * `LowerHex` form, and the `Binary` form; and the round trips from the
 * hexadecimal and binary forms back through `from_str` / `from_str_bin`.
 */
module Display {
  import opened Core
  import opened Bits
  import opened Poly
  import opened FieldSpec
  import opened Words
  import opened GF2
  import opened Parsing

  // ---------------------------------------------------------------------
  // The polynomial form

  /** The top bit of a word. */
  predicate TopBit(u: bv64) {
    u & 0x8000_0000_0000_0000 != 0
  }

  /** The word shifted up t places, one place at a time. */
  function Up(w: bv64, t: nat): bv64
    decreases t
  {
    if t == 0 then w else Up(w << 1, t - 1)
  }

  /** The same, for positions given by their values. */
  lemma BitUpAt(w: bv64, n: nat)
    requires n < 63
    ensures Bit(w << 1, ToBv6(n + 1)) == Bit(w, ToBv6(n))
  {
    var k := ToBv6(n);
    BitUp(w, k);
    Succ6(k);
    SameBv6(k + 1, n + 1);
  }

  /** Bit k + 1 of the word shifted up once is bit k of the word. */
  lemma BitUp(w: bv64, k: bv6)
    requires k < 63
    ensures Bit(w << 1, k + 1) == Bit(w, k)
  {
  }

  /** Bit 63 - t of a word is the top bit after shifting it up t places. */
  lemma {:induction false} TopBitUp(w: bv64, t: nat)
    requires t < 64
    ensures TopBit(Up(w, t)) == Bit(w, ToBv6(63 - t))
    decreases t
  {
    if t > 0 {
      TopBitUp(w << 1, t - 1);
      BitUpAt(w, 63 - t);
    } else {
      SameBv6(63, 63);
    }
  }

  /**
   * The coefficient of x^k in the words (k below 64 |ws|): bit k of word 0
   * for k below 64, otherwise coefficient k - 64 of the words above it.
   */
  predicate Coef(ws: seq<bv64>, k: nat)
    requires k < 64 * |ws|
    decreases |ws|
  {
    if k < 64 then TopBit(Up(ws[0], 63 - k)) else Coef(ws[1..], k - 64)
  }

  /** Coefficient 64 i + j is bit j of word i. */
  lemma {:induction false} CoefAt(ws: seq<bv64>, i: nat, j: nat)
    requires i < |ws| && j < 64
    ensures Coef(ws, 64 * i + j) == TopBit(Up(ws[i], 63 - j))
    decreases i
  {
    if i > 0 {
      CoefAt(ws[1..], i - 1, j);
    }
  }

  /** The coefficients are the terms of the polynomial the words stand for. */
  lemma CoefElem(ws: seq<bv64>, k: nat)
    requires k < 64 * |ws|
    ensures Coef(ws, k) == (k in Elem(ws))
  {
    CoefAt(ws, k / 64, k % 64);
    TopBitUp(ws[k / 64], 63 - k % 64);
  }

  /** `format!("x^{pow} + ")`. */
  function Term(k: nat): string {
    "x^" + Dec(k) + " + "
  }

  /** The terms for the exponents hi-1 down to lo that have coefficient 1. */
  function TermsDown(ws: seq<bv64>, hi: nat, lo: nat): string
    requires hi <= 64 * |ws|
    decreases hi
  {
    if hi <= lo then "" else (if Coef(ws, hi - 1) then Term(hi - 1) else "") + TermsDown(ws, hi - 1, lo)
  }

  /**
   * The non-alternate `Display` / `dispaly_as_poly` text: "[", a term
   * "x^k + " for every set exponent k from the top down to 1, then "1" or
   * "0" for the constant coefficient, then "]".
   */
  function PolyText(ws: seq<bv64>): string
    requires |ws| >= 1
  {
    "[" + TermsDown(ws, 64 * |ws|, 1) + (if Coef(ws, 0) then "1" else "0") + "]"
  }

  /** The exponents hi-1 down to lo with coefficient 1, in that order. */
  function Exponents(ws: seq<bv64>, hi: nat, lo: nat): (r: seq<nat>)
    requires hi <= 64 * |ws|
    decreases hi
  {
    if hi <= lo then [] else (if Coef(ws, hi - 1) then [hi - 1] else []) + Exponents(ws, hi - 1, lo)
  }

  /** The terms of a list of exponents, in order. */
  function TermsOf(es: seq<nat>): string {
    if |es| == 0 then "" else Term(es[0]) + TermsOf(es[1..])
  }

  lemma Assoc(a: string, b: string, c: string)
    ensures (a + b) + c == a + (b + c)
  {
  }

  lemma {:induction false} TermsOfAppend(a: seq<nat>, b: seq<nat>)
    ensures TermsOf(a + b) == TermsOf(a) + TermsOf(b)
    decreases |a|
  {
    if |a| > 0 {
      assert (a + b)[1..] == a[1..] + b;
      TermsOfAppend(a[1..], b);
      Assoc(Term(a[0]), TermsOf(a[1..]), TermsOf(b));
    } else {
      assert a + b == b;
    }
  }

  /** The polynomial text is the terms of the listed exponents. */
  lemma {:induction false} TermsDownExponents(ws: seq<bv64>, hi: nat, lo: nat)
    requires hi <= 64 * |ws|
    ensures TermsDown(ws, hi, lo) == TermsOf(Exponents(ws, hi, lo))
    decreases hi
  {
    if hi > lo {
      TermsDownExponents(ws, hi - 1, lo);
      var rest := Exponents(ws, hi - 1, lo);
      if Coef(ws, hi - 1) {
        TermsOfAppend([hi - 1], rest);
        assert TermsOf([hi - 1]) == Term(hi - 1) + TermsOf([]);
      } else {
        assert [] + rest == rest;
      }
    }
  }

  /** The listed exponents are exactly those k, lo <= k < hi, whose term is present. */
  lemma ExponentsPresent(ws: seq<bv64>, hi: nat, lo: nat)
    requires hi <= 64 * |ws|
    ensures forall e :: e in Exponents(ws, hi, lo) <==> lo <= e < hi && e in Elem(ws)
  {
    forall e: nat ensures e in Exponents(ws, hi, lo) <==> lo <= e < hi && e in Elem(ws) {
      ExponentAt(ws, hi, lo, e);
    }
  }

  lemma {:induction false} ExponentAt(ws: seq<bv64>, hi: nat, lo: nat, e: nat)
    requires hi <= 64 * |ws|
    ensures (e in Exponents(ws, hi, lo)) == (lo <= e < hi && e in Elem(ws))
    decreases hi
  {
    if hi > lo {
      var head: seq<nat> := if Coef(ws, hi - 1) then [hi - 1] else [];
      var rest := Exponents(ws, hi - 1, lo);
      assert Exponents(ws, hi, lo) == head + rest;
      assert (e in head + rest) == (e in head || e in rest);
      ExponentAt(ws, hi - 1, lo, e);
      if e == hi - 1 {
        CoefElem(ws, hi - 1);
      }
    }
  }

  /** The listed exponents strictly descend, so each term is written once. */
  lemma {:induction false} ExponentsDescend(ws: seq<bv64>, hi: nat, lo: nat)
    requires hi <= 64 * |ws|
    ensures forall a, b :: 0 <= a < b < |Exponents(ws, hi, lo)| ==> Exponents(ws, hi, lo)[a] > Exponents(ws, hi, lo)[b]
    decreases hi
  {
    if hi > lo {
      var h := hi - 1;
      ExponentsDescend(ws, h, lo);
      var rest := Exponents(ws, h, lo);
      if Coef(ws, h) {
        forall b | 0 <= b < |rest| ensures rest[b] < h {
          assert rest[b] in rest;
          ExponentAt(ws, h, lo, rest[b]);
        }
        ConsDescends(h, rest);
        assert Exponents(ws, hi, lo) == [h] + rest;
      } else {
        assert Exponents(ws, hi, lo) == rest by {
          assert [] + rest == rest;
        }
      }
    }
  }

  /** A descending list stays descending with a larger head. */
  lemma ConsDescends(h: nat, rest: seq<nat>)
    requires forall b :: 0 <= b < |rest| ==> rest[b] < h
    requires forall a, b :: 0 <= a < b < |rest| ==> rest[a] > rest[b]
    ensures forall a, b :: 0 <= a < b < |[h] + rest| ==> ([h] + rest)[a] > ([h] + rest)[b]
  {
    var es := [h] + rest;
    forall a, b | 0 <= a < b < |es|
      ensures es[a] > es[b]
    {
      assert es[b] == rest[b - 1];
      if a > 0 {
        assert es[a] == rest[a - 1];
      }
    }
  }

  /**
   * The polynomial text is "[", a term for each exponent from the top
   * down to 1 present in the polynomial (ExponentsPresent, ExponentsDescend),
   * the constant coefficient as a digit, and "]".
   */
  lemma PolyTextShape(ws: seq<bv64>)
    requires |ws| >= 1
    ensures PolyText(ws) == "[" + TermsOf(Exponents(ws, 64 * |ws|, 1)) + (if 0 in Elem(ws) then "1" else "0") + "]"
    ensures PolyText(ws)[0] == '[' && PolyText(ws)[|PolyText(ws)| - 1] == ']'
    ensures PolyText(ws)[|PolyText(ws)| - 2] == if 0 in Elem(ws) then '1' else '0'
  {
    TermsDownExponents(ws, 64 * |ws|, 1);
    CoefElem(ws, 0);
  }

  /** Extending the range one exponent further down adds that term at the end. */
  lemma {:induction false} TermsDownExtend(ws: seq<bv64>, hi: nat, lo: nat)
    requires 0 < lo <= hi <= 64 * |ws|
    ensures TermsDown(ws, hi, lo - 1) == TermsDown(ws, hi, lo) + (if Coef(ws, lo - 1) then Term(lo - 1) else "")
    decreases hi
  {
    var last := if Coef(ws, lo - 1) then Term(lo - 1) else "";
    if hi > lo {
      TermsDownExtend(ws, hi - 1, lo);
      var head := if Coef(ws, hi - 1) then Term(hi - 1) else "";
      ExtendStep(TermsDown(ws, hi, lo - 1), TermsDown(ws, hi, lo), head,
                 TermsDown(ws, hi - 1, lo), TermsDown(ws, hi - 1, lo - 1), last);
    } else {
      assert TermsDown(ws, lo - 1, lo - 1) == "";
      assert last + "" == last;
    }
  }

  /** The step of TermsDownExtend: the same head in front of a text that grew at its end. */
  lemma ExtendStep(longer: string, whole: string, head: string, mid: string, rest: string, last: string)
    requires longer == head + rest && whole == head + mid && rest == mid + last
    ensures longer == whole + last
  {
    Assoc(head, mid, last);
  }

  /** One more exponent of the inner loop: the text grows by that exponent's term, if present. */
  lemma TextStep(f: string, f0: string, ws: seq<bv64>, hi: nat, pow: nat)
    requires 0 < pow <= hi <= 64 * |ws| && f == f0 + TermsDown(ws, hi, pow)
    ensures Coef(ws, pow - 1) ==> f + Term(pow - 1) == f0 + TermsDown(ws, hi, pow - 1)
    ensures !Coef(ws, pow - 1) ==> f == f0 + TermsDown(ws, hi, pow - 1)
  {
    TermsDownExtend(ws, hi, pow);
    Assoc(f0, TermsDown(ws, hi, pow), if Coef(ws, pow - 1) then Term(pow - 1) else "");
    if !Coef(ws, pow - 1) {
      assert TermsDown(ws, hi, pow) + "" == TermsDown(ws, hi, pow);
    }
  }

  /** The inner loop's mask after t halvings of 1 << 63: the one-bit mask of bit 63 - t. */
  function Mask(t: nat): bv64
    requires t < 64
  {
    1 << ToBv6(63 - t)
  }

  /** The mask starts at the top bit. */
  lemma MaskStart(b: bv64)
    requires b == 1 << 63
    ensures b == Mask(0)
  {
    SameBv6(63, 63);
  }

  /** Halving the mask advances it by one step. */
  lemma MaskNext(t: nat, b: bv64)
    requires t < 64 && b == Mask(t)
    ensures t + 1 < 64 ==> b >> 1 == Mask(t + 1)
  {
    if t < 63 {
      var k := ToBv6(63 - t);
      HalveBit(k, b);
      BvSub(k, 1);
      SameBv6(k - 1, 62 - t);
    }
  }

  /** The one-bit mask of bit k, halved, is the mask of bit k - 1. */
  lemma HalveBit(k: bv6, b: bv64)
    requires 0 < k && b == 1 << k
    ensures b >> 1 == 1 << (k - 1)
  {
  }

  /** Testing with the one-bit mask held in b reads bit k. */
  lemma TestMask(w: bv64, k: bv6, b: bv64)
    requires b == 1 << k
    ensures (w & b != 0) == Bit(w, k)
  {
  }

  /** The mask test of the inner loop reads coefficient 64 i + 63 - t. */
  lemma MaskStep(ws: seq<bv64>, i: nat, t: nat, w: bv64, b: bv64)
    requires i < |ws| && t < 64 && w == ws[i] && b == Mask(t)
    ensures (w & b != 0) == Coef(ws, 64 * i + 63 - t)
  {
    TestMask(w, ToBv6(63 - t), b);
    TopBitUp(w, t);
    CoefAtMask(ws, i, t);
  }

  /** Coefficient 64 i + 63 - t is the top bit of word i shifted up t places. */
  lemma CoefAtMask(ws: seq<bv64>, i: nat, t: nat)
    requires i < |ws| && t < 64
    ensures Coef(ws, 64 * i + 63 - t) == TopBit(Up(ws[i], t))
  {
    CoefAt(ws, i, 63 - t);
  }

  /** One step of the inner loop: the mask test decides whether term pow - 1 is written. */
  lemma InnerStep(arr: seq<bv64>, i: nat, t: nat, w: bv64, b: bv64, f: string, f0: string, pow: nat)
    requires i < |arr| && t < 64 && w == arr[i] && b == Mask(t) && pow == 64 * i + 64 - t
    requires f == f0 + TermsDown(arr, 64 * i + 64, pow)
    ensures w & b != 0 ==> f + Term(pow - 1) == f0 + TermsDown(arr, 64 * i + 64, pow - 1)
    ensures w & b == 0 ==> f == f0 + TermsDown(arr, 64 * i + 64, pow - 1)
  {
    MaskStep(arr, i, t, w, b);
    TextStep(f, f0, arr, 64 * i + 64, pow);
  }

  /**
   * One pass of the inner loop over word i: a mask starting at bit 63,
   * `pow` counting down from 64 i + 64, `count` steps.
   */
  method WordTerms(arr: seq<bv64>, i: nat, f0: string, count: nat) returns (f: string)
    requires i < |arr| && 1 <= count <= 64 && (i > 0 || count <= 63)
    ensures f == f0 + TermsDown(arr, 64 * i + 64, 64 * i + 64 - count)
  {
    f := f0;
    var pow := 64 * i + 64;
    var b: bv64 := 1 << 63;
    MaskStart(b);
    assert f0 + "" == f0;
    var w := arr[i];
    for t := 0 to count
      invariant pow == 64 * i + 64 - t
      invariant t < 64 ==> b == Mask(t)
      invariant f == f0 + TermsDown(arr, 64 * i + 64, pow)
    {
      f, b, pow := TermStep(arr, i, t, w, b, f, f0, pow);
    }
  }

  /** The body of the inner loop: test the mask, write term pow - 1 if set, halve the mask. */
  method TermStep(arr: seq<bv64>, i: nat, t: nat, w: bv64, b: bv64, f: string, f0: string, pow: nat)
    returns (g: string, c: bv64, next: nat)
    requires i < |arr| && t < 64 && w == arr[i] && b == Mask(t) && pow == 64 * i + 64 - t
    requires f == f0 + TermsDown(arr, 64 * i + 64, pow)
    ensures next == pow - 1 && g == f0 + TermsDown(arr, 64 * i + 64, next)
    ensures t + 1 < 64 ==> c == Mask(t + 1)
  {
    next := pow - 1;
    InnerStep(arr, i, t, w, b, f, f0, pow);
    if w & b != 0 {
      g := f + Term(pow - 1);
    } else {
      g := f;
    }
    MaskNext(t, b);
    c := b >> 1;
  }


  /** What comes after the terms: the constant coefficient and the closing bracket. */
  lemma Closing(f: string, ws: seq<bv64>)
    requires |ws| >= 1 && f == "[" + TermsDown(ws, 64 * |ws|, 64) + TermsDown(ws, 64, 1)
    ensures (ws[0] & 1 == 1) ==> f + "1" + "]" == PolyText(ws)
    ensures (ws[0] & 1 != 1) ==> f + "0" + "]" == PolyText(ws)
  {
    TermsDownSplit(ws, 64 * |ws|, 64, 1);
    Assoc("[", TermsDown(ws, 64 * |ws|, 64), TermsDown(ws, 64, 1));
    CoefZero(ws);
  }

  /** The constant coefficient is what `& 1 == 1` tests. */
  lemma CoefZero(ws: seq<bv64>)
    requires |ws| >= 1
    ensures Coef(ws, 0) == (ws[0] & 1 == 1)
  {
    CoefAt(ws, 0, 0);
    TopBitUp(ws[0], 63);
    SameBv6(0, 0);
    LowBit(ws[0]);
  }

  /**
   * `dispaly_as_poly`: words |arr| - 1 down to 1 contribute 64 exponents
   * each, word 0 the exponents 63 down to 1, and the constant coefficient
   * closes the text.  The source panics on an empty slice (`pow -= 1`
   * underflows, then `arr[0]`), hence the precondition.
   */
  method DisplayAsPoly(arr: seq<bv64>) returns (f: string)
    requires |arr| >= 1
    ensures f == PolyText(arr)
  {
    f := "[";
    var i := |arr|;
    assert "[" + "" == "[";
    while i > 1
      invariant 1 <= i <= |arr|
      invariant f == "[" + TermsDown(arr, 64 * |arr|, 64 * i)
    {
      i := i - 1;
      var g := WordTerms(arr, i, f, 64);
      TermsDownSplit(arr, 64 * |arr|, 64 * i + 64, 64 * i);
      Assoc("[", TermsDown(arr, 64 * |arr|, 64 * i + 64), TermsDown(arr, 64 * i + 64, 64 * i));
      f := g;
    }
    f := WordTerms(arr, 0, f, 63);
    Closing(f, arr);
    if arr[0] & 1 == 1 {
      f := f + "1";
    } else {
      f := f + "0";
    }
    f := f + "]";
  }

  /** The non-alternate `Display` of an element: the polynomial form of its words. */
  method DisplayElement(x: GF2Element) returns (f: string)
    ensures f == PolyText(x.data)
  {
    f := DisplayAsPoly(x.data);
  }

  /** The terms from hi down to lo are those from hi down to mid, then from mid down to lo. */
  lemma {:induction false} TermsDownSplit(ws: seq<bv64>, hi: nat, mid: nat, lo: nat)
    requires lo <= mid <= hi <= 64 * |ws|
    ensures TermsDown(ws, hi, lo) == TermsDown(ws, hi, mid) + TermsDown(ws, mid, lo)
    decreases hi
  {
    if hi > mid {
      TermsDownSplit(ws, hi - 1, mid, lo);
      var head := if Coef(ws, hi - 1) then Term(hi - 1) else "";
      Assoc(head, TermsDown(ws, hi - 1, mid), TermsDown(ws, mid, lo));
    } else {
      assert "" + TermsDown(ws, mid, lo) == TermsDown(ws, mid, lo);
    }
  }

  // ---------------------------------------------------------------------
  // The hexadecimal and binary forms

  /** `{:016x}` of a word. */
  function Hex16(w: bv64): string {
    FormatDigits(w as int, 16, 16)
  }

  /** `{:064b}` of a word. */
  function Bin64(w: bv64): string {
    FormatDigits(w as int, 64, 2)
  }

  /** Each word as k digits in the radix, the most significant word first. */
  function WordsText(ws: seq<bv64>, k: nat, radix: nat): (r: string)
    requires 2 <= radix <= 36
    ensures |r| == k * |ws|
  {
    if |ws| == 0 then "" else FormatDigits(ws[|ws| - 1] as int, k, radix) + WordsText(ws[..|ws| - 1], k, radix)
  }

  /** What `LowerHex` writes. */
  function HexText(ws: seq<bv64>): string {
    WordsText(ws, 16, 16)
  }

  lemma {:induction false} WordsTextCons(w: bv64, ws: seq<bv64>, k: nat, radix: nat)
    requires 2 <= radix <= 36
    ensures WordsText([w] + ws, k, radix) == WordsText(ws, k, radix) + FormatDigits(w as int, k, radix)
    decreases |ws|
  {
    var s := [w] + ws;
    if |ws| > 0 {
      assert s[..|s| - 1] == [w] + ws[..|ws| - 1];
      assert s[|s| - 1] == ws[|ws| - 1];
      WordsTextCons(w, ws[..|ws| - 1], k, radix);
    } else {
      assert s[..|s| - 1] == [];
    }
  }

  /** The text of a + b is the text of b, then the text of a. */
  lemma {:induction false} WordsTextAppend(a: seq<bv64>, b: seq<bv64>, k: nat, radix: nat)
    requires 2 <= radix <= 36
    ensures WordsText(a + b, k, radix) == WordsText(b, k, radix) + WordsText(a, k, radix)
    decreases |b|
  {
    if |b| == 0 {
      assert a + b == a;
      assert "" + WordsText(a, k, radix) == WordsText(a, k, radix);
    } else {
      var init, last := b[..|b| - 1], b[|b| - 1];
      assert b == init + [last];
      assert a + b == (a + init) + [last];
      WordsTextSnoc(a + init, last, k, radix);
      WordsTextAppend(a, init, k, radix);
      WordsTextSnoc(init, last, k, radix);
      Assoc(FormatDigits(last as int, k, radix), WordsText(init, k, radix), WordsText(a, k, radix));
    }
  }

  /** The last word is written first. */
  lemma WordsTextSnoc(init: seq<bv64>, last: bv64, k: nat, radix: nat)
    requires 2 <= radix <= 36
    ensures WordsText(init + [last], k, radix) == FormatDigits(last as int, k, radix) + WordsText(init, k, radix)
  {
    var s := init + [last];
    assert s[..|s| - 1] == init;
  }

  /** Word j's digits sit between the text of the words above it and the text of the words below it. */
  lemma WordsTextAt(ws: seq<bv64>, k: nat, radix: nat, j: nat)
    requires 2 <= radix <= 36 && j < |ws|
    ensures WordsText(ws, k, radix) == WordsText(ws[j + 1..], k, radix) + FormatDigits(ws[j] as int, k, radix) + WordsText(ws[..j], k, radix)
  {
    assert ws == ws[..j] + ([ws[j]] + ws[j + 1..]);
    WordsTextAppend(ws[..j], [ws[j]] + ws[j + 1..], k, radix);
    WordsTextCons(ws[j], ws[j + 1..], k, radix);
  }

  /** The middle part of a three-part concatenation. */
  lemma SliceMiddle(p: string, f: string, q: string, lo: nat, hi: nat)
    requires lo == |p| && hi == |p| + |f|
    ensures hi <= |p + f + q| && (p + f + q)[lo..hi] == f
  {
  }

  /** `LowerHex`: sixteen lowercase hex digits per word, word DIM - 1 first. */
  method LowerHex(x: GF2Element) returns (t: string)
    ensures t == HexText(x.data)
  {
    t := "";
    var i := DIM;
    while i > 0
      invariant 0 <= i <= DIM
      invariant t == HexText(x.data[i..])
    {
      i := i - 1;
      t := t + Hex16(x.data[i]);
      assert x.data[i..] == [x.data[i]] + x.data[i + 1..];
      WordsTextCons(x.data[i], x.data[i + 1..], 16, 16);
    }
  }

  /** `LowerHex` writes 112 characters, each a lowercase hexadecimal digit. */
  lemma LowerHexShape(x: GF2Element)
    ensures |HexText(x.data)| == 112
    ensures forall c :: c in HexText(x.data) ==> '0' <= c <= '9' || 'a' <= c <= 'f'
  {
    LowercaseWords(x.data, 16, 16);
  }

  /** Every digit written in radix 16 is '0'..'9' or 'a'..'f'. */
  lemma {:induction false} LowercaseWords(ws: seq<bv64>, k: nat, radix: nat)
    requires 2 <= radix <= 16
    ensures forall c :: c in WordsText(ws, k, radix) ==> '0' <= c <= '9' || 'a' <= c <= 'f'
    decreases |ws|
  {
    if |ws| > 0 {
      LowercaseWords(ws[..|ws| - 1], k, radix);
      LowercaseDigits(ws[|ws| - 1] as int, k, radix);
    }
  }

  lemma {:induction false} LowercaseDigits(n: nat, k: nat, radix: nat)
    requires 2 <= radix <= 16
    ensures forall c :: c in FormatDigits(n, k, radix) ==> '0' <= c <= '9' || 'a' <= c <= 'f'
    decreases k
  {
    if k > 0 {
      LowercaseDigits(n / radix, k - 1, radix);
    }
  }

  /** What `Binary` writes: `{:064b}` of every nonzero word, word DIM - 1 first. */
  function BinTextAsWritten(ws: seq<bv64>): string {
    if |ws| == 0 then ""
    else (if ws[|ws| - 1] != 0 then Bin64(ws[|ws| - 1]) else "") + BinTextAsWritten(ws[..|ws| - 1])
  }

  lemma {:induction false} BinTextCons(w: bv64, ws: seq<bv64>)
    ensures BinTextAsWritten([w] + ws) == BinTextAsWritten(ws) + (if w != 0 then Bin64(w) else "")
    decreases |ws|
  {
    var s := [w] + ws;
    if |ws| > 0 {
      assert s[..|s| - 1] == [w] + ws[..|ws| - 1];
      assert s[|s| - 1] == ws[|ws| - 1];
      BinTextCons(w, ws[..|ws| - 1]);
    } else {
      assert s[..|s| - 1] == [];
    }
  }

  /** `Binary` as written: zero words are skipped. */
  method BinaryAsWritten(x: GF2Element) returns (t: string)
    ensures t == BinTextAsWritten(x.data)
  {
    t := "";
    var i := DIM;
    while i > 0
      invariant 0 <= i <= DIM
      invariant t == BinTextAsWritten(x.data[i..])
    {
      i := i - 1;
      if x.data[i] != 0 {
        t := t + Bin64(x.data[i]);
      }
      assert x.data[i..] == [x.data[i]] + x.data[i + 1..];
      BinTextCons(x.data[i], x.data[i + 1..]);
    }
  }

  /** Zero words write nothing. */
  lemma {:induction false} BinTextZeros(ws: seq<bv64>)
    requires forall i :: 0 <= i < |ws| ==> ws[i] == 0
    ensures BinTextAsWritten(ws) == ""
    decreases |ws|
  {
    if |ws| > 0 {
      BinTextZeros(ws[..|ws| - 1]);
    }
  }

  /** Two different elements (x^64 + 1 and x^128 + 1) that `Binary` writes alike. */
  lemma BinaryCollides()
    ensures GF2Element([1, 1, 0, 0, 0, 0, 0]) != GF2Element([1, 0, 1, 0, 0, 0, 0])
    ensures BinTextAsWritten([1, 1, 0, 0, 0, 0, 0]) == BinTextAsWritten([1, 0, 1, 0, 0, 0, 0])
  {
    BinTextLow();
    BinTextHigh();
    assert [1, 1, 0, 0, 0, 0, 0] != [1, 0, 1, 0, 0, 0, 0] by {
      assert [1, 1, 0, 0, 0, 0, 0][1] != [1, 0, 1, 0, 0, 0, 0][1];
    }
  }

  /** x^64 + 1 is written as two copies of the digits of 1. */
  lemma BinTextLow()
    ensures BinTextAsWritten([1, 1, 0, 0, 0, 0, 0]) == Bin64(1) + Bin64(1)
  {
    var z5: seq<bv64> := [0, 0, 0, 0, 0];
    BinTextZeros(z5);
    var a1: seq<bv64> := [1] + z5;
    BinTextCons(1, z5);
    BinTextCons(1, a1);
    assert [1] + a1 == [1, 1, 0, 0, 0, 0, 0];
  }

  /** So is x^128 + 1: the zero word between the two is skipped. */
  lemma BinTextHigh()
    ensures BinTextAsWritten([1, 0, 1, 0, 0, 0, 0]) == Bin64(1) + Bin64(1)
  {
    var z4: seq<bv64> := [0, 0, 0, 0];
    BinTextZeros(z4);
    var b1: seq<bv64> := [1] + z4;
    var b2: seq<bv64> := [0] + b1;
    BinTextCons(1, z4);
    BinTextCons(0, b1);
    BinTextCons(1, b2);
    assert [1] + b2 == [1, 0, 1, 0, 0, 0, 0];
  }

  /** The `Binary` text with every word written, as `LowerHex` does. */
  function BinText(ws: seq<bv64>): string {
    WordsText(ws, 64, 2)
  }

  /** `Binary` with every word written: 64 binary digits per word, word DIM - 1 first. */
  method Binary(x: GF2Element) returns (t: string)
    ensures t == BinText(x.data)
  {
    t := "";
    var i := DIM;
    while i > 0
      invariant 0 <= i <= DIM
      invariant t == BinText(x.data[i..])
    {
      i := i - 1;
      t := t + Bin64(x.data[i]);
      assert x.data[i..] == [x.data[i]] + x.data[i + 1..];
      WordsTextCons(x.data[i], x.data[i + 1..], 64, 2);
    }
  }

  // ---------------------------------------------------------------------
  // Round trips

  /** n = 7 k splits into seven full chunks of k characters. */
  lemma SevenChunks(len: nat, k: nat)
    requires k > 0 && len == 7 * k
    ensures len % k == 0 && len / k == 7 && NumChunks(len, k) == 7
  {
    DivModParts(len, k);
    QuotientSeven(k, len / k, len % k);
  }

  /** Division of 7 k by k is exact. */
  lemma QuotientSeven(k: nat, q: nat, m: nat)
    requires k > 0 && m < k && q * k + m == 7 * k
    ensures q == 7 && m == 0
  {
    MulMono(k, 7, q);
  }

  /**
   * The digits of seven words, read back by the chunk parser, give those
   * words followed by seven zero words.
   */
  lemma ParseWordsText(x: Data, k: nat, radix: nat)
    requires 2 <= radix <= 36 && k > 0 && Pow(radix, k) == U64
    ensures ParseWords(WordsText(x, k, radix), k, radix, DIM * k).Ok?
    ensures Buffer(WordsText(x, k, radix), k, radix, DIM * k) == x + [0, 0, 0, 0, 0, 0, 0]
  {
    var s := WordsText(x, k, radix);
    SevenChunks(|s|, k);
    forall j | 0 <= j < 7
      ensures FromStrRadix(Chunk(s, k, j), radix) == Ok(x[j] as int)
    {
      ChunkOfText(x, k, radix, j);
      FormatParse(x[j], k, radix);
    }
    var buf := Buffer(s, k, radix, DIM * k);
    forall j | 0 <= j < 2 * DIM
      ensures buf[j] == (x + [0, 0, 0, 0, 0, 0, 0])[j]
    {
      if j < 7 {
        WordBack(x[j]);
      }
    }
  }

  /** Chunk j of the text of seven words is the digits of word j. */
  lemma ChunkOfText(x: Data, k: nat, radix: nat, j: nat)
    requires 2 <= radix <= 36 && k > 0 && j < 7
    ensures NumChunks(|WordsText(x, k, radix)|, k) == 7
    ensures Chunk(WordsText(x, k, radix), k, j) == FormatDigits(x[j] as int, k, radix)
  {
    var s := WordsText(x, k, radix);
    SevenChunks(|s|, k);
    WordsTextAt(x, k, radix, j);
    var p := WordsText(x[j + 1..], k, radix);
    assert |p| == k * (6 - j);
    MulSucc(k, 6 - j);
    SliceMiddle(p, FormatDigits(x[j] as int, k, radix), WordsText(x[..j], k, radix), |p|, |p| + k);
  }

  lemma MulSucc(k: nat, m: nat)
    ensures k * (m + 1) == k * m + k
  {
  }

  lemma WordBack(w: bv64)
    ensures (w as int) as bv64 == w
  {
  }

  /** Seven zero words on top add no terms. */
  lemma ElemPadded(x: Data)
    ensures Elem(x + [0, 0, 0, 0, 0, 0, 0]) == Elem(x)
  {
    var y := x + [0, 0, 0, 0, 0, 0, 0];
    ElemPrefix(y, DIM);
    assert y[..DIM] == x;
    forall n: nat | 64 * DIM <= n < 64 * |y|
      ensures n !in Elem(y)
    {
      assert y[n / 64] == 0;
      ZeroBit(ToBv6(n % 64));
    }
  }

  /** `from_str` reads back what `LowerHex` writes, for a reduced element. */
  method HexRoundTrip(x: GF2Element) returns (r: Result<GF2Element, GF2ElementFromStrError>)
    requires Reduced(x.Value())
    ensures r == Ok(x)
  {
    var t := LowerHex(x);
    Pow64();
    ParseWordsText(x.data, 16, 16);
    ElemPadded(x.data);
    DegreeBelow(x.Value(), M);
    r := FromStr(t);
    assert (x.data + [0, 0, 0, 0, 0, 0, 0])[..DIM] == x.data;
  }

  /** `from_str_bin` reads back what the all-words `Binary` writes, for a reduced element. */
  method BinRoundTrip(x: GF2Element) returns (r: Result<GF2Element, GF2ElementFromStrError>)
    requires Reduced(x.Value())
    ensures r == Ok(x)
  {
    var t := Binary(x);
    Pow64();
    ParseWordsText(x.data, 64, 2);
    ElemPadded(x.data);
    DegreeBelow(x.Value(), M);
    r := FromStrBin(t);
    assert (x.data + [0, 0, 0, 0, 0, 0, 0])[..DIM] == x.data;
  }
}
