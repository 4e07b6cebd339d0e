/**
 * The pieces of Rust's core library the crate relies on: `Result`,
 * `u64::from_str_radix` with its `ParseIntError`, and the integer
 * formatting behind `{}`, `{:016x}` and `{:064b}`.
 *
 * Strings are sequences of characters, one per byte of the Rust `str`;
 * a parsed `u64` is a natural number below 2^64.
 */
module Core {
  /** Rust's `Result`. */
  datatype Result<T, E> = Ok(value: T) | Err(error: E)

  /** Rust's `Option`. */
  datatype Option<T> = None | Some(value: T)

  /** 2^64: one more than the largest `u64`. */
  const U64: nat := 0x1_0000_0000_0000_0000

  /** `core::num::IntErrorKind`, the cases `from_str_radix` produces for an unsigned type. */
  datatype IntErrorKind = Empty | InvalidDigit | PosOverflow

  /** `core::num::ParseIntError`. */
  datatype ParseIntError = ParseIntError(kind: IntErrorKind)

  function Pow(b: nat, k: nat): (r: nat)
    ensures b > 0 ==> r > 0
  {
    if k == 0 then 1 else b * Pow(b, k - 1)
  }

  /** `char::to_digit(radix)`: '0'..'9' are 0..9, letters of either case are 10..35. */
  function ToDigit(c: char, radix: nat): (r: Option<nat>)
    requires 2 <= radix <= 36
    ensures r.Some? ==> r.value < radix
    ensures '0' <= c <= '9' && (c as int - '0' as int) < radix ==> r == Some(c as int - '0' as int)
    ensures r.Some? ==> '0' <= c <= '9' || 'a' <= c <= 'z' || 'A' <= c <= 'Z'
  {
    var d :=
      if '0' <= c <= '9' then c as int - '0' as int
      else if 'a' <= c <= 'z' then c as int - 'a' as int + 10
      else if 'A' <= c <= 'Z' then c as int - 'A' as int + 10
      else radix;
    if d < radix then Some(d) else None
  }

  /** Every character is a digit in the radix. */
  predicate AllDigits(ds: string, radix: nat)
    requires 2 <= radix <= 36
  {
    forall i :: 0 <= i < |ds| ==> ToDigit(ds[i], radix).Some?
  }

  /** The number the digits spell, read left to right after `acc`. */
  function DigitsValueFrom(ds: string, radix: nat, acc: nat): nat
    requires 2 <= radix <= 36 && AllDigits(ds, radix)
  {
    if |ds| == 0 then acc
    else DigitsValueFrom(ds[1..], radix, acc * radix + ToDigit(ds[0], radix).value)
  }

  /** The number the digits spell. */
  function DigitsValue(ds: string, radix: nat): nat
    requires 2 <= radix <= 36 && AllDigits(ds, radix)
  {
    DigitsValueFrom(ds, radix, 0)
  }

  /**
   * The digit loop of `from_str_radix`: for each character, left to right,
   * an invalid digit is reported first, then an overflow of `acc * radix + d`.
   */
  function Accumulate(ds: string, radix: nat, acc: nat): (r: Result<nat, IntErrorKind>)
    requires 2 <= radix <= 36
    decreases |ds|
  {
    if |ds| == 0 then Ok(acc)
    else
      match ToDigit(ds[0], radix)
      case None => Err(InvalidDigit)
      case Some(d) =>
        if acc * radix + d >= U64 then Err(PosOverflow)
        else Accumulate(ds[1..], radix, acc * radix + d)
  }

  /** The digits `from_str_radix` reads for an unsigned type: one leading '+' is skipped. */
  function Unsigned(src: string): string {
    if |src| > 0 && src[0] == '+' then src[1..] else src
  }

  /**
   * `u64::from_str_radix`: empty input and a lone sign are errors, a leading
   * '+' is accepted, '-' is an invalid digit, and the value must fit in 64 bits.
   */
  function FromStrRadix(src: string, radix: nat): (r: Result<nat, ParseIntError>)
    requires 2 <= radix <= 36
    ensures r.Ok? <==>
      |Unsigned(src)| > 0 && AllDigits(Unsigned(src), radix) && DigitsValue(Unsigned(src), radix) < U64
    ensures r.Ok? ==> r.value == DigitsValue(Unsigned(src), radix)
    ensures r == Err(ParseIntError(Empty)) <==> |src| == 0
  {
    if |src| == 0 then Err(ParseIntError(Empty))
    else if (src[0] == '+' || src[0] == '-') && |src| == 1 then
      assert !ToDigit('-', radix).Some?;
      Err(ParseIntError(InvalidDigit))
    else
      AccumulateSpec(Unsigned(src), radix, 0);
      match Accumulate(Unsigned(src), radix, 0)
      case Err(k) => Err(ParseIntError(k))
      case Ok(v) => Ok(v)
  }

  lemma {:induction false} DigitsValueFromGe(ds: string, radix: nat, acc: nat)
    requires 2 <= radix <= 36 && AllDigits(ds, radix)
    ensures DigitsValueFrom(ds, radix, acc) >= acc
    decreases |ds|
  {
    if |ds| > 0 {
      MulMono(acc, radix, 1);
      DigitsValueFromGe(ds[1..], radix, acc * radix + ToDigit(ds[0], radix).value);
    }
  }

  /** The digit loop succeeds exactly on valid digits whose value fits, and yields that value. */
  lemma {:induction false} AccumulateSpec(ds: string, radix: nat, acc: nat)
    requires 2 <= radix <= 36 && acc < U64
    ensures Accumulate(ds, radix, acc).Ok? <==> AllDigits(ds, radix) && DigitsValueFrom(ds, radix, acc) < U64
    ensures Accumulate(ds, radix, acc).Ok? ==> Accumulate(ds, radix, acc).value == DigitsValueFrom(ds, radix, acc)
    ensures Accumulate(ds, radix, acc).Err? ==> Accumulate(ds, radix, acc).error != Empty
    decreases |ds|
  {
    if |ds| > 0 {
      assert AllDigits(ds, radix) ==> AllDigits(ds[1..], radix) by {
        if AllDigits(ds, radix) {
          forall i | 0 <= i < |ds[1..]| ensures ToDigit(ds[1..][i], radix).Some? {
            assert ds[1..][i] == ds[i + 1];
          }
        }
      }
      assert AllDigits(ds[1..], radix) && ToDigit(ds[0], radix).Some? ==> AllDigits(ds, radix) by {
        if AllDigits(ds[1..], radix) && ToDigit(ds[0], radix).Some? {
          forall i | 0 <= i < |ds| ensures ToDigit(ds[i], radix).Some? {
            if i > 0 {
              assert ds[i] == ds[1..][i - 1];
            }
          }
        }
      }
      match ToDigit(ds[0], radix)
      case None =>
      case Some(d) =>
        var next := acc * radix + d;
        if next < U64 {
          AccumulateSpec(ds[1..], radix, next);
        } else if AllDigits(ds, radix) {
          DigitsValueFromGe(ds[1..], radix, next);
        }
    }
  }

  /** The lowercase digit character of a value below 36. */
  function DigitChar(d: nat): (c: char)
    requires d < 36
    ensures forall radix :: 2 <= radix <= 36 && d < radix ==> ToDigit(c, radix) == Some(d)
  {
    if d < 10 then ('0' as int + d) as char else ('a' as int + d - 10) as char
  }

  /**
   * The last k digits of n in the radix, most significant first, zero
   * padded: `{:016x}` is FormatDigits(w, 16, 16) and `{:064b}` is
   * FormatDigits(w, 64, 2) for a 64-bit w.
   */
  function FormatDigits(n: nat, k: nat, radix: nat): (r: string)
    requires 2 <= radix <= 36
    ensures |r| == k
  {
    if k == 0 then [] else FormatDigits(n / radix, k - 1, radix) + [DigitChar(n % radix)]
  }

  /** `{}` of an unsigned integer: decimal digits without leading zeros. */
  function Dec(n: nat): (r: string)
    ensures |r| > 0
  {
    if n < 10 then [DigitChar(n)] else Dec(n / 10) + [DigitChar(n % 10)]
  }

  /** Reading one more digit multiplies by the radix and adds the digit. */
  lemma {:induction false} DigitsValueSnoc(ds: string, c: char, radix: nat, acc: nat)
    requires 2 <= radix <= 36 && AllDigits(ds, radix) && ToDigit(c, radix).Some?
    ensures AllDigits(ds + [c], radix)
    ensures DigitsValueFrom(ds + [c], radix, acc) == DigitsValueFrom(ds, radix, acc) * radix + ToDigit(c, radix).value
    decreases |ds|
  {
    assert AllDigits(ds + [c], radix) by {
      forall i | 0 <= i < |ds + [c]| ensures ToDigit((ds + [c])[i], radix).Some? {
        if i < |ds| {
          assert (ds + [c])[i] == ds[i];
        }
      }
    }
    if |ds| > 0 {
      assert (ds + [c])[1..] == ds[1..] + [c];
      assert AllDigits(ds[1..], radix) by {
        forall i | 0 <= i < |ds[1..]| ensures ToDigit(ds[1..][i], radix).Some? {
          assert ds[1..][i] == ds[i + 1];
        }
      }
      DigitsValueSnoc(ds[1..], c, radix, acc * radix + ToDigit(ds[0], radix).value);
    } else {
      assert ds + [c] == [c];
    }
  }

  lemma MulMono(a: nat, b: nat, c: nat)
    requires b >= c
    ensures a * b >= a * c
  {
  }

  lemma DivModParts(n: nat, radix: nat)
    requires radix > 0
    ensures n / radix * radix + n % radix == n
  {
  }

  /** n below radix^k has quotient by radix below radix^(k-1). */
  lemma DivBelow(n: nat, radix: nat, p: nat)
    requires radix > 0 && n < radix * p
    ensures n / radix < p
  {
    if n / radix >= p {
      MulMono(radix, n / radix, p);
    }
  }

  /** k formatted digits of a number below radix^k read back as the number. */
  lemma {:induction false} FormatDigitsValue(n: nat, k: nat, radix: nat)
    requires 2 <= radix <= 36 && n < Pow(radix, k)
    ensures AllDigits(FormatDigits(n, k, radix), radix)
    ensures DigitsValue(FormatDigits(n, k, radix), radix) == n
    decreases k
  {
    if k > 0 {
      var q, d := n / radix, n % radix;
      var prefix, c := FormatDigits(q, k - 1, radix), DigitChar(d);
      DivBelow(n, radix, Pow(radix, k - 1));
      FormatDigitsValue(q, k - 1, radix);
      assert ToDigit(c, radix) == Some(d);
      DigitsValueSnoc(prefix, c, radix, 0);
      DivModParts(n, radix);
      assert FormatDigits(n, k, radix) == prefix + [c];
    } else {
      assert FormatDigits(n, k, radix) == [];
    }
  }

  /** Decimal digits read back as the number. */
  lemma {:induction false} DecValue(n: nat)
    ensures AllDigits(Dec(n), 10) && DigitsValue(Dec(n), 10) == n
    decreases n
  {
    if n < 10 {
      var c := DigitChar(n);
      assert Dec(n) == [c] && ToDigit(c, 10) == Some(n);
      assert AllDigits(Dec(n), 10);
      assert [c][1..] == [];
      assert DigitsValueFrom([c], 10, 0) == DigitsValueFrom([], 10, n);
    } else {
      DecValue(n / 10);
      DigitsValueSnoc(Dec(n / 10), DigitChar(n % 10), 10, 0);
    }
  }

  /** Distinct numbers print differently. */
  lemma DecInjective(m: nat, n: nat)
    requires Dec(m) == Dec(n)
    ensures m == n
  {
    DecValue(m);
    DecValue(n);
  }

  /** `{:016x}` / `{:064b}` of a word, parsed back in the same radix, is the word. */
  lemma FormatParse(w: bv64, k: nat, radix: nat)
    requires 2 <= radix <= 36 && k > 0 && Pow(radix, k) == U64
    ensures FromStrRadix(FormatDigits(w as int, k, radix), radix) == Ok(w as int)
  {
    var s := FormatDigits(w as int, k, radix);
    FormatDigitsValue(w as int, k, radix);
    assert s[0] != '+' by {
      assert ToDigit(s[0], radix).Some?;
    }
    assert Unsigned(s) == s;
  }

  lemma {:induction false} PowTwo(k: nat)
    ensures Pow(2, 4 * k) == Pow(16, k)
  {
    if k > 0 {
      PowTwo(k - 1);
      var j := 4 * (k - 1);
      assert Pow(2, j + 4) == 2 * Pow(2, j + 3) == 4 * Pow(2, j + 2) == 8 * Pow(2, j + 1) == 16 * Pow(2, j);
    }
  }

  lemma Pow64()
    ensures Pow(2, 64) == U64 && Pow(16, 16) == U64
  {
    assert Pow(16, 1) == 0x10;
    assert Pow(16, 2) == 0x100;
    assert Pow(16, 3) == 0x1000;
    assert Pow(16, 4) == 0x10000;
    assert Pow(16, 5) == 0x100000;
    assert Pow(16, 6) == 0x1000000;
    assert Pow(16, 7) == 0x10000000;
    assert Pow(16, 8) == 0x100000000;
    assert Pow(16, 9) == 0x1000000000;
    assert Pow(16, 10) == 0x10000000000;
    assert Pow(16, 11) == 0x100000000000;
    assert Pow(16, 12) == 0x1000000000000;
    assert Pow(16, 13) == 0x10000000000000;
    assert Pow(16, 14) == 0x100000000000000;
    assert Pow(16, 15) == 0x1000000000000000;
    assert Pow(16, 16) == 0x10000000000000000;
    PowTwo(16);
  }
}
