/**
 * The field GF(2^419) at the specification level: polynomials reduced modulo
 * the pentanomial F = x^419 + x^21 + x^14 + x + 1, and the operations the
 * library builds on them (product, powers, Frobenius powers, trace,
 * half-trace, inverse).
 */
module FieldSpec {
  import opened Poly

  /** The degree of the field polynomial (`M` and `MOD_DEG`). */
  const M: nat := 419

  /** The field polynomial x^419 + x^21 + x^14 + x + 1. */
  const F: Poly := {0, 1, 14, 21, 419}

  const ZERO: Poly := {}
  const ONE: Poly := {0}

  /** The canonical-form invariant: degree below 419. */
  ghost predicate Reduced(p: Poly) {
    Below(p, M)
  }

  // ---------------------------------------------------------------------
  // Long division by F

  /** One shift-and-XOR step of long division lowers the degree. */
  lemma StepLowers(p: Poly)
    requires !Reduced(p)
    ensures p != {} && Max(p) >= M
    ensures Below(Add(p, Shift(F, Max(p) - M)), Max(p))
    ensures Degree(Add(p, Shift(F, Max(p) - M))) < Degree(p)
  {
    var d := Max(p) - M;
    var q := Add(p, Shift(F, d));
    assert Below(q, Max(p));
    if q != {} {
      assert Max(q) < Max(p);
    }
  }

  /** Remainder of p modulo F, by repeated cancellation of the leading term. */
  ghost function ModF(p: Poly): Poly
    decreases Degree(p)
  {
    if Reduced(p) then p
    else
      StepLowers(p);
      ModF(Add(p, Shift(F, Max(p) - M)))
  }

  /** x ≡ y (mod F): their difference is a multiple of F. */
  ghost predicate Congruent(x: Poly, y: Poly) {
    exists q :: Add(x, y) == Mul(q, F)
  }

  lemma CongruentRefl(x: Poly)
    ensures Congruent(x, x)
  {
    AddSelf(x);
    MulZeroLeft(F);
    assert Add(x, x) == Mul({}, F);
  }

  lemma CongruentSymm(x: Poly, y: Poly)
    requires Congruent(x, y)
    ensures Congruent(y, x)
  {
    var q :| Add(x, y) == Mul(q, F);
    AddComm(x, y);
    assert Add(y, x) == Mul(q, F);
  }

  lemma CongruentTrans(x: Poly, y: Poly, z: Poly)
    requires Congruent(x, y) && Congruent(y, z)
    ensures Congruent(x, z)
  {
    var q1 :| Add(x, y) == Mul(q1, F);
    var q2 :| Add(y, z) == Mul(q2, F);
    MulAddLeft(q1, q2, F);
    assert Add(x, z) == Add(Add(x, y), Add(y, z));
    assert Add(x, z) == Mul(Add(q1, q2), F);
  }

  lemma CongruentAdd(x1: Poly, y1: Poly, x2: Poly, y2: Poly)
    requires Congruent(x1, y1) && Congruent(x2, y2)
    ensures Congruent(Add(x1, x2), Add(y1, y2))
  {
    var q1 :| Add(x1, y1) == Mul(q1, F);
    var q2 :| Add(x2, y2) == Mul(q2, F);
    MulAddLeft(q1, q2, F);
    AddSwapMiddle(x1, x2, y1, y2);
    assert Add(Add(x1, x2), Add(y1, y2)) == Mul(Add(q1, q2), F);
  }

  lemma CongruentMul(x: Poly, y: Poly, z: Poly)
    requires Congruent(x, y)
    ensures Congruent(Mul(x, z), Mul(y, z))
  {
    var q :| Add(x, y) == Mul(q, F);
    calc {
      Add(Mul(x, z), Mul(y, z));
      { MulAddLeft(x, y, z); }
      Mul(Mul(q, F), z);
      { MulAssoc(q, F, z); MulComm(F, z); }
      Mul(q, Mul(z, F));
      { MulAssoc(q, z, F); }
      Mul(Mul(q, z), F);
    }
  }

  /** One division step changes p by a multiple of F. */
  lemma StepCongruent(p: Poly, d: nat)
    ensures Congruent(Add(p, Shift(F, d)), p)
  {
    MulSingletonLeft(d, F);
    AddCancel(p, Shift(F, d));
    assert Add(Add(p, Shift(F, d)), p) == Mul({d}, F);
  }

  lemma {:induction false} ModFCongruent(p: Poly)
    ensures Congruent(ModF(p), p)
    decreases Degree(p)
  {
    if Reduced(p) {
      CongruentRefl(p);
    } else {
      StepLowers(p);
      var p' := Add(p, Shift(F, Max(p) - M));
      assert ModF(p) == ModF(p');
      ModFCongruent(p');
      StepCongruent(p, Max(p) - M);
      CongruentTrans(ModF(p'), p', p);
    }
  }

  lemma {:induction false} ModFReduced(p: Poly)
    ensures Reduced(ModF(p))
    decreases Degree(p)
  {
    if !Reduced(p) {
      StepLowers(p);
      ModFReduced(Add(p, Shift(F, Max(p) - M)));
    }
  }

  /** F · q written out term by term. */
  lemma MulFExpand(q: Poly)
    ensures Mul(q, F) == Add(Add(Add(Add(q, Shift(q, 1)), Shift(q, 14)), Shift(q, 21)), Shift(q, 419))
  {
    assert F == Add(Add(Add(Add({0}, {1}), {14}), {21}), {419});
    MulComm(q, F);
    MulAddLeft(Add(Add(Add({0}, {1}), {14}), {21}), {419}, q);
    MulAddLeft(Add(Add({0}, {1}), {14}), {21}, q);
    MulAddLeft(Add({0}, {1}), {14}, q);
    MulAddLeft({0}, {1}, q);
    MulSingletonLeft(0, q);
    MulSingletonLeft(1, q);
    MulSingletonLeft(14, q);
    MulSingletonLeft(21, q);
    MulSingletonLeft(419, q);
    ShiftZero(q);
  }

  /** A nonzero multiple of F has degree at least 419. */
  lemma MultipleOfFNotReduced(q: Poly)
    requires q != {}
    ensures Max(q) + M in Mul(q, F)
  {
    MulFExpand(q);
  }

  /** Two reduced polynomials congruent modulo F are equal. */
  lemma ReducedCongruentUnique(r1: Poly, r2: Poly)
    requires Reduced(r1) && Reduced(r2) && Congruent(r1, r2)
    ensures r1 == r2
  {
    var q :| Add(r1, r2) == Mul(q, F);
    if q != {} {
      MultipleOfFNotReduced(q);
      assert false;
    }
    MulZeroLeft(F);
    assert Add(r1, r2) == {};
  }

  /** ModF is characterised by its two properties. */
  lemma ModFUnique(x: Poly, r: Poly)
    requires Reduced(r) && Congruent(r, x)
    ensures ModF(x) == r
  {
    ModFReduced(x);
    ModFCongruent(x);
    CongruentSymm(r, x);
    CongruentTrans(ModF(x), x, r);
    ReducedCongruentUnique(ModF(x), r);
  }

  lemma ModFOfReduced(x: Poly)
    requires Reduced(x)
    ensures ModF(x) == x
  {
  }

  /** Reduction is linear. */
  lemma ModFAdd(x: Poly, y: Poly)
    ensures ModF(Add(x, y)) == Add(ModF(x), ModF(y))
  {
    ModFReduced(x);
    ModFReduced(y);
    ModFCongruent(x);
    ModFCongruent(y);
    CongruentAdd(ModF(x), x, ModF(y), y);
    ModFUnique(Add(x, y), Add(ModF(x), ModF(y)));
  }

  /** Reducing a factor first does not change the reduced product. */
  lemma ModFMulLeft(x: Poly, y: Poly)
    ensures ModF(Mul(ModF(x), y)) == ModF(Mul(x, y))
  {
    ModFCongruent(x);
    CongruentMul(ModF(x), x, y);
    ModFReduced(Mul(ModF(x), y));
    ModFCongruent(Mul(ModF(x), y));
    CongruentTrans(ModF(Mul(ModF(x), y)), Mul(ModF(x), y), Mul(x, y));
    ModFUnique(Mul(x, y), ModF(Mul(ModF(x), y)));
  }

  lemma ModFMulRight(x: Poly, y: Poly)
    ensures ModF(Mul(x, ModF(y))) == ModF(Mul(x, y))
  {
    MulComm(x, ModF(y));
    MulComm(x, y);
    ModFMulLeft(y, x);
  }

  lemma ModFIdempotent(x: Poly)
    ensures ModF(ModF(x)) == ModF(x)
  {
    ModFReduced(x);
    ModFOfReduced(ModF(x));
  }

  // ---------------------------------------------------------------------
  // Field multiplication and its laws

  /** Field product: carry-less product reduced modulo F. */
  ghost function FMul(p: Poly, q: Poly): Poly
  {
    ModF(Mul(p, q))
  }

  ghost function FSqr(p: Poly): Poly
  {
    FMul(p, p)
  }

  lemma FMulReduced(p: Poly, q: Poly)
    ensures Reduced(FMul(p, q))
  {
    ModFReduced(Mul(p, q));
  }

  lemma FMulComm(p: Poly, q: Poly)
    ensures FMul(p, q) == FMul(q, p)
  {
    MulComm(p, q);
  }

  lemma FMulAssoc(a: Poly, b: Poly, c: Poly)
    ensures FMul(FMul(a, b), c) == FMul(a, FMul(b, c))
  {
    calc {
      FMul(FMul(a, b), c);
      ModF(Mul(ModF(Mul(a, b)), c));
      { ModFMulLeft(Mul(a, b), c); }
      ModF(Mul(Mul(a, b), c));
      { MulAssoc(a, b, c); }
      ModF(Mul(a, Mul(b, c)));
      { ModFMulRight(a, Mul(b, c)); }
      FMul(a, FMul(b, c));
    }
  }

  lemma FMulAddLeft(a: Poly, b: Poly, c: Poly)
    ensures FMul(Add(a, b), c) == Add(FMul(a, c), FMul(b, c))
  {
    MulAddLeft(a, b, c);
    ModFAdd(Mul(a, c), Mul(b, c));
  }

  lemma FMulAddRight(a: Poly, b: Poly, c: Poly)
    ensures FMul(a, Add(b, c)) == Add(FMul(a, b), FMul(a, c))
  {
    MulAddRight(a, b, c);
    ModFAdd(Mul(a, b), Mul(a, c));
  }

  lemma FMulOneLeft(p: Poly)
    ensures FMul(ONE, p) == ModF(p)
  {
    MulOneLeft(p);
  }

  lemma FMulOneRight(p: Poly)
    ensures FMul(p, ONE) == ModF(p)
  {
    MulComm(p, ONE);
    MulOneLeft(p);
  }

  lemma FMulZeroLeft(p: Poly)
    ensures FMul(ZERO, p) == ZERO
  {
    MulZeroLeft(p);
  }

  lemma FMulZeroRight(p: Poly)
    ensures FMul(p, ZERO) == ZERO
  {
    MulZeroRight(p);
  }

  lemma FMulModLeft(a: Poly, b: Poly)
    ensures FMul(ModF(a), b) == FMul(a, b)
  {
    ModFMulLeft(a, b);
  }

  lemma FMulModRight(a: Poly, b: Poly)
    ensures FMul(a, ModF(b)) == FMul(a, b)
  {
    ModFMulRight(a, b);
  }

  /** Squaring is additive in characteristic 2. */
  lemma FSqrAdd(x: Poly, y: Poly)
    ensures FSqr(Add(x, y)) == Add(FSqr(x), FSqr(y))
  {
    calc {
      FSqr(Add(x, y));
      { FMulAddLeft(x, y, Add(x, y)); FMulAddRight(x, x, y); FMulAddRight(y, x, y); }
      Add(Add(FMul(x, x), FMul(x, y)), Add(FMul(y, x), FMul(y, y)));
      { FMulComm(x, y); AddSwapMiddle(FMul(x, x), FMul(x, y), FMul(x, y), FMul(y, y)); AddSelf(FMul(x, y)); }
      Add(Add(FMul(x, x), FMul(y, y)), {});
      { AddZero(Add(FMul(x, x), FMul(y, y))); }
      Add(FSqr(x), FSqr(y));
    }
  }

  /** Squaring is multiplicative. */
  lemma FSqrMul(x: Poly, y: Poly)
    ensures FSqr(FMul(x, y)) == FMul(FSqr(x), FSqr(y))
  {
    calc {
      FMul(FMul(x, y), FMul(x, y));
      { FMulAssoc(x, y, FMul(x, y)); }
      FMul(x, FMul(y, FMul(x, y)));
      { FMulAssoc(y, x, y); FMulComm(y, x); FMulAssoc(x, y, y); }
      FMul(x, FMul(x, FMul(y, y)));
      { FMulAssoc(x, x, FMul(y, y)); }
      FMul(FSqr(x), FSqr(y));
    }
  }

  lemma FSqrZero()
    ensures FSqr(ZERO) == ZERO
  {
    FMulZeroLeft(ZERO);
  }

  // ---------------------------------------------------------------------
  // Powers

  function Pow2(n: nat): (r: nat)
    ensures r >= 1
  {
    if n == 0 then 1 else 2 * Pow2(n - 1)
  }

  /** a^e by repeated multiplication: the reference for `pow`. */
  ghost function FPow(p: Poly, e: nat): Poly
  {
    if e == 0 then ONE else FMul(FPow(p, e - 1), p)
  }

  lemma FPowReduced(p: Poly, e: nat)
    ensures Reduced(FPow(p, e))
  {
    if e > 0 {
      FMulReduced(FPow(p, e - 1), p);
    }
  }

  lemma FPowOne(p: Poly)
    ensures FPow(p, 1) == ModF(p)
  {
    FMulOneLeft(p);
  }

  lemma {:induction false} FPowAdd(p: Poly, m: nat, n: nat)
    ensures FPow(p, m + n) == FMul(FPow(p, m), FPow(p, n))
  {
    if n == 0 {
      FMulOneRight(FPow(p, m));
      FPowReduced(p, m);
      ModFOfReduced(FPow(p, m));
    } else {
      FPowAdd(p, m, n - 1);
      FMulAssoc(FPow(p, m), FPow(p, n - 1), p);
    }
  }

  lemma FPowDouble(p: Poly, n: nat)
    ensures FSqr(FPow(p, n)) == FPow(p, 2 * n)
  {
    FPowAdd(p, n, n);
  }

  lemma {:induction false} FPowZeroBase(e: nat)
    requires e >= 1
    ensures FPow(ZERO, e) == ZERO
  {
    FMulZeroRight(FPow(ZERO, e - 1));
  }

  /** (a·b)^e = a^e · b^e. */
  lemma {:induction false} FPowMul(a: Poly, b: Poly, e: nat)
    ensures FPow(FMul(a, b), e) == FMul(FPow(a, e), FPow(b, e))
  {
    if e == 0 {
      FMulOneLeft(ONE);
    } else {
      FPowMul(a, b, e - 1);
      var x, y := FPow(a, e - 1), FPow(b, e - 1);
      calc {
        FPow(FMul(a, b), e);
        FMul(FMul(x, y), FMul(a, b));
        { FMulAssoc(x, y, FMul(a, b)); }
        FMul(x, FMul(y, FMul(a, b)));
        { FMulComm(a, b); FMulAssoc(y, b, a); }
        FMul(x, FMul(FMul(y, b), a));
        { FMulComm(FMul(y, b), a); }
        FMul(x, FMul(a, FMul(y, b)));
        { FMulAssoc(x, a, FMul(y, b)); }
        FMul(FPow(a, e), FPow(b, e));
      }
    }
  }

  /** Frobenius powers: Frob(p, j) = p^(2^j), computed by j squarings. */
  ghost function Frob(p: Poly, j: nat): Poly
  {
    if j == 0 then p else FSqr(Frob(p, j - 1))
  }

  lemma {:induction false} FrobAdd(x: Poly, y: Poly, j: nat)
    ensures Frob(Add(x, y), j) == Add(Frob(x, j), Frob(y, j))
  {
    if j > 0 {
      FrobAdd(x, y, j - 1);
      FSqrAdd(Frob(x, j - 1), Frob(y, j - 1));
    }
  }

  lemma {:induction false} FrobZero(j: nat)
    ensures Frob(ZERO, j) == ZERO
  {
    if j > 0 {
      FrobZero(j - 1);
      FSqrZero();
    }
  }

  lemma FrobReduced(p: Poly, j: nat)
    requires j >= 1 || Reduced(p)
    ensures Reduced(Frob(p, j))
  {
    if j > 0 {
      FMulReduced(Frob(p, j - 1), Frob(p, j - 1));
    }
  }

  lemma {:induction false} FrobIsPow(p: Poly, j: nat)
    requires j >= 1
    ensures Frob(p, j) == FPow(p, Pow2(j))
  {
    if j == 1 {
      calc {
        FPow(p, 2);
        FMul(FPow(p, 1), p);
        FMul(FMul(FPow(p, 0), p), p);
        FMul(FMul(ONE, p), p);
        { FMulOneLeft(p); FMulModLeft(p, p); }
        Frob(p, 1);
      }
    } else {
      FrobIsPow(p, j - 1);
      FPowDouble(p, Pow2(j - 1));
    }
  }

  // ---------------------------------------------------------------------
  // Trace, half-trace, inverse

  /** Frob(p, 0) + Frob(p, 1) + ... + Frob(p, n - 1). */
  ghost function FrobSum(p: Poly, n: nat): Poly
  {
    if n == 0 then ZERO else Add(FrobSum(p, n - 1), Frob(p, n - 1))
  }

  /** Tr(p) = p + p^2 + p^4 + ... + p^(2^418). */
  ghost function Trace(p: Poly): Poly
  {
    FrobSum(p, M)
  }

  /** Frob(p, 0) + Frob(p, 2) + ... + Frob(p, 2(k - 1)). */
  ghost function HalfSum(p: Poly, k: nat): Poly
  {
    if k == 0 then ZERO else Add(HalfSum(p, k - 1), Frob(p, 2 * (k - 1)))
  }

  /** H(p) = p + p^4 + p^16 + ... + p^(4^209), the 210 even Frobenius powers. */
  ghost function HalfTrace(p: Poly): Poly
  {
    HalfSum(p, (M + 1) / 2)
  }

  /** The inverse as the code computes it: p^(2^419 - 2). */
  ghost function Inverse(p: Poly): Poly
  {
    FPow(p, Pow2(M) - 2)
  }

  lemma Pow2Ge4(n: nat)
    requires n >= 2
    ensures Pow2(n) >= 4
  {
    if n > 2 {
      Pow2Ge4(n - 1);
    }
  }

  // ---------------------------------------------------------------------
  // Properties of the sums (no assumption about the field polynomial)

  lemma {:induction false} FrobSumReduced(p: Poly, n: nat)
    requires Reduced(p)
    ensures Reduced(FrobSum(p, n))
  {
    if n > 0 {
      FrobSumReduced(p, n - 1);
      FrobReduced(p, n - 1);
      AddBelow(FrobSum(p, n - 1), Frob(p, n - 1), M);
    }
  }

  lemma {:induction false} FrobSumZero(n: nat)
    ensures FrobSum(ZERO, n) == ZERO
  {
    if n > 0 {
      FrobSumZero(n - 1);
      FrobZero(n - 1);
      AddZero(ZERO);
    }
  }

  lemma {:induction false} FrobSumAdd(x: Poly, y: Poly, n: nat)
    ensures FrobSum(Add(x, y), n) == Add(FrobSum(x, n), FrobSum(y, n))
  {
    if n > 0 {
      FrobSumAdd(x, y, n - 1);
      FrobAdd(x, y, n - 1);
      SumStep(FrobSum(Add(x, y), n), FrobSum(Add(x, y), n - 1), Frob(Add(x, y), n - 1),
              FrobSum(x, n - 1), FrobSum(y, n - 1), Frob(x, n - 1), Frob(y, n - 1),
              FrobSum(x, n), FrobSum(y, n));
    }
  }

  /** The step of FrobSumAdd: a sum of two sums regrouped term by term. */
  lemma SumStep(t: Poly, s: Poly, f: Poly, sx: Poly, sy: Poly, fx: Poly, fy: Poly, tx: Poly, ty: Poly)
    requires t == Add(s, f) && s == Add(sx, sy) && f == Add(fx, fy)
    requires tx == Add(sx, fx) && ty == Add(sy, fy)
    ensures t == Add(tx, ty)
  {
    AddSwapMiddle(sx, sy, fx, fy);
  }

  /** Tr is additive. */
  lemma TraceAdd(x: Poly, y: Poly)
    ensures Trace(Add(x, y)) == Add(Trace(x), Trace(y))
  {
    FrobSumAdd(x, y, M);
  }

  /**
   * Squaring a partial sum shifts every term up by one Frobenius power:
   * (p + ... + p^(2^(n-1)))^2 = p^2 + ... + p^(2^n).  This is the step of
   * the Horner-like loop of `trace`.
   */
  lemma {:induction false} FSqrFrobSum(p: Poly, n: nat)
    ensures FSqr(FrobSum(p, n)) == Add(FrobSum(p, n + 1), p)
  {
    if n == 0 {
      FSqrZero();
    } else {
      FSqrFrobSum(p, n - 1);
      FSqrAdd(FrobSum(p, n - 1), Frob(p, n - 1));
    }
  }

  lemma {:induction false} FrobOfSqr(z: Poly, j: nat)
    ensures Frob(FSqr(z), j) == Frob(z, j + 1)
  {
    if j > 0 {
      FrobOfSqr(z, j - 1);
    }
  }

  lemma {:induction false} FrobSumOfSqr(z: Poly, n: nat)
    ensures FrobSum(FSqr(z), n) == Add(FrobSum(z, n + 1), z)
  {
    if n > 0 {
      FrobSumOfSqr(z, n - 1);
      FrobOfSqr(z, n - 1);
    }
  }

  lemma {:induction false} HalfSumAdd(x: Poly, y: Poly, k: nat)
    ensures HalfSum(Add(x, y), k) == Add(HalfSum(x, k), HalfSum(y, k))
  {
    if k > 0 {
      HalfSumAdd(x, y, k - 1);
      FrobAdd(x, y, 2 * (k - 1));
      AddSwapMiddle(HalfSum(x, k - 1), HalfSum(y, k - 1), Frob(x, 2 * (k - 1)), Frob(y, 2 * (k - 1)));
    }
  }

  /** The half-trace is additive. */
  lemma HalfTraceAdd(x: Poly, y: Poly)
    ensures HalfTrace(Add(x, y)) == Add(HalfTrace(x), HalfTrace(y))
  {
    HalfSumAdd(x, y, (M + 1) / 2);
  }

  lemma {:induction false} HalfSumZero(k: nat)
    ensures HalfSum(ZERO, k) == ZERO
  {
    if k > 0 {
      HalfSumZero(k - 1);
      FrobZero(2 * (k - 1));
    }
  }

  lemma HalfTraceZero()
    ensures HalfTrace(ZERO) == ZERO
  {
    HalfSumZero((M + 1) / 2);
  }

  lemma {:induction false} HalfSumReduced(p: Poly, k: nat)
    requires Reduced(p)
    ensures Reduced(HalfSum(p, k))
  {
    if k > 0 {
      HalfSumReduced(p, k - 1);
      FrobReduced(p, 2 * (k - 1));
      AddBelow(HalfSum(p, k - 1), Frob(p, 2 * (k - 1)), M);
    }
  }

  /** H + H^2 collects the first 2k Frobenius powers. */
  lemma {:induction false} HalfSumSqr(c: Poly, k: nat)
    ensures Add(HalfSum(c, k), FSqr(HalfSum(c, k))) == FrobSum(c, 2 * k)
  {
    if k == 0 {
      FSqrZero();
    } else {
      var h := HalfSum(c, k - 1);
      var t := Frob(c, 2 * (k - 1));
      HalfSumSqr(c, k - 1);
      FSqrAdd(h, t);
      assert FrobSum(c, 2 * k) == Add(Add(FrobSum(c, 2 * (k - 1)), t), FSqr(t));
    }
  }

  // ---------------------------------------------------------------------
  // Facts that need x^419 + x^21 + x^14 + x + 1 to be irreducible

  /**
   * The multiplicative group of the field has order 2^419 - 1, so every
   * nonzero reduced y satisfies y^(2^419 - 1) = 1.  This holds exactly when
   * F is irreducible, which the model takes as a hypothesis: the lemmas
   * below that need it say so in their `requires`.
   */
  ghost predicate FieldHypothesis() {
    forall y: Poly {:trigger FPow(y, Pow2(M) - 1)} :: Reduced(y) && y != ZERO ==> FPow(y, Pow2(M) - 1) == ONE
  }

  /** y^(2^419) = y: 419 squarings are the identity on reduced elements. */
  lemma FrobPeriod(y: Poly)
    requires FieldHypothesis() && Reduced(y)
    ensures Frob(y, M) == y
  {
    if y == ZERO {
      FrobZero(M);
    } else {
      FrobIsPow(y, M);
      Pow2Ge4(M);
      assert FPow(y, Pow2(M)) == FMul(FPow(y, Pow2(M) - 1), y);
      FMulOneLeft(y);
      ModFOfReduced(y);
    }
  }

  /** a * a^(2^419 - 2) = 1 for every nonzero reduced a. */
  lemma InverseCorrect(a: Poly)
    requires FieldHypothesis() && Reduced(a) && a != ZERO
    ensures FMul(a, Inverse(a)) == ONE && FMul(Inverse(a), a) == ONE
  {
    Pow2Ge4(M);
    assert FPow(a, Pow2(M) - 1) == FMul(FPow(a, Pow2(M) - 2), a);
    FMulComm(a, Inverse(a));
  }

  lemma InverseReduced(p: Poly)
    ensures Reduced(Inverse(p))
  {
    FPowReduced(p, Pow2(M) - 2);
  }

  /** The exponent 2^419 - 2 is positive, so the inverse of zero is zero. */
  lemma InverseZero()
    ensures Inverse(ZERO) == ZERO
  {
    Pow2Ge4(M);
    FPowZeroBase(Pow2(M) - 2);
  }

  lemma NoZeroDivisors(x: Poly, y: Poly)
    requires FieldHypothesis() && Reduced(x) && Reduced(y)
    requires FMul(x, y) == ZERO
    ensures x == ZERO || y == ZERO
  {
    if x != ZERO {
      InverseCorrect(x);
      calc {
        y;
        { ModFOfReduced(y); FMulOneLeft(y); }
        FMul(ONE, y);
        FMul(FMul(Inverse(x), x), y);
        { FMulAssoc(Inverse(x), x, y); }
        FMul(Inverse(x), ZERO);
        { FMulZeroRight(Inverse(x)); }
        ZERO;
      }
    }
  }

  /** Tr(z^2) = Tr(z). */
  lemma TraceOfSqr(z: Poly)
    requires FieldHypothesis() && Reduced(z)
    ensures Trace(FSqr(z)) == Trace(z)
  {
    FrobSumOfSqr(z, M);
    FrobPeriod(z);
  }

  /** Tr(c)^2 = Tr(c). */
  lemma TraceSqr(c: Poly)
    requires FieldHypothesis() && Reduced(c)
    ensures FSqr(Trace(c)) == Trace(c)
  {
    FSqrFrobSum(c, M);
    FrobPeriod(c);
  }

  /** The trace is 0 or 1, so `trace` returns ZERO or ONE. */
  lemma TraceIsBit(c: Poly)
    requires FieldHypothesis() && Reduced(c)
    ensures Trace(c) == ZERO || Trace(c) == ONE
  {
    var t := Trace(c);
    FrobSumReduced(c, M);
    TraceSqr(c);
    var u := Add(t, ONE);
    AddBelow(t, ONE, M);
    calc {
      FMul(t, u);
      { FMulAddRight(t, t, ONE); }
      Add(FMul(t, t), FMul(t, ONE));
      { FMulOneRight(t); ModFOfReduced(t); }
      Add(t, t);
      { AddSelf(t); }
      ZERO;
    }
    NoZeroDivisors(t, u);
  }

  /** H(c)^2 + H(c) = c + Tr(c). */
  lemma HalfTraceEquation(c: Poly)
    requires FieldHypothesis() && Reduced(c)
    ensures Add(FSqr(HalfTrace(c)), HalfTrace(c)) == Add(Trace(c), c)
  {
    FrobPeriod(c);
    HalfSumEquation(c, (M + 1) / 2, M);
  }

  lemma HalfSumEquation(c: Poly, k: nat, n: nat)
    requires 2 * k == n + 1 && Frob(c, n) == c
    ensures Add(FSqr(HalfSum(c, k)), HalfSum(c, k)) == Add(FrobSum(c, n), c)
  {
    HalfSumSqr(c, k);
    AddComm(FSqr(HalfSum(c, k)), HalfSum(c, k));
  }
}
