/**
 * Solving x^2 + a x = b over GF(2^419) (src/solve_sq_eq.rs).
 *
 * Substituting x = a z turns the equation into z^2 + z = c with
 * c = b / a^2.  That has a solution exactly when Tr(c) = 0, and then the
 * half-trace H(c) and H(c) + 1 are its two solutions.
 */
module SolveSqEq {
  import opened Poly
  import P = Poly
  import opened FieldSpec
  import opened GF2
  import opened Core

  datatype SolveEqError = NoSolution

  // ---------------------------------------------------------------------
  // The mathematics of `solve`, on polynomials

  /** c = b * (a^2)^(2^419 - 2), the constant `solve` reduces the equation to. */
  ghost function EqConst(a: Poly, b: Poly): Poly {
    FMul(b, FieldSpec.Inverse(FSqr(a)))
  }

  /** The pair `solve` returns when Tr(c) = 0: a H(c) and a (H(c) + 1). */
  ghost function Roots(a: Poly, b: Poly): (Poly, Poly) {
    var z := FieldSpec.HalfTrace(EqConst(a, b));
    (FMul(z, a), FMul(P.Add(z, FieldSpec.ONE), a))
  }

  /** x solves x^2 + a x + b = 0 in the field. */
  ghost predicate IsRoot(a: Poly, b: Poly, x: Poly) {
    P.Add(P.Add(FSqr(x), FMul(a, x)), ModF(b)) == ZERO
  }

  /** The two roots add up to a (reduced): they differ, unless a is 0. */
  lemma RootsSum(a: Poly, b: Poly)
    ensures P.Add(Roots(a, b).0, Roots(a, b).1) == ModF(a)
  {
    var z := FieldSpec.HalfTrace(EqConst(a, b));
    calc {
      P.Add(FMul(z, a), FMul(P.Add(z, FieldSpec.ONE), a));
      { FMulAddLeft(z, P.Add(z, FieldSpec.ONE), a); }
      FMul(P.Add(z, P.Add(z, FieldSpec.ONE)), a);
      { AddAssoc(z, z, FieldSpec.ONE); AddSelf(z); AddZero(FieldSpec.ONE); }
      FMul(FieldSpec.ONE, a);
      { FMulOneLeft(a); }
      ModF(a);
    }
  }

  /** For a = 0, c = 0, so `solve` succeeds with the double root 0. */
  lemma SolveZeroA(b: Poly)
    ensures Trace(EqConst(ZERO, b)) == ZERO
    ensures Roots(ZERO, b) == (ZERO, ZERO)
  {
    FSqrZero();
    InverseZero();
    FMulZeroRight(b);
    FrobSumZero(M);
    var z := FieldSpec.HalfTrace(EqConst(ZERO, b));
    FMulZeroRight(z);
    FMulZeroRight(P.Add(z, FieldSpec.ONE));
  }

  /** With Tr(c) = 0 both returned values solve the equation (a nonzero). */
  lemma RootsSolve(a: Poly, b: Poly)
    requires FieldHypothesis() && ModF(a) != ZERO
    requires Trace(EqConst(a, b)) == ZERO
    ensures IsRoot(a, b, Roots(a, b).0) && IsRoot(a, b, Roots(a, b).1)
  {
    var c := EqConst(a, b);
    var z := FieldSpec.HalfTrace(c);
    FMulReduced(b, FieldSpec.Inverse(FSqr(a)));
    HalfTraceEquation(c);
    AddZero(c);
    assert P.Add(FSqr(z), z) == c;
    RootFromZ(a, b, z);
    var z2 := P.Add(z, FieldSpec.ONE);
    calc {
      P.Add(FSqr(z2), z2);
      { FSqrAdd(z, FieldSpec.ONE); FSqrOne(); }
      P.Add(P.Add(FSqr(z), FieldSpec.ONE), P.Add(z, FieldSpec.ONE));
      { AddSwapMiddle(FSqr(z), FieldSpec.ONE, z, FieldSpec.ONE); AddSelf(FieldSpec.ONE); }
      P.Add(P.Add(FSqr(z), z), ZERO);
      { AddZero(P.Add(FSqr(z), z)); }
      c;
    }
    RootFromZ(a, b, z2);
  }

  /** With Tr(c) != 0 no element solves the equation (a nonzero). */
  lemma NoRootWhenTraceNonzero(a: Poly, b: Poly, x: Poly)
    requires FieldHypothesis() && ModF(a) != ZERO
    requires Trace(EqConst(a, b)) != ZERO
    ensures !IsRoot(a, b, x)
  {
    if IsRoot(a, b, x) {
      var z := FMul(x, FMul(a, FieldSpec.Inverse(FSqr(a))));
      ScaledRoot(a, b, x);
      FMulReduced(x, FMul(a, FieldSpec.Inverse(FSqr(a))));
      TraceAdd(FSqr(z), z);
      TraceOfSqr(z);
      AddSelf(Trace(z));
      assert false;
    }
  }

  /** A root x gives z = x / a with z^2 + z = c. */
  lemma ScaledRoot(a: Poly, b: Poly, x: Poly)
    requires FieldHypothesis() && ModF(a) != ZERO
    requires IsRoot(a, b, x)
    ensures var z := FMul(x, FMul(a, FieldSpec.Inverse(FSqr(a))));
      P.Add(FSqr(z), z) == EqConst(a, b)
  {
    var t := FieldSpec.Inverse(FSqr(a));
    var j := FMul(a, t);
    var z := FMul(x, j);
    AddZeroEq(P.Add(FSqr(x), FMul(a, x)), ModF(b));
    InverseSqr(a);
    calc {
      FSqr(z);
      { FSqrMul(x, j); }
      FMul(FSqr(x), t);
    }
    calc {
      z;
      { FMulAssoc(x, a, t); }
      FMul(FMul(x, a), t);
      { FMulComm(x, a); }
      FMul(FMul(a, x), t);
    }
    calc {
      P.Add(FSqr(z), z);
      { FMulAddLeft(FSqr(x), FMul(a, x), t); }
      FMul(P.Add(FSqr(x), FMul(a, x)), t);
      FMul(ModF(b), t);
      { FMulModLeft(b, t); }
      EqConst(a, b);
    }
  }

  /** (a / a^2)^2 = 1 / a^2. */
  lemma InverseSqr(a: Poly)
    requires FieldHypothesis() && ModF(a) != ZERO
    ensures var t := FieldSpec.Inverse(FSqr(a));
      FSqr(FMul(a, t)) == t
  {
    var s := FSqr(a);
    var t := FieldSpec.Inverse(s);
    SqrNonzero(a);
    InverseCorrect(s);
    calc {
      FSqr(FMul(a, t));
      { FSqrMul(a, t); }
      FMul(s, FSqr(t));
      { FMulAssoc(s, t, t); }
      FMul(FMul(s, t), t);
      FMul(FieldSpec.ONE, t);
      { FMulOneLeft(t); InverseReduced(s); ModFOfReduced(t); }
      t;
    }
  }

  /** x = a z solves the equation whenever z^2 + z = c. */
  lemma RootFromZ(a: Poly, b: Poly, z: Poly)
    requires FieldHypothesis() && ModF(a) != ZERO
    requires P.Add(FSqr(z), z) == EqConst(a, b)
    ensures IsRoot(a, b, FMul(z, a))
  {
    var s := FSqr(a);
    var t := FieldSpec.Inverse(s);
    var x := FMul(z, a);
    SqrNonzero(a);
    InverseCorrect(s);
    FSqrMul(z, a);
    calc {
      FMul(a, x);
      { FMulComm(z, a); }
      FMul(a, FMul(a, z));
      { FMulAssoc(a, a, z); }
      FMul(s, z);
      { FMulComm(s, z); }
      FMul(z, s);
    }
    calc {
      P.Add(FSqr(x), FMul(a, x));
      P.Add(FMul(FSqr(z), s), FMul(z, s));
      { FMulAddLeft(FSqr(z), z, s); }
      FMul(EqConst(a, b), s);
      { FMulAssoc(b, t, s); }
      FMul(b, FMul(t, s));
      FMul(b, FieldSpec.ONE);
      { FMulOneRight(b); }
      ModF(b);
    }
    AddSelf(ModF(b));
  }

  /** a^2 is reduced and, when a is nonzero in the field, nonzero. */
  lemma SqrNonzero(a: Poly)
    requires FieldHypothesis() && ModF(a) != ZERO
    ensures Reduced(FSqr(a)) && FSqr(a) != ZERO
  {
    FMulReduced(a, a);
    FMulModLeft(a, a);
    FMulModRight(ModF(a), a);
    ModFReduced(a);
    if FSqr(a) == ZERO {
      NoZeroDivisors(ModF(a), ModF(a));
    }
  }

  lemma FSqrOne()
    ensures FSqr(FieldSpec.ONE) == FieldSpec.ONE
  {
    FMulOneLeft(FieldSpec.ONE);
    ModFOfReduced(FieldSpec.ONE);
  }

  lemma AddZeroEq(u: Poly, v: Poly)
    requires P.Add(u, v) == ZERO
    ensures u == v
  {
    AddTwice(u, v);
    AddZero(v);
  }

  // ---------------------------------------------------------------------
  // The code

  /**
   * `halftrace`: c + c^4 + c^16 + ... + c^(4^209); round i adds s = c^(2^i)
   * when i is even, then squares s.
   */
  method HalfTrace(el: GF2Element) returns (out: GF2Element)
    ensures out.Value() == FieldSpec.HalfTrace(el.Value())
  {
    ghost var c := el.Value();
    var s := el;
    out := GF2Element.ZERO;
    ZeroValue();
    for i := 0 to M
      invariant s.Value() == Frob(c, i)
      invariant out.Value() == HalfSum(c, (i + 1) / 2)
    {
      ghost var o := out.Value();
      if i % 2 == 0 {
        out := out.Add(s);
      }
      HalfTraceStep(c, i, o, out.Value());
      s := s.Sqr();
    }
  }

  /** One round of `halftrace`: the even rounds add the next term of the sum. */
  lemma HalfTraceStep(c: Poly, i: nat, o: Poly, o2: Poly)
    requires o == HalfSum(c, (i + 1) / 2)
    requires o2 == if i % 2 == 0 then P.Add(o, Frob(c, i)) else o
    ensures o2 == HalfSum(c, (i + 2) / 2)
  {
    Halves(i);
    if i % 2 == 0 {
      HalfSumNext(c, (i + 1) / 2, i, (i + 2) / 2, o, o2);
    }
  }

  lemma Halves(i: nat)
    ensures i % 2 == 0 ==> 2 * ((i + 1) / 2) == i && (i + 2) / 2 == (i + 1) / 2 + 1
    ensures i % 2 == 1 ==> (i + 2) / 2 == (i + 1) / 2
  {
  }

  /** An even round 2 k adds term k of the sum. */
  lemma HalfSumNext(c: Poly, k: nat, i: nat, k2: nat, o: Poly, o2: Poly)
    requires i == 2 * k && k2 == k + 1
    requires o == HalfSum(c, k) && o2 == P.Add(o, Frob(c, i))
    ensures o2 == HalfSum(c, k2)
  {
  }

  /**
   * `solve`: Err(NoSolution) exactly when Tr(b / a^2) is nonzero, and
   * otherwise the two roots a H(c) and a (H(c) + 1).
   */
  method Solve(a: GF2Element, b: GF2Element) returns (r: Result<(GF2Element, GF2Element), SolveEqError>)
    ensures r.Err? <==> Trace(EqConst(a.Value(), b.Value())) != ZERO
    ensures r.Ok? ==> (r.value.0.Value(), r.value.1.Value()) == Roots(a.Value(), b.Value())
    ensures a == GF2Element.ZERO ==> r == Ok((GF2Element.ZERO, GF2Element.ZERO))
  {
    var s := a.Sqr();
    var inv := s.Inverse();
    var c := b.Mul(inv);
    var t := c.Trace();
    ValueInjective(t, GF2Element.ZERO);
    ZeroValue();
    if a == GF2Element.ZERO {
      SolveZeroA(b.Value());
    }
    if t != GF2Element.ZERO {
      return Err(NoSolution);
    }
    var z1 := HalfTrace(c);
    var z2 := z1.Add(GF2Element.ONE);
    OneValue();
    var x1 := z1.Mul(a);
    var x2 := z2.Mul(a);
    r := Ok((x1, x2));
    if a == GF2Element.ZERO {
      ValueInjective(x1, GF2Element.ZERO);
      ValueInjective(x2, GF2Element.ZERO);
    }
  }
}
