/**
 * Polynomials over GF(2), viewed abstractly as the finite set of exponents
 * whose coefficient is 1.  Addition is coefficient-wise XOR (symmetric
 * difference) and multiplication is the carry-less product: the XOR of one
 * shifted copy of the right operand per term of the left operand.
 *
 * This is the specification level against which the word-array code is proved.
 */
module Poly {

  type Poly = set<nat>

  /** Coefficient-wise XOR. */
  ghost function Add(p: Poly, q: Poly): (r: Poly)
    ensures forall n {:trigger n in r} :: n in r <==> (n in p) != (n in q)
  {
    (p - q) + (q - p)
  }

  /** Multiplication by x^k. */
  ghost function Shift(p: Poly, k: nat): (r: Poly)
    ensures forall n {:trigger n in r} :: n in r <==> n >= k && n - k in p
  {
    var r := set i | i in p :: i + k;
    assert forall n :: n >= k && n - k in p ==> n in r by {
      forall n | n >= k && n - k in p ensures n in r {
        assert (n - k) + k == n;
      }
    }
    r
  }

  /** Every exponent of p is below k. */
  ghost predicate Below(p: Poly, k: nat) {
    forall n :: n in p ==> n < k
  }

  /** The terms of p below x^k. */
  ghost function Restrict(p: Poly, k: nat): (r: Poly)
    ensures forall n {:trigger n in r} :: n in r <==> n in p && n < k
  {
    set n | n in p && n < k
  }

  /** An exclusive upper bound of the exponents of p. */
  ghost function Bound(p: Poly): (b: nat)
    ensures Below(p, b)
    decreases |p|
  {
    if p == {} then 0
    else
      var x :| x in p;
      var b := Bound(p - {x});
      assert forall n :: n in p ==> n == x || n in p - {x};
      if x < b then b else x + 1
  }

  /** The terms of p of exponent below k, each multiplied into q. */
  ghost function MulUpTo(p: Poly, q: Poly, k: nat): Poly
  {
    if k == 0 then {}
    else Add(MulUpTo(p, q, k - 1), if k - 1 in p then Shift(q, k - 1) else {})
  }

  /** Carry-less product. */
  ghost function Mul(p: Poly, q: Poly): Poly
  {
    MulUpTo(p, q, Bound(p))
  }

  // ---------------------------------------------------------------------
  // Addition and shifting

  lemma AddComm(p: Poly, q: Poly)
    ensures Add(p, q) == Add(q, p)
  {
  }

  lemma AddAssoc(p: Poly, q: Poly, r: Poly)
    ensures Add(Add(p, q), r) == Add(p, Add(q, r))
  {
  }

  lemma AddZero(p: Poly)
    ensures Add(p, {}) == p && Add({}, p) == p
  {
  }

  lemma AddSelf(p: Poly)
    ensures Add(p, p) == {}
  {
  }

  lemma AddCancel(p: Poly, s: Poly)
    ensures Add(Add(p, s), p) == s
  {
  }

  /** Regrouping of a sum of four terms. */
  lemma AddTwice(p: Poly, s: Poly)
    ensures Add(Add(p, s), s) == p
  {
  }

  lemma AddSwapMiddle(a: Poly, b: Poly, c: Poly, d: Poly)
    ensures Add(Add(a, b), Add(c, d)) == Add(Add(a, c), Add(b, d))
  {
  }

  lemma AddBelow(p: Poly, q: Poly, k: nat)
    requires Below(p, k) && Below(q, k)
    ensures Below(Add(p, q), k)
  {
  }

  lemma ShiftAdd(p: Poly, q: Poly, k: nat)
    ensures Shift(Add(p, q), k) == Add(Shift(p, k), Shift(q, k))
  {
  }

  lemma ShiftShift(p: Poly, a: nat, b: nat)
    ensures Shift(Shift(p, a), b) == Shift(p, a + b)
  {
  }

  lemma ShiftZero(p: Poly)
    ensures Shift(p, 0) == p
  {
  }

  lemma ShiftEmpty(k: nat)
    ensures Shift({}, k) == {}
  {
  }

  // ---------------------------------------------------------------------
  // The truncated product MulUpTo

  /** Only the terms of p below k matter to MulUpTo(p, q, k). */
  lemma {:induction false} MulUpToRestrict(p: Poly, q: Poly, k: nat, j: nat)
    requires j <= k
    ensures MulUpTo(p, q, j) == MulUpTo(Restrict(p, k), q, j)
  {
    if j > 0 {
      MulUpToRestrict(p, q, k, j - 1);
    }
  }

  /** Past the largest exponent of p, MulUpTo no longer changes. */
  lemma {:induction false} MulUpToStable(p: Poly, q: Poly, k: nat, j: nat)
    requires Below(p, k) && k <= j
    ensures MulUpTo(p, q, j) == MulUpTo(p, q, k)
  {
    if j > k {
      MulUpToStable(p, q, k, j - 1);
      AddZero(MulUpTo(p, q, j - 1));
    }
  }

  /** Any bound of p computes the product. */
  lemma MulIsMulUpTo(p: Poly, q: Poly, k: nat)
    requires Below(p, k)
    ensures Mul(p, q) == MulUpTo(p, q, k)
  {
    var b := Bound(p);
    if b <= k {
      MulUpToStable(p, q, b, k);
    } else {
      MulUpToStable(p, q, k, b);
    }
  }

  lemma {:induction false} MulUpToAddLeft(p1: Poly, p2: Poly, q: Poly, k: nat)
    ensures MulUpTo(Add(p1, p2), q, k) == Add(MulUpTo(p1, q, k), MulUpTo(p2, q, k))
  {
    if k > 0 {
      MulUpToAddLeft(p1, p2, q, k - 1);
      var t1 := if k - 1 in p1 then Shift(q, k - 1) else {};
      var t2 := if k - 1 in p2 then Shift(q, k - 1) else {};
      AddSwapMiddle(MulUpTo(p1, q, k - 1), MulUpTo(p2, q, k - 1), t1, t2);
    }
  }

  lemma {:induction false} MulUpToAddRight(p: Poly, q1: Poly, q2: Poly, k: nat)
    ensures MulUpTo(p, Add(q1, q2), k) == Add(MulUpTo(p, q1, k), MulUpTo(p, q2, k))
  {
    if k > 0 {
      MulUpToAddRight(p, q1, q2, k - 1);
      if k - 1 in p {
        ShiftAdd(q1, q2, k - 1);
        AddSwapMiddle(MulUpTo(p, q1, k - 1), MulUpTo(p, q2, k - 1), Shift(q1, k - 1), Shift(q2, k - 1));
      }
    }
  }

  // ---------------------------------------------------------------------
  // Ring laws of Mul

  /** Multiplication distributes over addition, on the left operand. */
  lemma MulAddLeft(p1: Poly, p2: Poly, q: Poly)
    ensures Mul(Add(p1, p2), q) == Add(Mul(p1, q), Mul(p2, q))
  {
    var k := Bound(p1) + Bound(p2);
    MulIsMulUpTo(p1, q, k);
    MulIsMulUpTo(p2, q, k);
    AddBelow(p1, p2, k);
    MulIsMulUpTo(Add(p1, p2), q, k);
    MulUpToAddLeft(p1, p2, q, k);
  }

  /** Multiplication distributes over addition, on the right operand. */
  lemma MulAddRight(p: Poly, q1: Poly, q2: Poly)
    ensures Mul(p, Add(q1, q2)) == Add(Mul(p, q1), Mul(p, q2))
  {
    MulUpToAddRight(p, q1, q2, Bound(p));
  }

  lemma MulZeroLeft(q: Poly)
    ensures Mul({}, q) == {}
  {
    MulIsMulUpTo({}, q, 0);
  }

  lemma {:induction false} MulUpToZeroRight(p: Poly, k: nat)
    ensures MulUpTo(p, {}, k) == {}
  {
    if k > 0 {
      MulUpToZeroRight(p, k - 1);
      ShiftEmpty(k - 1);
    }
  }

  lemma MulZeroRight(p: Poly)
    ensures Mul(p, {}) == {}
  {
    MulUpToZeroRight(p, Bound(p));
  }

  lemma {:induction false} MulUpToSingletonBelow(i: nat, q: Poly, k: nat)
    requires k <= i
    ensures MulUpTo({i}, q, k) == {}
  {
    if k > 0 {
      MulUpToSingletonBelow(i, q, k - 1);
    }
  }

  /** x^i · q is q shifted by i. */
  lemma MulSingletonLeft(i: nat, q: Poly)
    ensures Mul({i}, q) == Shift(q, i)
  {
    MulIsMulUpTo({i}, q, i + 1);
    MulUpToSingletonBelow(i, q, i);
  }

  lemma {:induction false} MulUpToSingletonRight(p: Poly, c: nat, k: nat)
    ensures MulUpTo(p, {c}, k) == Shift(Restrict(p, k), c)
  {
    if k > 0 {
      MulUpToSingletonRight(p, c, k - 1);
    }
  }

  /** p · x^c is p shifted by c. */
  lemma MulSingletonRight(p: Poly, c: nat)
    ensures Mul(p, {c}) == Shift(p, c)
  {
    MulUpToSingletonRight(p, c, Bound(p));
    assert Restrict(p, Bound(p)) == p;
  }

  /** Splitting off the top candidate term of p. */
  lemma RestrictStep(p: Poly, k: nat)
    ensures Restrict(p, k + 1) == Add(Restrict(p, k), if k in p then {k} else {})
  {
  }

  lemma {:induction false} MulCommBelow(p: Poly, q: Poly, k: nat)
    requires Below(p, k)
    ensures Mul(p, q) == Mul(q, p)
  {
    if k == 0 {
      assert p == {};
      MulZeroLeft(q);
      MulZeroRight(q);
    } else {
      var r := Restrict(p, k - 1);
      var t: Poly := if k - 1 in p then {k - 1} else {};
      RestrictStep(p, k - 1);
      assert Restrict(p, k) == p;
      assert p == Add(r, t);
      MulCommBelow(r, q, k - 1);
      MulAddLeft(r, t, q);
      MulAddRight(q, r, t);
      if k - 1 in p {
        MulSingletonLeft(k - 1, q);
        MulSingletonRight(q, k - 1);
      } else {
        MulZeroLeft(q);
        MulZeroRight(q);
      }
    }
  }

  /** Multiplication is commutative. */
  lemma MulComm(p: Poly, q: Poly)
    ensures Mul(p, q) == Mul(q, p)
  {
    MulCommBelow(p, q, Bound(p));
  }

  lemma {:induction false} MulUpToShiftLeft(p: Poly, r: Poly, m: nat, k: nat)
    ensures MulUpTo(Shift(p, m), r, k + m) == Shift(MulUpTo(p, r, k), m)
  {
    if k == 0 {
      MulUpToShiftedBelow(p, r, m);
    } else {
      MulUpToShiftLeft(p, r, m, k - 1);
      MulUpToShiftStep(p, r, m, k - 1);
    }
  }

  /** Below x^m a shifted polynomial has no term. */
  lemma MulUpToShiftedBelow(p: Poly, r: Poly, m: nat)
    ensures MulUpTo(Shift(p, m), r, m) == {}
  {
    assert Restrict(Shift(p, m), m) == {};
    MulUpToRestrict(Shift(p, m), r, m, m);
    MulUpToZeroLeftUpTo(r, m);
  }

  lemma MulUpToShiftStep(p: Poly, r: Poly, m: nat, k: nat)
    requires MulUpTo(Shift(p, m), r, k + m) == Shift(MulUpTo(p, r, k), m)
    ensures MulUpTo(Shift(p, m), r, k + 1 + m) == Shift(MulUpTo(p, r, k + 1), m)
  {
    var t := if k in p then Shift(r, k) else {};
    var t' := if k + m in Shift(p, m) then Shift(r, k + m) else {};
    calc {
      MulUpTo(Shift(p, m), r, k + 1 + m);
      Add(MulUpTo(Shift(p, m), r, k + m), t');
      { ShiftTerm(p, r, m, k); }
      Add(Shift(MulUpTo(p, r, k), m), Shift(t, m));
      { ShiftAdd(MulUpTo(p, r, k), t, m); }
      Shift(MulUpTo(p, r, k + 1), m);
    }
  }

  lemma ShiftTerm(p: Poly, r: Poly, m: nat, k: nat)
    ensures Shift(if k in p then Shift(r, k) else {}, m)
         == if k + m in Shift(p, m) then Shift(r, k + m) else {}
  {
    if k in p {
      ShiftShift(r, k, m);
    } else {
      ShiftEmpty(m);
    }
  }

  lemma {:induction false} MulUpToZeroLeftUpTo(r: Poly, k: nat)
    ensures MulUpTo({}, r, k) == {}
  {
    if k > 0 {
      MulUpToZeroLeftUpTo(r, k - 1);
    }
  }

  /** Multiplying a shifted polynomial shifts the product. */
  lemma MulShiftLeft(p: Poly, r: Poly, m: nat)
    ensures Mul(Shift(p, m), r) == Shift(Mul(p, r), m)
  {
    var k := Bound(p);
    MulUpToShiftLeft(p, r, m, k);
    assert Below(Shift(p, m), k + m);
    MulIsMulUpTo(Shift(p, m), r, k + m);
  }

  lemma {:induction false} MulAssocBelow(p: Poly, q: Poly, r: Poly, k: nat)
    requires Below(p, k)
    ensures Mul(Mul(p, q), r) == Mul(p, Mul(q, r))
  {
    if k == 0 {
      assert p == {};
      MulZeroLeft(q);
      MulZeroLeft(r);
      MulZeroLeft(Mul(q, r));
    } else {
      var rest := Restrict(p, k - 1);
      var t: Poly := if k - 1 in p then {k - 1} else {};
      RestrictStep(p, k - 1);
      assert Restrict(p, k) == p;
      assert p == Add(rest, t);
      MulAssocBelow(rest, q, r, k - 1);
      MulAddLeft(rest, t, q);
      MulAddLeft(Mul(rest, q), Mul(t, q), r);
      MulAddLeft(rest, t, Mul(q, r));
      MulAssocTerm(t, k - 1, q, r);
    }
  }

  /** Associativity with a single term, or none, on the left. */
  lemma MulAssocTerm(t: Poly, e: nat, q: Poly, r: Poly)
    requires t == {e} || t == {}
    ensures Mul(Mul(t, q), r) == Mul(t, Mul(q, r))
  {
    if t == {e} {
      MulSingletonLeft(e, q);
      MulSingletonLeft(e, Mul(q, r));
      MulShiftLeft(q, r, e);
    } else {
      MulZeroLeft(q);
      MulZeroLeft(r);
      MulZeroLeft(Mul(q, r));
    }
  }

  /** Multiplication is associative. */
  lemma MulAssoc(p: Poly, q: Poly, r: Poly)
    ensures Mul(Mul(p, q), r) == Mul(p, Mul(q, r))
  {
    MulAssocBelow(p, q, r, Bound(p));
  }

  lemma MulOneLeft(q: Poly)
    ensures Mul({0}, q) == q
  {
    MulSingletonLeft(0, q);
    ShiftZero(q);
  }

  // ---------------------------------------------------------------------
  // Degree

  /** The largest exponent of a nonzero polynomial. */
  ghost function Max(p: Poly): (m: nat)
    requires p != {}
    ensures m in p && forall n :: n in p ==> n <= m
  {
    MaxExists(p);
    var m :| m in p && forall n :: n in p ==> n <= m;
    m
  }

  lemma {:induction false} MaxExists(p: Poly)
    requires p != {}
    ensures exists m :: m in p && forall n :: n in p ==> n <= m
    decreases |p|
  {
    var x :| x in p;
    assert forall n :: n in p ==> n == x || n in p - {x};
    if p - {x} == {} {
      assert forall n :: n in p ==> n <= x;
    } else {
      MaxExists(p - {x});
      var m :| m in p - {x} && forall n :: n in p - {x} ==> n <= m;
      if x <= m {
        assert m in p && forall n :: n in p ==> n <= m;
      } else {
        assert forall n :: n in p ==> n <= x;
      }
    }
  }

  /** The degree, with the zero polynomial given degree 0 like the constant 1. */
  ghost function Degree(p: Poly): nat
  {
    if p == {} then 0 else Max(p)
  }

  /** The degree is below k > 0 exactly when every exponent is. */
  lemma DegreeBelow(p: Poly, k: nat)
    requires k > 0
    ensures Degree(p) < k <==> Below(p, k)
  {
  }
}
