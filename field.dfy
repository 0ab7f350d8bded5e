/** Arithmetic of the BN256 scalar field fr, in canonical (non-Montgomery) form.
    The prover keeps elements in Montgomery form internally; the conversions
    `FromMont` and `ToBigInt` only change the representation, so the model
    works with the canonical value throughout. */
module Field {

  /** The order of the BN256 scalar field, which is also the order of the
      prime-order groups G1 and G2 the prover works in. Only the facts that it
      is odd and greater than 2 are used by the proofs. */
  const P: nat := 21888242871839275222246405745257275088548364400416034343698204186575808495617

  /** A field element. */
  type Fe = x: int | 0 <= x < P

  function Add(x: Fe, y: Fe): Fe { (x + y) % P }

  function Sub(x: Fe, y: Fe): Fe { (x - y) % P }

  /** Negation as the field implementation does it: zero stays zero. */
  function Neg(x: Fe): Fe { if x == 0 then 0 else P - x }

  function Mul(x: Fe, y: Fe): Fe { (x * y) % P }

  /** `w^k`, the value of `Exp(w, k)`; the exponent zero gives one. */
  function Pow(w: Fe, k: nat): Fe
  {
    if k == 0 then 1 else Mul(Pow(w, k - 1), w)
  }

  /** The value `init` stores in `minusTwoInv`: the inverse of `-2`. */
  const MinusTwoInv: Fe := (P - 1) / 2

  // ---------------------------------------------------------------------
  // Reduction modulo P

  lemma ModAddMultiple(k: int, y: int)
    ensures (k * P + y) % P == y % P
  {
    var q := y / P;
    assert y == q * P + y % P;
    assert k * P + y == (k + q) * P + y % P;
  }

  /** A value in `[0, P)` is the remainder of itself plus any multiple of `P`. */
  lemma ModUnique(k: int, r: int)
    requires 0 <= r < P
    ensures (k * P + r) % P == r
  {
    ModAddMultiple(k, r);
  }

  lemma ModMulLeft(a: int, c: int)
    ensures ((a % P) * c) % P == (a * c) % P
  {
    var q := a / P;
    var r := a % P;
    assert a == q * P + r;
    assert a * c == (q * c) * P + r * c by {
      assert a * c == (q * P + r) * c;
      assert (q * P + r) * c == (q * P) * c + r * c;
      assert (q * P) * c == (q * c) * P;
    }
    ModAddMultiple(q * c, r * c);
  }

  lemma ModMulRight(c: int, a: int)
    ensures (c * (a % P)) % P == (c * a) % P
  {
    calc {
      (c * (a % P)) % P;
      { assert c * (a % P) == (a % P) * c; }
      ((a % P) * c) % P;
      { ModMulLeft(a, c); }
      (a * c) % P;
      { assert a * c == c * a; }
      (c * a) % P;
    }
  }

  lemma ModAddBoth(a: int, b: int)
    ensures (a % P + b % P) % P == (a + b) % P
  {
    var qa, qb := a / P, b / P;
    assert a + b == (qa + qb) * P + (a % P + b % P);
    ModAddMultiple(qa + qb, a % P + b % P);
  }

  lemma ModMulAssoc(x: int, y: int, z: int)
    ensures (((x * y) % P) * z) % P == (x * ((y * z) % P)) % P
  {
    calc {
      (((x * y) % P) * z) % P;
      { ModMulLeft(x * y, z); }
      ((x * y) * z) % P;
      { assert (x * y) * z == x * (y * z); }
      (x * (y * z)) % P;
      { ModMulRight(x, y * z); }
      (x * ((y * z) % P)) % P;
    }
  }

  lemma ModDistribute(x: int, y: int, z: int)
    ensures (x * ((y + z) % P)) % P == ((x * y) % P + (x * z) % P) % P
  {
    calc {
      (x * ((y + z) % P)) % P;
      { ModMulRight(x, y + z); }
      (x * (y + z)) % P;
      { assert x * (y + z) == x * y + x * z; }
      (x * y + x * z) % P;
      { ModAddBoth(x * y, x * z); }
      ((x * y) % P + (x * z) % P) % P;
    }
  }

  /** `(P - x) · y` reduces to the negation of `x · y`. */
  lemma ModNegMul(x: int, y: int)
    requires 0 < x < P
    ensures ((P - x) * y) % P == if (x * y) % P == 0 then 0 else P - (x * y) % P
  {
    var xy := x * y;
    var q, r := xy / P, xy % P;
    assert xy == q * P + r;
    assert (P - x) * y == y * P - xy;
    if r == 0 {
      assert (P - x) * y == (y - q) * P + 0;
      ModUnique(y - q, 0);
    } else {
      assert (P - x) * y == (y - q - 1) * P + (P - r);
      ModUnique(y - q - 1, P - r);
    }
  }

  /** As `P` is odd, `(P - 1) / 2` times `P - 2` is one. */
  lemma ModHalfTimesMinusTwo()
    ensures (((P - 1) / 2) * (P - 2)) % P == 1
  {
    var h := (P - 1) / 2;
    assert P == 2 * h + 1;
    assert h * (P - 2) == (h - 1) * P + 1;
    ModUnique(h - 1, 1);
  }

  // ---------------------------------------------------------------------
  // Field laws used by the prover's correctness arguments

  /** Addition of two reduced elements subtracts `P` at most once. */
  lemma AddCases(x: Fe, y: Fe)
    ensures Add(x, y) == if x + y < P then x + y else x + y - P
  {
    if x + y < P {
      ModUnique(0, x + y);
    } else {
      ModUnique(1, x + y - P);
    }
  }

  lemma AddZeroLeft(x: Fe)
    ensures Add(0, x) == x
  {
  }

  lemma MulOne(x: Fe)
    ensures Mul(x, 1) == x
  {
  }

  /** `Neg(x)` is the additive inverse of `x`, and the only one. */
  lemma NegIsInverse(x: Fe)
    ensures Add(Neg(x), x) == 0
    ensures forall y: Fe :: Add(y, x) == 0 ==> y == Neg(x)
  {
    AddCases(Neg(x), x);
    forall y: Fe | Add(y, x) == 0
      ensures y == Neg(x)
    {
      AddCases(y, x);
    }
  }

  lemma AddAssoc(x: Fe, y: Fe, z: Fe)
    ensures Add(Add(x, y), z) == Add(x, Add(y, z))
  {
    AddCases(x, y);
    AddCases(Add(x, y), z);
    AddCases(y, z);
    AddCases(x, Add(y, z));
  }

  /** Moving the first of four summands to the end. */
  lemma AddRotate(x: Fe, a: Fe, b: Fe, c: Fe)
    ensures Add(Add(Add(x, a), b), c) == Add(a, Add(b, Add(c, x)))
  {
    calc {
      Add(Add(Add(x, a), b), c);
      { AddAssoc(x, a, b); }
      Add(Add(x, Add(a, b)), c);
      { AddAssoc(x, Add(a, b), c); }
      Add(Add(Add(a, b), c), x);
      { AddAssoc(a, b, c); }
      Add(Add(a, Add(b, c)), x);
      { AddAssoc(a, Add(b, c), x); }
      Add(a, Add(Add(b, c), x));
      { AddAssoc(b, c, x); }
      Add(a, Add(b, Add(c, x)));
    }
  }

  /** Adding `-x` and twice `x` among other summands adds `x` once. */
  lemma CancelNeg(c: Fe, a: Fe, b: Fe, x: Fe)
    ensures Add(Add(Add(c, Neg(x)), Add(a, x)), Add(b, x)) == Add(Add(Add(c, a), b), x)
  {
    var nx := Neg(x);
    NegIsInverse(x);
    calc {
      Add(nx, Add(a, x));
      { AddAssoc(nx, a, x); }
      Add(Add(a, nx), x);
      { AddAssoc(a, nx, x); }
      a;
    }
    calc {
      Add(Add(Add(c, nx), Add(a, x)), Add(b, x));
      { AddAssoc(c, nx, Add(a, x)); }
      Add(Add(c, a), Add(b, x));
      { AddAssoc(Add(c, a), b, x); }
      Add(Add(Add(c, a), b), x);
    }
  }

  lemma MulAssoc(x: Fe, y: Fe, z: Fe)
    ensures Mul(Mul(x, y), z) == Mul(x, Mul(y, z))
  {
    ModMulAssoc(x, y, z);
  }

  lemma MulAddDistr(x: Fe, y: Fe, z: Fe)
    ensures Mul(x, Add(y, z)) == Add(Mul(x, y), Mul(x, z))
  {
    calc {
      Mul(x, Add(y, z));
      (x * ((y + z) % P)) % P;
      { ModDistribute(x, y, z); }
      ((x * y) % P + (x * z) % P) % P;
      Add(Mul(x, y), Mul(x, z));
    }
  }

  lemma MulNegLeft(x: Fe, y: Fe)
    ensures Mul(Neg(x), y) == Neg(Mul(x, y))
  {
    if x != 0 {
      ModNegMul(x, y);
    }
  }

  /** `minusTwoInv` is the inverse of `-2`: multiplying it by `-2`, in either
      order, gives one, and it is the only element that does, so it is exactly
      what the inversion in `init` returns. */
  lemma MinusTwoInvIsInverse()
    ensures Mul(MinusTwoInv, Neg(2)) == 1
    ensures Mul(Neg(2), MinusTwoInv) == 1
    ensures forall y: Fe :: Mul(y, Neg(2)) == 1 ==> y == MinusTwoInv
  {
    assert Neg(2) == P - 2;
    ModHalfTimesMinusTwo();
    assert (P - 2) * MinusTwoInv == MinusTwoInv * (P - 2);
    forall y: Fe | Mul(y, Neg(2)) == 1
      ensures y == MinusTwoInv
    {
      MulAssoc(y, Neg(2), MinusTwoInv);
      MulOne(y);
      assert Mul(1, MinusTwoInv) == MinusTwoInv;
    }
  }

  /** Dividing by `-2`: an element times `-2` equals `v` exactly when it is
      `v · minusTwoInv`. */
  lemma DivideByMinusTwo(x: Fe, v: Fe)
    ensures Mul(x, Neg(2)) == v <==> x == Mul(v, MinusTwoInv)
  {
    if Mul(x, Neg(2)) == v {
      DivideByMinusTwoForward(x, v);
    }
    if x == Mul(v, MinusTwoInv) {
      DivideByMinusTwoBackward(x, v);
    }
  }

  lemma DivideByMinusTwoForward(x: Fe, v: Fe)
    requires Mul(x, Neg(2)) == v
    ensures x == Mul(v, MinusTwoInv)
  {
    MinusTwoInvIsInverse();
    MulAssoc(x, Neg(2), MinusTwoInv);
    MulOne(x);
  }

  lemma DivideByMinusTwoBackward(x: Fe, v: Fe)
    requires x == Mul(v, MinusTwoInv)
    ensures Mul(x, Neg(2)) == v
  {
    MinusTwoInvIsInverse();
    MulAssoc(v, MinusTwoInv, Neg(2));
    MulOne(v);
  }
}
