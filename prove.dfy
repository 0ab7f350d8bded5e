/** `Prove`: assembles a Groth16 proof from a solved constraint system and a
    proving key.

    G1 and G2 are groups of prime order P, so each is cyclic and isomorphic to
    the additive group of the field: a point is represented by its discrete
    logarithm with respect to a fixed generator. Under that representation
    adding points is `Add`, multiplying a point by a scalar is `Mul`, and a
    multi-exponentiation is the weighted sum `Σ scalar_i · point_i`. */
module Groth16 {
  import opened Field
  import opened Quotient

  /** A group element of G1 or G2, by its discrete logarithm. */
  type Point = Fe

  datatype G1Key = G1Key(alpha: Point, beta: Point, delta: Point,
                         a: seq<Point>, b: seq<Point>, z: seq<Point>, k: seq<Point>)

  datatype G2Key = G2Key(beta: Point, delta: Point, b: seq<Point>)

  datatype ProvingKey = ProvingKey(g1: G1Key, g2: G2Key)

  datatype R1CS = R1CS(nbWires: nat, nbPublicWires: nat, nbConstraints: nat)

  /** What `Solve` fills in: the constraint evaluations and the wire values. */
  datatype Solution = Solution(a: seq<Fe>, b: seq<Fe>, c: seq<Fe>, wireValues: seq<Fe>)

  /** The error `Solve` reports; `Prove` hands it back unchanged. */
  datatype SolveError = SolveError(reason: string)

  datatype Result<T> = Success(value: T) | Failure(error: SolveError)

  datatype Proof = Proof(ar: Point, krs: Point, bs: Point)

  // ---------------------------------------------------------------------
  // Group operations

  function ScalarMul(k: Fe, p: Point): Point { Mul(k, p) }

  /** `MultiExp(points, scalars)`: the weighted sum of the points. */
  function MultiExp(points: seq<Point>, scalars: seq<Fe>): Point
    requires |points| == |scalars|
    decreases |points|
  {
    if |points| == 0 then 0
    else Add(ScalarMul(scalars[0], points[0]), MultiExp(points[1..], scalars[1..]))
  }

  /** `BatchScalarMultiplicationG1(base, scalars)`: one point, many scalars. */
  function BatchScalarMul(base: Point, scalars: seq<Fe>): (r: seq<Point>)
    ensures |r| == |scalars|
    ensures forall i :: 0 <= i < |scalars| ==> r[i] == ScalarMul(scalars[i], base)
  {
    seq(|scalars|, i requires 0 <= i < |scalars| => ScalarMul(scalars[i], base))
  }

  /** A weighted sum splits at any index into the sum of its two parts. */
  lemma {:induction false} MultiExpSplit(points: seq<Point>, scalars: seq<Fe>, k: nat)
    requires |points| == |scalars| && k <= |points|
    ensures MultiExp(points, scalars)
         == Add(MultiExp(points[..k], scalars[..k]), MultiExp(points[k..], scalars[k..]))
    decreases k
  {
    if k == 0 {
      assert points[..0] == [] && scalars[..0] == [];
      assert points[0..] == points && scalars[0..] == scalars;
      AddZeroLeft(MultiExp(points, scalars));
    } else {
      var p1, s1 := points[1..], scalars[1..];
      MultiExpSplit(p1, s1, k - 1);
      var t0 := ScalarMul(scalars[0], points[0]);
      var head := MultiExp(p1[..k - 1], s1[..k - 1]);
      var tail := MultiExp(points[k..], scalars[k..]);
      assert MultiExp(points[..k], scalars[..k]) == Add(t0, head) by {
        assert points[..k][1..] == p1[..k - 1] && scalars[..k][1..] == s1[..k - 1];
      }
      assert MultiExp(points, scalars) == Add(t0, Add(head, tail)) by {
        assert p1[k - 1..] == points[k..] && s1[k - 1..] == scalars[k..];
      }
      AddAssoc(t0, head, tail);
    }
  }

  /** The split law on the suffix starting at `i`, cut at `j`. */
  lemma MultiExpSplitRange(points: seq<Point>, scalars: seq<Fe>, i: nat, j: nat)
    requires |points| == |scalars| && i <= j <= |points|
    ensures MultiExp(points[i..], scalars[i..])
         == Add(MultiExp(points[i..j], scalars[i..j]), MultiExp(points[j..], scalars[j..]))
  {
    MultiExpSplit(points[i..], scalars[i..], j - i);
    assert points[i..][..j - i] == points[i..j] && scalars[i..][..j - i] == scalars[i..j];
    assert points[i..][j - i..] == points[j..] && scalars[i..][j - i..] == scalars[j..];
  }

  /** Summing the four ranges `[0, nn)`, `[nn, 2nn)`, `[2nn, 3nn)` and
      `[3nn, len)`, starting from the last one, gives the whole weighted sum. */
  lemma MultiExpFourWay(points: seq<Point>, scalars: seq<Fe>, nn: nat)
    requires |points| == |scalars| && 3 * nn <= |points|
    ensures MultiExp(points, scalars)
         == Add(Add(Add(MultiExp(points[nn * 3..], scalars[nn * 3..]),
                        MultiExp(points[..nn], scalars[..nn])),
                    MultiExp(points[nn..nn * 2], scalars[nn..nn * 2])),
                MultiExp(points[nn * 2..nn * 3], scalars[nn * 2..nn * 3]))
  {
    var bs1 := MultiExp(points[..nn], scalars[..nn]);
    var bs2 := MultiExp(points[nn..nn * 2], scalars[nn..nn * 2]);
    var bs3 := MultiExp(points[nn * 2..nn * 3], scalars[nn * 2..nn * 3]);
    var last := MultiExp(points[nn * 3..], scalars[nn * 3..]);
    MultiExpSplit(points, scalars, nn);
    MultiExpSplitRange(points, scalars, nn, nn * 2);
    MultiExpSplitRange(points, scalars, nn * 2, nn * 3);
    assert MultiExp(points, scalars) == Add(bs1, Add(bs2, Add(bs3, last)));
    AddRotate(last, bs1, bs2, bs3);
  }

  /** The G2 multi-exponentiation for `Bs`. With `nn = len(points) / 4`, when
      `nn > 10` it sums the four ranges `[0, nn)`, `[nn, 2nn)`, `[2nn, 3nn)`
      and `[3nn, len)`, and otherwise runs one multi-exponentiation; both give
      the weighted sum over all points. */
  method MultiExpG2(points: seq<Point>, scalars: seq<Fe>) returns (bs: Point)
    requires |points| == |scalars|
    ensures bs == MultiExp(points, scalars)
  {
    var nn := |points| / 4;
    if nn > 10 {
      var bs1 := MultiExp(points[..nn], scalars[..nn]);
      var bs2 := MultiExp(points[nn..nn * 2], scalars[nn..nn * 2]);
      var bs3 := MultiExp(points[nn * 2..nn * 3], scalars[nn * 2..nn * 3]);
      bs := MultiExp(points[nn * 3..], scalars[nn * 3..]);
      bs := Add(bs, bs1);
      bs := Add(bs, bs2);
      bs := Add(bs, bs3);
      MultiExpFourWay(points, scalars, nn);
    } else {
      bs := MultiExp(points, scalars);
    }
  }

  // ---------------------------------------------------------------------
  // Scalars

  /** `kr = -(r·s)`: the additive inverse of `r·s`, and the only one. */
  function Kr(r: Fe, s: Fe): (kr: Fe)
    ensures Add(kr, Mul(r, s)) == 0
    ensures forall y: Fe :: Add(y, Mul(r, s)) == 0 ==> y == kr
  {
    NegIsInverse(Mul(r, s));
    Neg(Mul(r, s))
  }

  // ---------------------------------------------------------------------
  // The proof

  /** The shapes the proving key and the solved system have for one
      constraint system and domain: one key point per wire for `A` and both
      `B`, one `Z` point per domain point, a `K` point for every private wire,
      and what `Solve` returns (one evaluation per constraint, one value per
      wire). */
  predicate WellShaped(cs: R1CS, pk: ProvingKey, sol: Solution, d: Domain)
  {
    cs.nbPublicWires <= cs.nbWires &&
    |pk.g1.a| == cs.nbWires && |pk.g1.b| == cs.nbWires && |pk.g2.b| == cs.nbWires &&
    |pk.g1.z| == d.cardinality && |pk.g1.k| >= cs.nbWires - cs.nbPublicWires &&
    |sol.a| == cs.nbConstraints && |sol.b| == cs.nbConstraints &&
    |sol.c| == cs.nbConstraints && |sol.wireValues| == cs.nbWires
  }

  /** The key's key-dependent part of `Ar`, before blinding: `α + Σ w_i·A_i`. */
  function UnblindedA(pk: ProvingKey, w: seq<Fe>): Point
    requires |pk.g1.a| == |w|
  {
    Add(pk.g1.alpha, MultiExp(pk.g1.a, w))
  }

  /** The G1 counterpart of `Bs` before blinding: `β + Σ w_i·B_i`. */
  function UnblindedB(pk: ProvingKey, w: seq<Fe>): Point
    requires |pk.g1.b| == |w|
  {
    Add(pk.g1.beta, MultiExp(pk.g1.b, w))
  }

  /** The part of `Krs` that does not depend on `r` and `s`:
      `Σ_private w_i·K_i + Σ h_i·Z_i`. */
  function UnblindedC(pk: ProvingKey, w: seq<Fe>, h: seq<Fe>, nbPrivateWires: nat): Point
    requires |pk.g1.z| == |h| && nbPrivateWires <= |w| && nbPrivateWires <= |pk.g1.k|
  {
    Add(MultiExp(pk.g1.k[..nbPrivateWires], w[..nbPrivateWires]), MultiExp(pk.g1.z, h))
  }

  /** The Groth16 proof in its textbook form, with `A0`, `B0` and `C0` as
      above: `Ar = A0 + r·δ`, `Bs = β₂ + Σ w_i·B₂_i + s·δ₂` and
      `Krs = C0 + s·A0 + r·B0 + r·s·δ`. */
  function Groth16Proof(pk: ProvingKey, w: seq<Fe>, h: seq<Fe>, nbPrivateWires: nat, r: Fe, s: Fe): Proof
    requires |pk.g1.a| == |w| && |pk.g1.b| == |w| && |pk.g2.b| == |w| && |pk.g1.z| == |h|
    requires nbPrivateWires <= |w| && nbPrivateWires <= |pk.g1.k|
  {
    var a0 := UnblindedA(pk, w);
    var b0 := UnblindedB(pk, w);
    var c0 := UnblindedC(pk, w, h, nbPrivateWires);
    Proof(
      Add(a0, Mul(r, pk.g1.delta)),
      Add(Add(Add(c0, Mul(s, a0)), Mul(r, b0)), Mul(Mul(r, s), pk.g1.delta)),
      Add(Add(pk.g2.beta, MultiExp(pk.g2.b, w)), Mul(s, pk.g2.delta)))
  }

  /** The blinding as `Prove` combines it (`C0 + kr·δ + s·Ar + r·Bs1`, with
      `Ar = A0 + r·δ`, `Bs1 = B0 + s·δ`, `kr = -(r·s)`) equals the textbook
      `C0 + s·A0 + r·B0 + r·s·δ`: the `kr` term cancels one of the two
      `r·s·δ` terms that the blinded `Ar` and `Bs1` bring in. */
  lemma BlindingExpands(c0: Point, a0: Point, b0: Point, delta: Point, r: Fe, s: Fe)
    ensures Add(Add(Add(c0, Mul(Kr(r, s), delta)), Mul(s, Add(a0, Mul(r, delta)))),
                Mul(r, Add(b0, Mul(s, delta))))
         == Add(Add(Add(c0, Mul(s, a0)), Mul(r, b0)), Mul(Mul(r, s), delta))
  {
    var x := Mul(Mul(r, s), delta);
    var sa, rb := Mul(s, a0), Mul(r, b0);
    MulNegLeft(Mul(r, s), delta);
    assert Mul(Kr(r, s), delta) == Neg(x);
    MulAddDistr(s, a0, Mul(r, delta));
    MulAssoc(s, r, delta);
    assert Mul(s, r) == Mul(r, s);
    assert Mul(s, Add(a0, Mul(r, delta))) == Add(sa, x);
    MulAddDistr(r, b0, Mul(s, delta));
    MulAssoc(r, s, delta);
    assert Mul(r, Add(b0, Mul(s, delta))) == Add(rb, x);
    CancelNeg(c0, sa, rb, x);
  }

  // ---------------------------------------------------------------------
  // The tasks of `Prove`, one method each, run one after another

  /** The `Ar` task: `Σ w_i·A_i + α + deltas[0]`. */
  method ArTask(pk: ProvingKey, wireValues: seq<Fe>, delta0: Point) returns (ar: Point)
    requires |pk.g1.a| == |wireValues|
    ensures ar == Add(UnblindedA(pk, wireValues), delta0)
  {
    ar := MultiExp(pk.g1.a, wireValues);
    ar := Add(ar, pk.g1.alpha);
    ar := Add(ar, delta0);
  }

  /** The `Bs1` task: `Σ w_i·B_i + β + deltas[1]`, in G1. */
  method Bs1Task(pk: ProvingKey, wireValues: seq<Fe>, delta1: Point) returns (bs1: Point)
    requires |pk.g1.b| == |wireValues|
    ensures bs1 == Add(UnblindedB(pk, wireValues), delta1)
  {
    bs1 := MultiExp(pk.g1.b, wireValues);
    bs1 := Add(bs1, pk.g1.beta);
    bs1 := Add(bs1, delta1);
  }

  /** The `Bs` task in G2: the (possibly split) multi-exponentiation, plus
      `s·δ₂`, plus `β₂`. */
  method BsTask(pk: ProvingKey, wireValues: seq<Fe>, s: Fe) returns (bs: Point)
    requires |pk.g2.b| == |wireValues|
    ensures bs == Add(Add(pk.g2.beta, MultiExp(pk.g2.b, wireValues)), Mul(s, pk.g2.delta))
  {
    bs := MultiExpG2(pk.g2.b, wireValues);
    var deltaS := ScalarMul(s, pk.g2.delta);
    bs := Add(bs, deltaS);
    bs := Add(bs, pk.g2.beta);
    AddAssoc(pk.g2.beta, MultiExp(pk.g2.b, wireValues), deltaS);
  }

  /** The `Krs` task: `Σ h_i·Z_i + Σ_private w_i·K_i + deltas[2]`, then
      `s·Ar` once `Ar` is done and `r·Bs1` once `Bs1` is done. Given the
      blinded `Ar = A0 + r·δ`, `Bs1 = B0 + s·δ` and `deltas[2] = kr·δ` the
      other tasks hand it, the `kr` term cancels one of the two `r·s·δ` terms
      they bring in, and `Krs` is the textbook `C0 + s·A0 + r·B0 + r·s·δ`.
      `a0` and `b0` name the unblinded `A0` and `B0`. */
  method KrsTask(pk: ProvingKey, wireValues: seq<Fe>, h: seq<Fe>, nbPrivateWires: nat,
                 delta2: Point, ar: Point, bs1: Point, r: Fe, s: Fe, ghost a0: Point, ghost b0: Point)
    returns (krs: Point)
    requires |pk.g1.z| == |h| && nbPrivateWires <= |wireValues| && nbPrivateWires <= |pk.g1.k|
    requires ar == Add(a0, Mul(r, pk.g1.delta))
    requires bs1 == Add(b0, Mul(s, pk.g1.delta))
    requires delta2 == Mul(Kr(r, s), pk.g1.delta)
    ensures krs == Add(Add(Add(UnblindedC(pk, wireValues, h, nbPrivateWires), Mul(s, a0)),
                           Mul(r, b0)),
                       Mul(Mul(r, s), pk.g1.delta))
  {
    var krs2 := MultiExp(pk.g1.k[..nbPrivateWires], wireValues[..nbPrivateWires]);
    krs := MultiExp(pk.g1.z, h);
    krs := Add(krs, krs2);
    krs := Add(krs, delta2);
    krs := Add(krs, ScalarMul(s, ar));
    krs := Add(krs, ScalarMul(r, bs1));
    assert krs == Add(Add(Add(UnblindedC(pk, wireValues, h, nbPrivateWires), delta2),
                          Mul(s, ar)), Mul(r, bs1));
    BlindingExpands(UnblindedC(pk, wireValues, h, nbPrivateWires), a0, b0, pk.g1.delta, r, s);
  }

  /** `Prove`: a failed `Solve` is reported as it is; otherwise the result is
      the Groth16 proof for the wire values and `H = computeH(a, b, c)`,
      blinded by `r` and `s`. `solved` is the outcome of `Solve`, `r` and `s`
      the sampled randomizers, `d` the domain `NewDomain` builds (at least as
      large as the constraint count), `fft` the transform primitive. */
  method Prove(cs: R1CS, pk: ProvingKey, solved: Result<Solution>, d: Domain,
               r: Fe, s: Fe, numCPU: nat, fft: Fft)
    returns (res: Result<Proof>)
    requires InPlace(fft)
    requires cs.nbConstraints <= d.cardinality && d.cardinality >= 2 && numCPU >= 1
    requires solved.Success? ==> WellShaped(cs, pk, solved.value, d)
    ensures solved.Failure? ==> res == Failure(solved.error)
    ensures solved.Success? ==>
      var sol := solved.value;
      res == Success(Groth16Proof(pk, sol.wireValues, QuotientOf(sol.a, sol.b, sol.c, d, fft),
                                  cs.nbWires - cs.nbPublicWires, r, s))
  {
    var nbPrivateWires := cs.nbWires - cs.nbPublicWires;
    var kr := Kr(r, s);
    if solved.Failure? {
      return Failure(solved.error);
    }
    var sol := solved.value;
    var wireValues := sol.wireValues;

    var h := ComputeH(sol.a, sol.b, sol.c, d, numCPU, fft);
    var deltas := BatchScalarMul(pk.g1.delta, [r, s, kr]);
    var ar := ArTask(pk, wireValues, deltas[0]);
    var bs1 := Bs1Task(pk, wireValues, deltas[1]);
    var bs := BsTask(pk, wireValues, s);
    var krs := KrsTask(pk, wireValues, h, nbPrivateWires, deltas[2], ar, bs1, r, s,
                       UnblindedA(pk, wireValues), UnblindedB(pk, wireValues));
    res := Success(Proof(ar, krs, bs));
  }
}
