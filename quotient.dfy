/** `computeH`: the quotient polynomial `H` with `H·Z = A·B - C`, computed by
    an inverse transform, a coset shift and a forward transform of `a`, `b`
    and `c`, a pointwise combine that divides by `Z` on the coset (where it is
    the constant `-2`), and an inverse coset transform. The transform itself
    is an external primitive and enters as the parameter `fft`. */
module Quotient {
  import opened Field
  import opened ExpTable

  /** The evaluation domain: its size (a power of two), the inverse of the
      size, a primitive root of unity and square roots used for the coset. */
  datatype Domain = Domain(
    cardinality: nat,
    cardinalityInv: Fe,
    generator: Fe,
    generatorInv: Fe,
    generatorSqRt: Fe,
    generatorSqRtInv: Fe)

  /** The transform primitive `FFT(s, w)`, taken as an uninterpreted function
      of the vector and the root of unity. */
  type Fft = (seq<Fe>, Fe) -> seq<Fe>

  /** The transform works in place, so it keeps the length of its vector. */
  ghost predicate InPlace(fft: Fft)
  {
    forall v, w :: |fft(v, w)| == |v|
  }

  // ---------------------------------------------------------------------
  // Specification of the passes

  /** `append(v, make(cardinality - len(v))...)`: the vector padded with zeros
      up to the domain size; it exists only when the vector is not longer
      than the domain, since a negative length makes `make` panic. */
  function Padded(v: seq<Fe>, cardinality: nat): (r: seq<Fe>)
    requires |v| <= cardinality
    ensures |r| == cardinality
    ensures r[..|v|] == v
    ensures forall i :: |v| <= i < cardinality ==> r[i] == 0
  {
    v + seq(cardinality - |v|, _ => 0)
  }

  /** The table `scale · w^i` for `i < n`. */
  function ExpTableOf(scale: Fe, w: Fe, n: nat): seq<Fe>
  {
    seq(n, i requires 0 <= i < n => ScaledPower(scale, w, i))
  }

  function PointwiseMul(s: seq<Fe>, t: seq<Fe>): seq<Fe>
    requires |s| == |t|
  {
    seq(|s|, i requires 0 <= i < |s| => Mul(s[i], t[i]))
  }

  /** Every entry multiplied by the same element. */
  function ScaleBy(s: seq<Fe>, k: Fe): seq<Fe>
  {
    seq(|s|, i requires 0 <= i < |s| => Mul(s[i], k))
  }

  /** The combine pass: `(a[i]·b[i] - c[i]) · minusTwoInv` at every index. */
  function Combine(a: seq<Fe>, b: seq<Fe>, c: seq<Fe>): seq<Fe>
    requires |a| == |b| == |c|
  {
    seq(|a|, i requires 0 <= i < |a| => Mul(Sub(Mul(a[i], b[i]), c[i]), MinusTwoInv))
  }

  /** One inverse transform, scaling by the table, and one forward transform:
      what `FFTa` does to each of `a`, `b` and `c`. */
  function CosetTransformOf(s: seq<Fe>, table: seq<Fe>, d: Domain, fft: Fft): seq<Fe>
    requires InPlace(fft) && |s| == |table|
  {
    fft(PointwiseMul(fft(s, d.generatorInv), table), d.generator)
  }

  /** The result of `computeH` on `a`, `b` and `c`. */
  function QuotientOf(a: seq<Fe>, b: seq<Fe>, c: seq<Fe>, d: Domain, fft: Fft): seq<Fe>
    requires InPlace(fft)
    requires |a| == |b| == |c| <= d.cardinality
  {
    var n := d.cardinality;
    var shift := ExpTableOf(d.cardinalityInv, d.generatorSqRt, n);
    var ca := CosetTransformOf(Padded(a, n), shift, d, fft);
    var cb := CosetTransformOf(Padded(b, n), shift, d, fft);
    var cc := CosetTransformOf(Padded(c, n), shift, d, fft);
    var unshift := ExpTableOf(d.cardinalityInv, d.generatorSqRtInv, n);
    PointwiseMul(fft(Combine(ca, cb, cc), d.generatorInv), unshift)
  }

  // ---------------------------------------------------------------------
  // What the passes mean

  /** A table whose slot 0 holds `scale` and whose other slots hold
      `scale · w^i` is the whole table `scale · w^i`: slot 0 is `scale · w^0`.
      This is why `computeH` sets slot 0 once and lets both precomputations
      fill only `table[1:]`. */
  lemma ExpTableFromEntries(t: seq<Fe>, scale: Fe, w: Fe)
    requires |t| >= 1 && t[0] == scale
    requires forall i :: 1 <= i < |t| ==> t[i] == ScaledPower(scale, w, i)
    ensures t == ExpTableOf(scale, w, |t|)
  {
    MulOne(scale);
    assert ScaledPower(scale, w, 0) == scale;
  }

  /** The combine pass divides `a·b - c` by `Z`, which is `-2` on the coset:
      at every index its entry is the one element whose product with `-2`
      is `a[i]·b[i] - c[i]`. */
  lemma CombineDividesByZ(a: seq<Fe>, b: seq<Fe>, c: seq<Fe>, i: nat, x: Fe)
    requires |a| == |b| == |c| && i < |a|
    ensures Mul(x, Neg(2)) == Sub(Mul(a[i], b[i]), c[i]) <==> x == Combine(a, b, c)[i]
  {
    DivideByMinusTwo(x, Sub(Mul(a[i], b[i]), c[i]));
  }

  /** The fused table does two scalings in one pass: multiplying by
      `CardinalityInv · g^i` is the normalisation of the inverse transform
      (by `CardinalityInv`) followed by the coset shift (by `g^i`). */
  lemma FusedScaling(s: seq<Fe>, cardinalityInv: Fe, g: Fe)
    ensures PointwiseMul(s, ExpTableOf(cardinalityInv, g, |s|))
         == PointwiseMul(ScaleBy(s, cardinalityInv), ExpTableOf(1, g, |s|))
  {
    var shift := ExpTableOf(1, g, |s|);
    var fused := ExpTableOf(cardinalityInv, g, |s|);
    var scaled := ScaleBy(s, cardinalityInv);
    var lhs := PointwiseMul(s, fused);
    var rhs := PointwiseMul(scaled, shift);
    forall i | 0 <= i < |s|
      ensures lhs[i] == rhs[i]
    {
      var gi := Pow(g, i);
      assert shift[i] == gi by {
        assert shift[i] == Mul(1, gi);
      }
      assert fused[i] == Mul(cardinalityInv, gi);
      assert scaled[i] == Mul(s[i], cardinalityInv);
      assert lhs[i] == Mul(s[i], Mul(cardinalityInv, gi));
      assert rhs[i] == Mul(Mul(s[i], cardinalityInv), gi);
      MulAssoc(s[i], cardinalityInv, gi);
    }
    assert lhs == rhs;
  }

  /** What the coset transform with the fused shift table computes: the
      inverse transform, normalised by `CardinalityInv`, then shifted onto
      the coset by `g^i`, then transformed forward. */
  lemma CosetTransformNormalises(s: seq<Fe>, d: Domain, fft: Fft)
    requires InPlace(fft)
    ensures CosetTransformOf(s, ExpTableOf(d.cardinalityInv, d.generatorSqRt, |s|), d, fft)
         == fft(PointwiseMul(ScaleBy(fft(s, d.generatorInv), d.cardinalityInv),
                             ExpTableOf(1, d.generatorSqRt, |s|)), d.generator)
  {
    FusedScaling(fft(s, d.generatorInv), d.cardinalityInv, d.generatorSqRt);
  }

  // ---------------------------------------------------------------------
  // The passes, in place

  /** The transform applied to a buffer in place. */
  method FftInPlace(s: array<Fe>, w: Fe, fft: Fft)
    requires InPlace(fft)
    modifies s
    ensures s[..] == fft(old(s[..]), w)
  {
    var t := fft(s[..], w);
    forall i | 0 <= i < s.Length {
      s[i] := t[i];
    }
    assert s[..] == t;
  }

  /** `s[i].MulAssign(&table[i])` for every index: the scaling pass, and the
      final pass (whose conversion out of Montgomery form changes no value). */
  method MulByTable(s: array<Fe>, table: array<Fe>)
    requires s.Length == table.Length && s != table
    modifies s
    ensures s[..] == PointwiseMul(old(s[..]), table[..])
  {
    var i := 0;
    while i < s.Length
      invariant 0 <= i <= s.Length
      invariant forall k :: 0 <= k < i ==> s[k] == Mul(old(s[k]), table[k])
      invariant forall k :: i <= k < s.Length ==> s[k] == old(s[k])
    {
      s[i] := Mul(s[i], table[i]);
      i := i + 1;
    }
    assert s[..] == PointwiseMul(old(s[..]), table[..]);
  }

  /** The combine pass, reusing the storage of `a`; `b` and `c` are only
      read. */
  method CombineInPlace(a: array<Fe>, b: array<Fe>, c: array<Fe>)
    requires a.Length == b.Length == c.Length
    requires a != b && a != c
    modifies a
    ensures a[..] == Combine(old(a[..]), b[..], c[..])
  {
    var i := 0;
    while i < a.Length
      invariant 0 <= i <= a.Length
      invariant forall k :: 0 <= k < i ==> a[k] == Mul(Sub(Mul(old(a[k]), b[k]), c[k]), MinusTwoInv)
      invariant forall k :: i <= k < a.Length ==> a[k] == old(a[k])
    {
      a[i] := Mul(Sub(Mul(a[i], b[i]), c[i]), MinusTwoInv);
      i := i + 1;
    }
    assert a[..] == Combine(old(a[..]), b[..], c[..]);
  }

  /** `FFTa`: inverse transform, scaling by the table, forward transform. */
  method CosetTransform(s: array<Fe>, table: array<Fe>, d: Domain, fft: Fft)
    requires InPlace(fft)
    requires s.Length == table.Length && s != table
    modifies s
    ensures s[..] == CosetTransformOf(old(s[..]), table[..], d, fft)
  {
    FftInPlace(s, d.generatorInv, fft);
    MulByTable(s, table);
    FftInPlace(s, d.generator, fft);
  }

  /** A buffer holding the padded vector, as `append` leaves it. */
  method PadToDomain(v: seq<Fe>, cardinality: nat) returns (buf: array<Fe>)
    requires |v| <= cardinality
    ensures fresh(buf)
    ensures buf[..] == Padded(v, cardinality)
  {
    var p := Padded(v, cardinality);
    buf := new Fe[cardinality](i requires 0 <= i < cardinality => p[i]);
    assert buf[..] == p;
  }

  /** The three concurrent `FFTa` calls on the padded `a`, `b` and `c`, each
      with the shift table. */
  method CosetTransformAll(pa: array<Fe>, pb: array<Fe>, pc: array<Fe>, table: array<Fe>, d: Domain, fft: Fft)
    requires InPlace(fft)
    requires pa.Length == pb.Length == pc.Length == table.Length
    requires pa != pb && pa != pc && pb != pc
    requires pa != table && pb != table && pc != table
    modifies pa, pb, pc
    ensures pa[..] == CosetTransformOf(old(pa[..]), table[..], d, fft)
    ensures pb[..] == CosetTransformOf(old(pb[..]), table[..], d, fft)
    ensures pc[..] == CosetTransformOf(old(pc[..]), table[..], d, fft)
  {
    CosetTransform(pa, table, d, fft);
    CosetTransform(pb, table, d, fft);
    CosetTransform(pc, table, d, fft);
  }

  /** The inverse coset transform of the combined vector: inverse transform,
      then scaling by the unshift table, whose conversion out of Montgomery
      form changes no value. */
  method InverseCosetTransform(s: array<Fe>, table: array<Fe>, d: Domain, fft: Fft)
    requires InPlace(fft)
    requires s.Length == table.Length && s != table
    modifies s
    ensures s[..] == PointwiseMul(fft(old(s[..]), d.generatorInv), table[..])
  {
    FftInPlace(s, d.generatorInv, fft);
    MulByTable(s, table);
  }

  /** `computeH`: the vectors must have equal length, no longer than the
      domain, and the domain must have at least two points (the table
      precomputation writes the first slot of `table[1:]`). */
  method ComputeH(a: seq<Fe>, b: seq<Fe>, c: seq<Fe>, d: Domain, numCPU: nat, fft: Fft)
    returns (h: seq<Fe>)
    requires InPlace(fft)
    requires |a| == |b| == |c| <= d.cardinality
    requires d.cardinality >= 2 && numCPU >= 1
    ensures |h| == d.cardinality
    ensures h == QuotientOf(a, b, c, d, fft)
  {
    var n := d.cardinality;
    var pa := PadToDomain(a, n);
    var pb := PadToDomain(b, n);
    var pc := PadToDomain(c, n);

    var expTable := new Fe[n](_ => 0);
    expTable[0] := d.cardinalityInv;
    var _ := AsyncExpTable(d.cardinalityInv, d.generatorSqRt, expTable, numCPU);
    ExpTableFromEntries(expTable[..], d.cardinalityInv, d.generatorSqRt);

    CosetTransformAll(pa, pb, pc, expTable, d, fft);
    CombineInPlace(pa, pb, pc);

    var _ := AsyncExpTable(d.cardinalityInv, d.generatorSqRtInv, expTable, numCPU);
    ExpTableFromEntries(expTable[..], d.cardinalityInv, d.generatorSqRtInv);

    InverseCosetTransform(pa, expTable, d, fft);
    h := pa[..];
  }
}
