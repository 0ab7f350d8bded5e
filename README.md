# Groth16 prover over BN256: index and field arithmetic of `Prove`

This project models the sequential core of the Groth16 prover in
`backend/bn256/groth16/prove.go` and proves properties of that model:

- **Exponentiation tables** (`precomputeExpTableChunk`, `asyncExpTable`). A
  table holds `table[i] = scale · w^i`. It is filled either as one chunk or as
  contiguous chunks of width `interval = (n - 1) / NumCPU`. Each chunk is seeded
  by one exponentiation and extended by repeated multiplication. The table is
  split only when `interval >= 2400 / 26` (that is, 92). The model proves that
  both paths fill `table[1..n)` with `scale · w^i` and leave `table[0]` alone.
  It also proves that the chunks handed out partition `[1, n)`. The chunked
  fill is proved for every positive width, so the threshold never changes the
  table.
- **`computeH`**, apart from the transform itself. The model covers zero
  padding of `a`, `b`, `c` to the domain size, the in-place scaling by the
  table, and the in-place combine `a[i] := (a[i]·b[i] - c[i]) · minusTwoInv`.
  It also covers the fused table (inverse-transform normalisation and coset
  shift in one pass) and the final inverse coset pass. `ComputeH` is proved
  equal to a specification function `QuotientOf` built from these passes. The
  combine is proved to divide `a·b - c` by `-2`, the value of the vanishing
  polynomial on the coset.
- **`Prove`**. The model covers the derivation `kr = -(r·s)`, the four-way
  split of the G2 multi-exponentiation when `len(B) / 4 > 10`, and the
  assembly of `Ar`, `Bs` and `Krs`, each computed as its concurrent task
  computes it. The model proves:
  - The split and unsplit G2 paths agree.
  - The assembled proof equals the textbook Groth16 form:
    - `Ar = A0 + r·δ`
    - `Bs = β₂ + Σ w·B₂ + s·δ₂`
    - `Krs = C0 + s·A0 + r·B0 + r·s·δ`
  - A failed `Solve` is returned unchanged.

Field elements are integers modulo the BN256 scalar-field order `P`. The proofs
use only the facts that `P` is odd and greater than 2. G1 and G2 are cyclic
groups of order `P`, so each point is represented by its discrete logarithm
with respect to a fixed generator. With that representation:
- point addition is field addition;
- scalar multiplication is field multiplication;
- a multi-exponentiation is the weighted sum `Σ scalar_i · point_i`.

This representation is an isomorphism of groups, so sums and the split law
carry over to the real curve groups unchanged.

Files:
- `field.dfy`: field arithmetic, `minusTwoInv`, and the algebra laws the proofs use.
- `exptable.dfy`: the exponentiation-table precomputation.
- `quotient.dfy`: `computeH`.
- `prove.dfy`: `Prove`.

## Model

| member | source | states |
|---|---|---|
| `Field.MinusTwoInvIsInverse` | backend/bn256/groth16/prove.go:46-49 | `minusTwoInv · (-2) = 1`, and it is the only element with that property, so it is exactly the inverse `init` computes |
| `Field.DivideByMinusTwo` | backend/bn256/groth16/prove.go:271-273 | multiplying by `minusTwoInv` is division by `-2`: `x · (-2) = v` holds exactly when `x = v · minusTwoInv` |
| `ExpTable.ScaledPowerStep` | backend/bn256/groth16/prove.go:332-334 | each table entry is the previous one times `w`: `scale·w^k = (scale·w^(k-1))·w` |
| `ExpTable.PrecomputeExpTableChunk` | backend/bn256/groth16/prove.go:329-335 | on a non-empty slice `[start, end)`, slot `start + j` ends up as `scale · w^(power + j)`; nothing outside the slice changes |
| `ExpTable.ChunksFromTile` | backend/bn256/groth16/prove.go:314-319 | the chunks `[i, min(i + interval, n))` for `i = 1, 1 + interval, ...` tile `[1, n)` without gap or overlap; every chunk but the last is exactly `interval` wide |
| `ExpTable.TilesPartition` | backend/bn256/groth16/prove.go:314-319 | a tiling is a partition: chunks lie inside the range and are pairwise disjoint, and every index of the range lies in some chunk |
| `ExpTable.PrecomputeChunked` | backend/bn256/groth16/prove.go:312-326 | for any positive `interval`, the chunk loop hands out exactly these chunks and leaves `table[i] = scale · w^i` for `1 <= i < n`, with `table[0]` unchanged |
| `ExpTable.AsyncExpTable` | backend/bn256/groth16/prove.go:298-327 | both branches leave `table[i] = scale · w^i` for `1 <= i < n` and `table[0]` unchanged; one chunk `[1, n)` when `(n - 1) / NumCPU < 92`, otherwise the chunks of that width; the chunks handed out lie in `[1, n)`, are pairwise disjoint, and cover every index of `[1, n)` |
| `Quotient.Padded` | backend/bn256/groth16/prove.go:214-222 | padding needs `len(v) <= Cardinality`; the result has length `Cardinality`, keeps `v` as its prefix, and is zero after it |
| `Quotient.ExpTableFromEntries` | backend/bn256/groth16/prove.go:232-239 | a table whose slot 0 is `CardinalityInv` (set once) and whose other slots the precomputation filled is the whole table `CardinalityInv · w^i`; this holds for both the shift and the unshift table, so slot 0 is never rewritten |
| `Quotient.PadToDomain` | backend/bn256/groth16/prove.go:217-221 | the padded buffer holds exactly the padded vector |
| `Quotient.FusedScaling` | backend/bn256/groth16/prove.go:224-233 | scaling by the fused table `CardinalityInv · g^i` is scaling by `CardinalityInv` (inverse-transform normalisation) followed by the coset shift `g^i` |
| `Quotient.CosetTransformNormalises` | backend/bn256/groth16/prove.go:224-258 | `FFTa` with the fused shift table is the inverse transform normalised by `CardinalityInv`, shifted onto the coset by `g^i`, then transformed forward |
| `Quotient.MulByTable` | backend/bn256/groth16/prove.go:249-253 | `s[i] := s[i] · table[i]` at every index; the table is not changed |
| `Quotient.FftInPlace` | backend/bn256/groth16/prove.go:244 | the buffer is replaced by the transform of its old contents |
| `Quotient.CosetTransform` | backend/bn256/groth16/prove.go:242-258 | `FFTa` leaves its buffer as the forward transform of (the inverse transform of the old contents, scaled by the table) |
| `Quotient.CosetTransformAll` | backend/bn256/groth16/prove.go:259-265 | each of the padded `a`, `b`, `c` is left as its own coset transform with the shift table, independently of the other two |
| `Quotient.CombineInPlace` | backend/bn256/groth16/prove.go:269-275 | `a[i] := (a[i]·b[i] - c[i]) · minusTwoInv` at every index; `b` and `c` are not changed |
| `Quotient.CombineDividesByZ` | backend/bn256/groth16/prove.go:267-275 | each combined entry is the unique `x` with `x · (-2) = a[i]·b[i] - c[i]`, that is, `a·b - c` divided by `Z = -2` on the coset |
| `Quotient.InverseCosetTransform` | backend/bn256/groth16/prove.go:286-293 | the combined vector is replaced by its inverse transform scaled entrywise by the unshift table |
| `Quotient.ComputeH` | backend/bn256/groth16/prove.go:207-296 | with `len(a) = len(b) = len(c) <= Cardinality`, `H` has length `Cardinality` and equals `QuotientOf`: pad, coset-transform each vector with the first table, combine, inverse-transform, and scale by the second table |
| `Groth16.MultiExpSplit` | backend/bn256/groth16/prove.go:150-169 | a weighted sum splits at any index into the sum of the sums over the two parts |
| `Groth16.MultiExpFourWay` | backend/bn256/groth16/prove.go:150-169 | summing the ranges `[3nn, len)`, `[0, nn)`, `[nn, 2nn)`, `[2nn, 3nn)` in that order, as the split path does, gives the whole weighted sum |
| `Groth16.MultiExpG2` | backend/bn256/groth16/prove.go:144-172 | whether `len(B)/4 > 10` or not, the G2 multi-exponentiation equals the weighted sum over all points |
| `Groth16.Kr` | backend/bn256/groth16/prove.go:65 | `kr` is the additive inverse of `r·s`, and the only one |
| `Groth16.BlindingExpands` | backend/bn256/groth16/prove.go:125-132 | `C0 + kr·δ + s·Ar + r·Bs1` with the blinded `Ar` and `Bs1` equals the textbook `C0 + s·A0 + r·B0 + r·s·δ` |
| `Groth16.BsTask` | backend/bn256/groth16/prove.go:139-180 | `Bs` is `β₂ + Σ w_i·B₂_i + s·δ₂`, with the split multi-exponentiation |
| `Groth16.KrsTask` | backend/bn256/groth16/prove.go:115-137 | for any `A0`, `B0`, given the blinded `Ar = A0 + r·δ` and `Bs1 = B0 + s·δ` and `deltas[2] = kr·δ`, the task's sum `Σ h_i·Z_i + Σ_private w_i·K_i + deltas[2] + s·Ar + r·Bs1` is the textbook `C0 + s·A0 + r·B0 + r·s·δ`: the `kr` term cancels one of the two `r·s·δ` terms |
| `Groth16.Prove` | backend/bn256/groth16/prove.go:54-205 | a failed `Solve` is returned unchanged; otherwise the result is the Groth16 proof for the wire values and `H = computeH(a, b, c)` in textbook form, `Ar = α + Σ w_i·A_i + r·δ`, `Bs = β₂ + Σ w_i·B₂_i + s·δ₂`, `Krs = C0 + s·A0 + r·B0 + r·s·δ` |

## Left out

- Goroutines, channels and wait groups are not modelled. Each task runs
  sequentially, in an order that respects the joins. The joins only order data
  that is ready, and each task writes only its own chunk, buffer or result.
- `parallel.Execute` is modelled as one loop over `[0, n)`. Its chunks touch
  disjoint indices.
- Elliptic-curve arithmetic is not modelled. `MultiExp`, `ScalarMulGLV`,
  `BatchScalarMultiplicationG1`, `AddMixed`, `AddAssign` and `FromJacobian` all
  belong to an external library. Points are represented by discrete
  logarithms, as described above.
  - The choice between affine and Jacobian form is not modelled.
  - The parallelism options of a multi-exponentiation are not modelled.
- The FFT primitive is an uninterpreted parameter. Its only assumption is that
  it keeps the length of its vector. For that reason the correctness law
  `H·Z = A·B - C` over the domain is not stated.
- `FromMont` and `ToBigInt` only change representation. They are modelled as
  the identity, so the wire-value conversion loop and the final conversion of
  `H` change no values.
- `SetRandom` is randomness. The scalars `r` and `s` are parameters of `Prove`.
- `r1cs.Solve` is external. Its outcome is a parameter of `Prove`: either the
  solved vectors (one evaluation per constraint, one value per wire) or its
  error.
- `NewDomain` is external. The domain is a parameter, at least as large as the
  constraint count.
- `runtime.NumCPU()` is a positive parameter. `nnn` is never used in this file.
- The capacity of `a` (`Cardinality + nbPrivateWires`) is not modelled. In the
  source, `append` pads in place and the returned `H` shares the backing array
  of `a`. The model pads into a fresh buffer, so this aliasing is not captured;
  nothing reads `a` afterwards.
- Proving-key shapes are preconditions of `Prove` (`WellShaped`), not checked
  by the source:
  - one `A`, G1 `B` and G2 `B` point per wire;
  - one `Z` point per domain point;
  - at least one `K` point per private wire.
  The multi-exponentiation pairs points with scalars one to one.
- `AsyncExpTable`, `ComputeH` and `Prove` require a table (domain) of at least
  two entries. With one entry, the source passes the empty slice `table[1:]`
  to `precomputeExpTableChunk`, which writes its first slot and panics.
- The `debug.Assert` that `a`, `b` and `c` have equal length is a precondition
  of `ComputeH`.
