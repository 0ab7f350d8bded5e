/** The exponentiation-table precomputation of the prover: a table with
    `table[i] = scale · w^i`, filled either as one chunk or as contiguous
    chunks, each seeded by one exponentiation and extended by repeated
    multiplication. The tasks the source runs concurrently are run here one
    after another; each writes only its own chunk. */
module ExpTable {
  import opened Field

  /** Multiplications that cost about as much as one exponentiation. */
  const RatioExpMul: nat := 2400 / 26

  /** The index range `[start, end)` of the table that one task fills. */
  datatype Chunk = Chunk(start: nat, end: nat)

  /** Entry `i` of the table for `scale` and `w`. */
  function ScaledPower(scale: Fe, w: Fe, i: nat): Fe
  {
    Mul(scale, Pow(w, i))
  }

  /** One step of the table: entry `k` is entry `k - 1` times `w`. */
  lemma ScaledPowerStep(scale: Fe, w: Fe, k: nat)
    requires k >= 1
    ensures ScaledPower(scale, w, k) == Mul(ScaledPower(scale, w, k - 1), w)
  {
    MulAssoc(scale, Pow(w, k - 1), w);
  }

  /** The chunks the splitting loop hands out, starting at index `start` and
      stepping by `interval`; the last end is clamped to `n`. */
  function ChunksFrom(start: nat, n: nat, interval: nat): seq<Chunk>
    requires interval >= 1
    decreases n - start
  {
    if start >= n then []
    else [Chunk(start, if start + interval > n then n else start + interval)]
         + ChunksFrom(start + interval, n, interval)
  }

  /** Index `k` lies in chunk `c`. */
  predicate InChunk(c: Chunk, k: nat)
  {
    c.start <= k < c.end
  }

  /** Index `k` lies in one of the chunks `cs`. */
  ghost predicate Covered(cs: seq<Chunk>, k: nat)
  {
    exists j :: 0 <= j < |cs| && InChunk(cs[j], k)
  }

  /** `cs` lists non-empty chunks that follow each other without gap or
      overlap, from `lo` up to `hi`. */
  ghost predicate Tiles(cs: seq<Chunk>, lo: nat, hi: nat)
    decreases |cs|
  {
    if cs == [] then lo == hi
    else cs[0].start == lo && cs[0].start < cs[0].end && Tiles(cs[1..], cs[0].end, hi)
  }

  /** A tiling of `[lo, hi)` is a partition of it: every chunk lies inside,
      chunks are pairwise disjoint and in order, and every index of the range
      lies in some chunk. */
  lemma {:induction false} TilesPartition(cs: seq<Chunk>, lo: nat, hi: nat)
    requires Tiles(cs, lo, hi)
    ensures lo <= hi
    ensures forall j :: 0 <= j < |cs| ==> lo <= cs[j].start < cs[j].end <= hi
    ensures forall j1, j2 :: 0 <= j1 < j2 < |cs| ==> cs[j1].end <= cs[j2].start
    ensures forall k :: lo <= k < hi ==> Covered(cs, k)
    decreases |cs|
  {
    if cs != [] {
      var rest := cs[1..];
      TilesPartition(rest, cs[0].end, hi);
      assert forall j :: 1 <= j < |cs| ==> cs[j] == rest[j - 1];
      forall k | lo <= k < hi
        ensures Covered(cs, k)
      {
        if k < cs[0].end {
          assert InChunk(cs[0], k);
        } else {
          assert Covered(rest, k);
          var j :| 0 <= j < |rest| && InChunk(rest[j], k);
          assert cs[j + 1] == rest[j];
        }
      }
    }
  }

  /** The chunks of the splitting loop tile `[start, n)`; every chunk but the
      last is exactly `interval` wide and the last is at most that wide. */
  lemma {:induction false} ChunksFromTile(start: nat, n: nat, interval: nat)
    requires interval >= 1 && start <= n
    ensures Tiles(ChunksFrom(start, n, interval), start, n)
    ensures var cs := ChunksFrom(start, n, interval);
      forall j :: 0 <= j < |cs| ==>
        cs[j].end - cs[j].start <= interval &&
        (j < |cs| - 1 ==> cs[j].end - cs[j].start == interval)
    decreases n - start
  {
    if start < n {
      var next := start + interval;
      if next < n {
        ChunksFromTile(next, n, interval);
      } else {
        assert ChunksFrom(next, n, interval) == [];
      }
      var cs := ChunksFrom(start, n, interval);
      assert cs[1..] == ChunksFrom(next, n, interval);
    }
  }

  /** `precomputeExpTableChunk` on the slice `table[start:end]`: the slice is
      seeded with `scale · w^power` and then extended by multiplying by `w`,
      so slot `start + j` holds `scale · w^(power + j)`. The source writes the
      first slot of the slice unconditionally, hence the slice is non-empty. */
  method PrecomputeExpTableChunk(scale: Fe, w: Fe, power: nat, table: array<Fe>, start: nat, end: nat)
    requires start < end <= table.Length
    modifies table
    ensures forall i :: start <= i < end ==> table[i] == ScaledPower(scale, w, power + (i - start))
    ensures forall i :: 0 <= i < table.Length && !(start <= i < end) ==> table[i] == old(table[i])
  {
    table[start] := Mul(Pow(w, power), scale);
    assert table[start] == ScaledPower(scale, w, power);
    var i := start + 1;
    while i < end
      invariant start + 1 <= i <= end
      invariant forall k :: start <= k < i ==> table[k] == ScaledPower(scale, w, power + (k - start))
      invariant forall k :: 0 <= k < table.Length && !(start <= k < i) ==> table[k] == old(table[k])
    {
      var e := power + (i - start);
      assert table[i - 1] == ScaledPower(scale, w, e - 1);
      ScaledPowerStep(scale, w, e);
      table[i] := Mul(table[i - 1], w);
      assert table[i] == ScaledPower(scale, w, e);
      i := i + 1;
    }
  }

  /** The splitting branch of `asyncExpTable`: one task per chunk
      `[i, min(i + interval, n))` for `i = 1, 1 + interval, ...`. It fills
      `table[1..n)` for every positive `interval`, so the threshold that
      selects this branch does not change the table. `issued` records the
      chunks handed out. */
  method PrecomputeChunked(scale: Fe, w: Fe, table: array<Fe>, interval: nat) returns (ghost issued: seq<Chunk>)
    requires table.Length >= 1 && interval >= 1
    modifies table
    ensures issued == ChunksFrom(1, table.Length, interval)
    ensures table[0] == old(table[0])
    ensures forall i :: 1 <= i < table.Length ==> table[i] == ScaledPower(scale, w, i)
  {
    var n := table.Length;
    issued := [];
    var i := 1;
    while i < n
      invariant 1 <= i
      invariant issued + ChunksFrom(i, n, interval) == ChunksFrom(1, n, interval)
      invariant table[0] == old(table[0])
      invariant forall k :: 1 <= k < n && k < i ==> table[k] == ScaledPower(scale, w, k)
      decreases n - i
    {
      var start := i;
      var end := i + interval;
      if end > n {
        end := n;
      }
      PrecomputeExpTableChunk(scale, w, start, table, start, end);
      assert forall k :: 1 <= k < n && k < end ==> table[k] == ScaledPower(scale, w, k);
      ghost var rest := ChunksFrom(i + interval, n, interval);
      assert ChunksFrom(i, n, interval) == [Chunk(start, end)] + rest;
      assert (issued + [Chunk(start, end)]) + rest == issued + ([Chunk(start, end)] + rest);
      issued := issued + [Chunk(start, end)];
      i := i + interval;
    }
  }

  /** `asyncExpTable`: fills `table[1..n)` with `scale · w^i` and leaves
      `table[0]` to the caller. With `interval = (n - 1) / numCPU`, it runs one
      chunk `[1, n)` when `interval < 2400 / 26`, and otherwise splits into
      chunks of width `interval`, which is then positive. Either way the chunks
      tile `[1, n)`. A table of length 1 makes the source write the first slot
      of an empty slice, so the table has at least two entries. */
  method AsyncExpTable(scale: Fe, w: Fe, table: array<Fe>, numCPU: nat) returns (ghost issued: seq<Chunk>)
    requires numCPU >= 1
    requires table.Length >= 2
    modifies table
    ensures table[0] == old(table[0])
    ensures forall i :: 1 <= i < table.Length ==> table[i] == ScaledPower(scale, w, i)
    ensures Tiles(issued, 1, table.Length)
    ensures forall j :: 0 <= j < |issued| ==> 1 <= issued[j].start < issued[j].end <= table.Length
    ensures forall j1, j2 :: 0 <= j1 < j2 < |issued| ==> issued[j1].end <= issued[j2].start
    ensures forall k :: 1 <= k < table.Length ==> Covered(issued, k)
    ensures (table.Length - 1) / numCPU < RatioExpMul ==> issued == [Chunk(1, table.Length)]
    ensures (table.Length - 1) / numCPU >= RatioExpMul ==>
      issued == ChunksFrom(1, table.Length, (table.Length - 1) / numCPU)
  {
    var n := table.Length;
    var interval := (n - 1) / numCPU;
    if interval < RatioExpMul {
      PrecomputeExpTableChunk(scale, w, 1, table, 1, n);
      issued := [Chunk(1, n)];
      assert Tiles(issued[1..], n, n);
    } else {
      issued := PrecomputeChunked(scale, w, table, interval);
      ChunksFromTile(1, n, interval);
    }
    TilesPartition(issued, 1, n);
  }
}
