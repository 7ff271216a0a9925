/** Chunking: the number of rows a machine works on at a time. */
module Chunks {
  const MAX_CHUNK_SIZE := 256
  const ELEM_BYTES := 16
  const MAX_VM_BYTES := 268_435_456

  ghost predicate IsPow2(x: nat) {
    x == 1 || (x > 0 && x % 2 == 0 && IsPow2(x / 2))
  }

  /** The largest power of two not above x (0 for 0). */
  ghost function FloorPow2(x: nat): nat {
    if x < 2 then x else 2 * FloorPow2(x / 2)
  }

  /** x & (x - 1): the binary digits of x without the lowest one. */
  function ClearLowest(x: nat): (y: nat)
    requires x > 0
    ensures y < x
  {
    if x % 2 == 1 then x - 1 else 2 * ClearLowest(x / 2)
  }

  lemma {:induction false} FloorIsPow2(x: nat)
    requires x > 0
    ensures IsPow2(FloorPow2(x)) && FloorPow2(x) <= x < 2 * FloorPow2(x)
  {
    if x >= 2 { FloorIsPow2(x / 2); }
  }

  lemma {:induction false} ClearKeepsFloor(x: nat)
    requires x > 0
    ensures ClearLowest(x) > 0 ==> FloorPow2(ClearLowest(x)) == FloorPow2(x)
    ensures ClearLowest(x) == 0 ==> FloorPow2(x) == x
  {
    if x % 2 == 0 { ClearKeepsFloor(x / 2); }
  }

  lemma {:induction false} Pow2Gap(p: nat, c: nat)
    requires IsPow2(p) && IsPow2(c) && p < c
    ensures p <= c / 2
  {
    if p > 1 { Pow2Gap(p / 2, c / 2); }
  }

  /** Rounds down to a power of two by clearing the lowest bit until one is left. */
  method RoundDown(x: nat) returns (y: nat)
    ensures y == FloorPow2(x)
  {
    y := x;
    while y > 0 && ClearLowest(y) != 0
      invariant FloorPow2(y) == FloorPow2(x)
      decreases y
    {
      ClearKeepsFloor(y);
      y := ClearLowest(y);
    }
    if y > 0 { ClearKeepsFloor(y); }
  }

  /** The cap for a board: the memory target only counts from 16 rows on. */
  ghost function MaxChunk(numSlots: nat): nat {
    if numSlots == 0 then MAX_CHUNK_SIZE
    else
      var m := FloorPow2(MAX_VM_BYTES / (numSlots * ELEM_BYTES));
      if 16 <= m < MAX_CHUNK_SIZE then m else MAX_CHUNK_SIZE
  }

  lemma MaxChunkPow2(numSlots: nat)
    ensures IsPow2(MaxChunk(numSlots)) && 16 <= MaxChunk(numSlots) <= MAX_CHUNK_SIZE
  {
    assert IsPow2(256) by { assert IsPow2(4) && IsPow2(16) && IsPow2(64); }
    if numSlots > 0 && MAX_VM_BYTES / (numSlots * ELEM_BYTES) > 0 {
      FloorIsPow2(MAX_VM_BYTES / (numSlots * ELEM_BYTES));
    }
  }

  ghost predicate Divides(p: nat, total: nat) {
    p > 0 && total % p == 0
  }

  /** p divides the total, as a power of two within the cap. */
  ghost predicate Cuts(p: nat, cap: nat, total: nat) {
    IsPow2(p) && p <= cap && Divides(p, total)
  }

  lemma DivisorBelow(p: nat, total: nat)
    requires p > 0 && total > 0 && total % p == 0
    ensures p <= total
  {
    var q := total / p;
    assert total == q * p;
    assert q >= 1;
    assert q * p >= 1 * p;
  }

  /** The number of rows whose slots fit into the memory of one machine. */
  function Affordable(numSlots: nat): nat
    requires numSlots > 0
  {
    MAX_VM_BYTES / (numSlots * ELEM_BYTES)
  }

  /** The slots of a chunk of the maximal size fit into the memory meant for a machine if and only
      if at least sixteen rows do; with fewer the cap is not lowered at all. */
  lemma CapExactly(numSlots: nat)
    requires numSlots > 0
    ensures MaxChunk(numSlots) * (numSlots * ELEM_BYTES) <= MAX_VM_BYTES <==> Affordable(numSlots) >= 16
    ensures Affordable(numSlots) < 16 ==> MaxChunk(numSlots) == MAX_CHUNK_SIZE
    ensures 16 <= Affordable(numSlots) < MAX_CHUNK_SIZE ==>
              MaxChunk(numSlots) <= Affordable(numSlots) < 2 * MaxChunk(numSlots)
    ensures Affordable(numSlots) >= MAX_CHUNK_SIZE ==> MaxChunk(numSlots) == MAX_CHUNK_SIZE
  {
    var q, bytes := Affordable(numSlots), numSlots * ELEM_BYTES;
    if q > 0 { FloorIsPow2(q); }
    QuotientFits(MaxChunk(numSlots), bytes, q);
    if 16 <= q {
      FloorMonotone(16, q);
      assert FloorPow2(4) == 4 && FloorPow2(16) == 16;
    }
    if MAX_CHUNK_SIZE <= q {
      FloorMonotone(256, q);
      assert FloorPow2(16) == 16 && FloorPow2(64) == 64 && FloorPow2(256) == 256;
    }
  }

  lemma {:induction false} FloorMonotone(x: nat, y: nat)
    requires x <= y
    ensures FloorPow2(x) <= FloorPow2(y)
  {
    if x >= 2 { FloorMonotone(x / 2, y / 2); } else if y > 0 { FloorIsPow2(y); }
  }

  lemma QuotientFits(m: nat, bytes: nat, q: nat)
    requires bytes > 0 && q == MAX_VM_BYTES / bytes
    ensures m * bytes <= MAX_VM_BYTES <==> m <= q
  {
    if m <= q { assert m * bytes <= q * bytes; } else { assert (q + 1) * bytes <= m * bytes; }
  }

  method Cap(numSlots: nat) returns (cap: nat)
    ensures cap == MaxChunk(numSlots)
  {
    cap := MAX_CHUNK_SIZE;
    if numSlots > 0 {
      var forBoard := RoundDown(MAX_VM_BYTES / (numSlots * ELEM_BYTES));
      if forBoard >= 16 && forBoard < cap { cap := forBoard; }
    }
  }

  /** Every total is cut evenly: into one chunk if it fits, and otherwise into the largest
      power of two below the cap that divides it. */
  method ChunkSize(numSlots: nat, total: nat) returns (size: nat)
    requires total > 0
    ensures 1 <= size <= total && total % size == 0 && size <= MaxChunk(numSlots)
    ensures total <= MaxChunk(numSlots) ==> size == total
    ensures total > MaxChunk(numSlots) ==> IsPow2(size)
    ensures forall p: nat :: Cuts(p, MaxChunk(numSlots), total) ==> p <= size
  {
    MaxChunkPow2(numSlots);
    var cap := Cap(numSlots);
    size := if cap <= total then cap else total;
    forall p: nat | Cuts(p, cap, total) ensures p <= size { DivisorBelow(p, total); }
    while size > 1 && total % size != 0
      invariant 1 <= size <= total && size <= cap
      invariant total <= cap ==> size == total
      invariant total > cap ==> IsPow2(size)
      invariant forall p: nat :: Cuts(p, cap, total) ==> p <= size
      decreases size
    {
      forall p: nat | Cuts(p, cap, total) ensures p <= size / 2 {
        Pow2Gap(p, size);
      }
      size := size / 2;
    }
  }

  lemma Exact(total: nat, size: nat)
    requires 1 <= size <= total && total % size == 0
    ensures total == (total / size) * size && 1 <= total / size
  {
  }

  lemma MulGrows(a: nat, b: nat, size: nat)
    requires a <= b
    ensures a * size <= b * size
  {
  }

  /** Every row belongs to exactly one chunk. */
  lemma Locate(n: nat, size: nat, row: nat)
    requires 1 <= size && row < n * size
    ensures row / size < n && row % size < size && row == (row / size) * size + row % size
    ensures forall c: nat, i: nat :: i < size && row == Place(c, size, i) ==> c == row / size && i == row % size
  {
    var q := row / size;
    if q >= n { MulGrows(n, q, size); }
    forall c: nat, i: nat | i < size && row == Place(c, size, i) ensures c == q && i == row % size {
      if c < q { ChunkBounds(q, size, c); }
      if q < c { ChunkBounds(c, size, q); }
    }
  }

  /** The row that chunk c writes at offset i. */
  ghost function Place(c: nat, size: nat, i: nat): nat {
    c * size + i
  }

  lemma ChunkBounds(n: nat, size: nat, c: nat)
    requires c < n
    ensures c * size + size <= n * size
  {
    assert (c + 1) * size <= n * size;
  }
}
