/** A compressor extended to streams of any length. */
module CompressionChain {

  type Byte = x: int | 0 <= x < 256

  type Bytes = seq<Byte>

  /** A two-to-one compressor on blocks. */
  datatype Compressor = Compressor(blockSize: nat, fn: (Bytes, Bytes) -> Bytes) {
    function Compress(a: Bytes, b: Bytes): Bytes { fn(a, b) }

    ghost predicate Valid() {
      blockSize > 0 && forall a, b :: |Compress(a, b)| == blockSize
    }

    /** The first block is the state; every other one is compressed into it. */
    function Step(state: Bytes, block: Bytes): Bytes {
      if state == [] then block else Compress(state, block)
    }

    /** The left fold over a list of blocks. */
    function Chain(blocks: seq<Bytes>): Bytes {
      if blocks == [] then [] else Step(Chain(blocks[..|blocks| - 1]), blocks[|blocks| - 1])
    }

    /** State and remainder after feeding a stream to a state. */
    function Feed(state: Bytes, stream: Bytes): (Bytes, Bytes)
      requires blockSize > 0
      decreases |stream|
    {
      if |stream| < blockSize then (state, stream)
      else Feed(Step(state, stream[..blockSize]), stream[blockSize..])
    }
  }

  function Concat(xs: seq<Bytes>): Bytes {
    if xs == [] then [] else Concat(xs[..|xs| - 1]) + xs[|xs| - 1]
  }

  /** Feeding in two parts: the remainder of the first is put before the second. */
  lemma {:induction false} FeedAppend(c: Compressor, state: Bytes, a: Bytes, b: Bytes)
    requires c.blockSize > 0
    ensures c.Feed(state, a + b) == var (s, rest) := c.Feed(state, a); c.Feed(s, rest + b)
    decreases |a|
  {
    var n := c.blockSize;
    if |a| >= n {
      assert (a + b)[..n] == a[..n] && (a + b)[n..] == a[n..] + b;
      FeedAppend(c, c.Step(state, a[..n]), a[n..], b);
    }
  }

  lemma FeedBlock(c: Compressor, state: Bytes, block: Bytes)
    requires c.blockSize > 0 && |block| == c.blockSize
    ensures c.Feed(state, block) == (c.Step(state, block), [])
  {
    assert block[..c.blockSize] == block && block[c.blockSize..] == [];
  }

  ghost predicate BlocksOf(c: Compressor, blocks: seq<Bytes>) {
    forall i :: 0 <= i < |blocks| ==> |blocks[i]| == c.blockSize
  }

  /** A stream of complete blocks leaves the fold over them and nothing else. */
  lemma {:induction false} FeedBlocks(c: Compressor, blocks: seq<Bytes>)
    requires c.blockSize > 0 && BlocksOf(c, blocks)
    ensures c.Feed([], Concat(blocks)) == (c.Chain(blocks), [])
  {
    if blocks != [] {
      var n := |blocks| - 1;
      FeedBlocks(c, blocks[..n]);
      FeedAppend(c, [], Concat(blocks[..n]), blocks[n]);
      assert [] + blocks[n] == blocks[n];
      FeedBlock(c, c.Chain(blocks[..n]), blocks[n]);
    }
  }

  /** The complete blocks of a stream and what is left of it. */
  lemma {:induction false} Cut(c: Compressor, stream: Bytes) returns (blocks: seq<Bytes>, rest: Bytes)
    requires c.blockSize > 0
    ensures BlocksOf(c, blocks) && |rest| < c.blockSize && stream == Concat(blocks) + rest
    decreases |stream|
  {
    var n := c.blockSize;
    if |stream| < n {
      blocks, rest := [], stream;
    } else {
      var k := |stream| - n;
      var front, tail := Cut(c, stream[..k]);
      blocks, rest := Recut(c, front, tail, stream[k..]);
      assert stream == stream[..k] + stream[k..];
    }
  }

  lemma Recut(c: Compressor, front: seq<Bytes>, tail: Bytes, more: Bytes) returns (blocks: seq<Bytes>, rest: Bytes)
    requires c.blockSize > 0 && BlocksOf(c, front) && |tail| < c.blockSize && |more| == c.blockSize
    ensures BlocksOf(c, blocks) && |rest| < c.blockSize && Concat(front) + tail + more == Concat(blocks) + rest
  {
    var all := tail + more;
    var block := all[..c.blockSize];
    blocks, rest := front + [block], all[c.blockSize..];
    assert blocks[..|front|] == front;
    assert block + rest == all;
    assert Concat(blocks) == Concat(front) + block;
  }

  /** Feeding a stream to the empty chain: the state is the fold of the compressor over the complete
      blocks, the first taken as it is, and the remainder is what follows them. */
  lemma FeedIsChain(c: Compressor, stream: Bytes) returns (blocks: seq<Bytes>, rest: Bytes)
    requires c.blockSize > 0
    ensures BlocksOf(c, blocks) && |rest| < c.blockSize && stream == Concat(blocks) + rest
    ensures c.Feed([], stream) == (c.Chain(blocks), rest)
  {
    blocks, rest := Cut(c, stream);
    FeedBlocks(c, blocks);
    FeedAppend(c, [], Concat(blocks), rest);
    assert [] + rest == rest;
  }

  class CompressionChain {
    const compressor: Compressor
    var state: Bytes
    var buffer: Bytes

    ghost predicate Valid()
      reads this
    {
      compressor.Valid() && |buffer| < compressor.blockSize
    }

    constructor (compressor: Compressor)
      requires compressor.Valid()
      ensures Valid() && this.compressor == compressor && state == [] && buffer == []
    {
      this.compressor := compressor;
      state, buffer := [], [];
    }

    /** Takes any number of bytes; all of them are always consumed. */
    method Write(data: Bytes) returns (n: nat)
      requires Valid()
      modifies this`state, this`buffer
      ensures Valid() && n == |data|
      ensures (state, buffer) == compressor.Feed(old(state), old(buffer) + data)
    {
      var rest := data;
      n := 0;
      while |rest| + |buffer| >= compressor.blockSize
        invariant compressor.Valid() && |buffer| < compressor.blockSize && n + |rest| == |data|
        invariant compressor.Feed(state, buffer + rest) == compressor.Feed(old(state), old(buffer) + data)
        decreases |rest|
      {
        var m := compressor.blockSize - |buffer|;
        ghost var stream := buffer + rest;
        buffer := buffer + rest[..m];
        rest := rest[m..];
        assert stream[..compressor.blockSize] == buffer && stream[compressor.blockSize..] == rest;
        if |state| == 0 {
          state := buffer;
        } else {
          state := compressor.Compress(state, buffer);
        }
        buffer := [];
        assert buffer + rest == rest;
        n := n + m;
      }
      buffer := buffer + rest;
      n := n + |rest|;
    }
  }

  /** The chain after a list of writes. */
  ghost function Written(c: Compressor, writes: seq<Bytes>): (Bytes, Bytes)
    requires c.blockSize > 0
  {
    if writes == [] then ([], [])
    else
      var (s, rest) := Written(c, writes[..|writes| - 1]);
      c.Feed(s, rest + writes[|writes| - 1])
  }

  /** However a stream is split into writes, the chain ends in the same state. */
  lemma {:induction false} SplitIndependent(c: Compressor, writes: seq<Bytes>)
    requires c.blockSize > 0
    ensures Written(c, writes) == c.Feed([], Concat(writes))
  {
    if writes != [] {
      var n := |writes| - 1;
      SplitIndependent(c, writes[..n]);
      FeedAppend(c, [], Concat(writes[..n]), writes[n]);
    }
  }
}
