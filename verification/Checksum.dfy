/** The checksum of execution data: natively over bytes, and in a circuit over numbers. */
module Checksum {
  import opened CompressionChain
  import opened Wrappers

  const ELEM := 32
  const PIECE := 31

  function Zeros(n: nat): (z: Bytes)
    ensures |z| == n
  {
    seq(n, _ => 0)
  }

  function PieceCount(n: nat): nat {
    (n + PIECE - 1) / PIECE
  }

  /** The pieces cover the data and none of them is empty. */
  lemma PiecesCover(n: nat)
    ensures n <= PIECE * PieceCount(n) && (n > 0 ==> PIECE * (PieceCount(n) - 1) < n) && (n == 0 ==> PieceCount(n) == 0)
  {
  }

  /** The i-th 31 bytes of the data, padded with zeros. */
  function Piece(data: Bytes, i: nat): (p: Bytes)
    ensures |p| == PIECE
  {
    seq(PIECE, k requires 0 <= k < PIECE => if PIECE * i + k < |data| then data[PIECE * i + k] else 0)
  }

  /** The first n packed elements: a zero byte and 31 bytes of data each. */
  function Elements(data: Bytes, n: nat): (es: seq<Bytes>)
    ensures |es| == n && forall i :: 0 <= i < n ==> |es[i]| == ELEM
  {
    seq(n, i requires 0 <= i < n => [0] + Piece(data, i))
  }

  /** Packing loses nothing: byte k of the data stands in element k / 31 behind its leading zero
      and k % 31 bytes, and zeros fill the last element. */
  lemma ElementsExactly(data: Bytes, i: nat, j: nat)
    requires i < PieceCount(|data|) && j < ELEM
    ensures var x := Elements(data, PieceCount(|data|))[i][j];
            x == if j > 0 && PIECE * i + j - 1 < |data| then data[PIECE * i + j - 1] else 0
    ensures forall k: nat :: k < |data| ==> k / PIECE < PieceCount(|data|)
  {
  }

  lemma ElementsSnoc(data: Bytes, n: nat)
    ensures Concat(Elements(data, n + 1)) == Concat(Elements(data, n)) + [0] + Piece(data, n)
  {
    var es := Elements(data, n + 1);
    assert es[..n] == Elements(data, n);
    assert es[n] == [0] + Piece(data, n);
    assert Concat(Elements(data, n)) + ([0] + Piece(data, n)) == Concat(Elements(data, n)) + [0] + Piece(data, n);
  }

  /** What PackLoose has written before element i: complete pieces, except that the last one may
      still lack its padding. */
  ghost function Packed(data: Bytes, i: nat): Bytes {
    if PIECE * i <= |data| || i == 0 then Concat(Elements(data, i))
    else Concat(Elements(data, i - 1)) + [0] + data[if PIECE * (i - 1) <= |data| then PIECE * (i - 1) else |data|..]
  }

  lemma FullPiece(data: Bytes, i: nat)
    requires PIECE * (i + 1) <= |data|
    ensures data[PIECE * i..PIECE * i + PIECE] == Piece(data, i)
  {
  }

  lemma LastPiece(data: Bytes, i: nat)
    requires PIECE * i <= |data| <= PIECE * (i + 1)
    ensures data[PIECE * i..] + Zeros(PIECE * (i + 1) - |data|) == Piece(data, i)
  {
  }

  /** PackLoose for elements of 32 bytes, one per block: writes the packed elements to the chain. */
  method PackLoose(chain: CompressionChain, data: Bytes)
    requires chain.Valid()
    modifies chain`state, chain`buffer
    ensures chain.Valid()
    ensures (chain.state, chain.buffer) ==
            chain.compressor.Feed(old(chain.state), old(chain.buffer) + Concat(Elements(data, PieceCount(|data|))))
  {
    ghost var s0, b0 := chain.state, chain.buffer;
    PackedStart(chain.compressor, data, s0, b0);
    for i := 0 to PieceCount(|data|)
      invariant chain.Valid() && Fed(chain, s0, b0 + Packed(data, i))
    {
      WriteElement(chain, data, i, s0, b0);
    }
    WritePadding(chain, data, s0, b0);
  }

  /** The chain is where feeding the stream to s0 leads. */
  ghost predicate Fed(chain: CompressionChain, s0: Bytes, stream: Bytes)
    requires chain.compressor.blockSize > 0
    reads chain
  {
    (chain.state, chain.buffer) == chain.compressor.Feed(s0, stream)
  }

  lemma PackedStart(c: Compressor, data: Bytes, s0: Bytes, b0: Bytes)
    requires c.blockSize > |b0|
    ensures c.Feed(s0, b0 + Packed(data, 0)) == (s0, b0)
  {
    assert b0 + Packed(data, 0) == b0;
  }

  method WritePadding(chain: CompressionChain, data: Bytes, ghost s0: Bytes, ghost b0: Bytes)
    requires chain.Valid() && Fed(chain, s0, b0 + Packed(data, PieceCount(|data|)))
    modifies chain`state, chain`buffer
    ensures chain.Valid() && Fed(chain, s0, b0 + Concat(Elements(data, PieceCount(|data|))))
  {
    PackedDone(data, b0);
    WriteTo(chain, Zeros(PIECE * PieceCount(|data|) - |data|), s0, b0 + Packed(data, PieceCount(|data|)));
  }

  /** A write appends to the stream fed so far. */
  method WriteTo(chain: CompressionChain, data: Bytes, ghost s0: Bytes, ghost stream: Bytes)
    requires chain.Valid() && Fed(chain, s0, stream)
    modifies chain`state, chain`buffer
    ensures chain.Valid() && Fed(chain, s0, stream + data)
  {
    FeedAppend(chain.compressor, s0, stream, data);
    var n := chain.Write(data);
  }

  method WriteElement(chain: CompressionChain, data: Bytes, i: nat, ghost s0: Bytes, ghost b0: Bytes)
    requires chain.Valid() && i < PieceCount(|data|) && Fed(chain, s0, b0 + Packed(data, i))
    modifies chain`state, chain`buffer
    ensures chain.Valid() && Fed(chain, s0, b0 + Packed(data, i + 1))
  {
    var start := PIECE * i;
    var stop := if |data| < start + PIECE then |data| else start + PIECE;
    PackedNext(data, i, b0);
    WriteTo(chain, [0], s0, b0 + Packed(data, i));
    WriteTo(chain, data[start..stop], s0, b0 + Packed(data, i) + [0]);
  }

  lemma PackedNext(data: Bytes, i: nat, b0: Bytes)
    requires i < PieceCount(|data|)
    ensures var stop := if |data| < PIECE * i + PIECE then |data| else PIECE * i + PIECE;
            PIECE * i <= stop <= |data|
              && b0 + Packed(data, i) + [0] + data[PIECE * i..stop] == b0 + Packed(data, i + 1)
  {
    var stop := if |data| < PIECE * i + PIECE then |data| else PIECE * i + PIECE;
    var front := Concat(Elements(data, i));
    if PIECE * (i + 1) <= |data| {
      FullPiece(data, i);
      ElementsSnoc(data, i);
    } else {
      assert data[PIECE * i..stop] == data[PIECE * i..];
    }
    assert b0 + front + [0] + data[PIECE * i..stop] == b0 + (front + [0] + data[PIECE * i..stop]);
  }

  lemma PackedDone(data: Bytes, b0: Bytes)
    ensures var n := PieceCount(|data|);
            b0 + Packed(data, n) + Zeros(PIECE * n - |data|) == b0 + Concat(Elements(data, n))
  {
    var n := PieceCount(|data|);
    if n == 0 || PIECE * n == |data| {
      assert Packed(data, n) + Zeros(0) == Packed(data, n);
    } else {
      var i := n - 1;
      LastPiece(data, i);
      ElementsSnoc(data, i);
      var front := Concat(Elements(data, i));
      assert Packed(data, n) == front + [0] + data[PIECE * i..];
      assert b0 + (front + [0] + data[PIECE * i..]) + Zeros(PIECE * n - |data|)
          == b0 + (front + [0] + (data[PIECE * i..] + Zeros(PIECE * n - |data|)));
    }
  }

  // ----- the native checksum -----

  datatype ExecDataChecksum = ExecDataChecksum(length: nat, partialHash: Bytes, hash: Bytes)

  /** The k lowest bytes of a number, most significant first. */
  function BytesOf(n: nat, k: nat): (b: Bytes)
    ensures |b| == k
  {
    if k == 0 then [] else BytesOf(n / 256, k - 1) + [n % 256]
  }

  function LengthBlock(n: nat): (b: Bytes)
    ensures |b| == ELEM
  {
    Zeros(ELEM - 8) + BytesOf(n, 8)
  }

  /** Copies a state into a zeroed array of 32 bytes. */
  function Fixed(state: Bytes): Bytes {
    if |state| >= ELEM then state[..ELEM] else state + Zeros(ELEM - |state|)
  }

  lemma FixedFull(state: Bytes)
    requires |state| == ELEM
    ensures Fixed(state) == state
  {
  }

  lemma {:induction false} ChainLength(c: Compressor, blocks: seq<Bytes>)
    requires c.Valid() && BlocksOf(c, blocks) && blocks != []
    ensures |c.Chain(blocks)| == c.blockSize
  {
    if |blocks| > 1 { ChainLength(c, blocks[..|blocks| - 1]); }
  }

  /** NewExecDataChecksum.  For data that is not empty the hash is the partial hash compressed with
      the length; for empty data it is the length alone. */
  method NewExecDataChecksum(c: Compressor, data: Bytes) returns (sums: ExecDataChecksum)
    requires c.Valid() && c.blockSize == ELEM
    ensures sums.length == |data|
    ensures data != [] ==>
              && sums.partialHash == c.Chain(Elements(data, PieceCount(|data|)))
              && sums.hash == c.Compress(sums.partialHash, LengthBlock(|data|))
    ensures data == [] ==> sums.partialHash == Zeros(ELEM) && sums.hash == Zeros(ELEM)
    ensures sums.hash == c.Compress(sums.partialHash, LengthBlock(|data|)) <==>
            (data != [] || c.Compress(Zeros(ELEM), Zeros(ELEM)) == Zeros(ELEM))
    ensures forall f :: Implements(c, f) && data != [] && |data| < Pow256(8) ==>
              Num(sums.hash) == f.H(Num(sums.partialHash), |data|)
  {
    var chain := new CompressionChain(c);
    PackLoose(chain, data);
    ghost var es := Elements(data, PieceCount(|data|));
    FeedBlocks(c, es);
    assert [] + Concat(es) == Concat(es);
    assert chain.state == c.Chain(es) && chain.buffer == [];
    var partial := Fixed(chain.state);
    var n := chain.Write(LengthBlock(|data|));
    assert [] + LengthBlock(|data|) == LengthBlock(|data|);
    FeedBlock(c, c.Chain(es), LengthBlock(|data|));
    sums := ExecDataChecksum(|data|, partial, Fixed(chain.state));
    if data != [] {
      ChainLength(c, es);
      FixedFull(c.Chain(es));
      FixedFull(c.Compress(c.Chain(es), LengthBlock(|data|)));
      assert sums.hash == c.Compress(sums.partialHash, LengthBlock(|data|));
    } else {
      ZeroLength();
    }
    forall f | Implements(c, f) && data != [] && |data| < Pow256(8)
      ensures Num(sums.hash) == f.H(Num(sums.partialHash), |data|)
    {
      HashNumber(c, f, sums.partialHash, |data|);
    }
  }

  lemma ZeroLength()
    ensures LengthBlock(0) == Zeros(ELEM)
  {
    ZeroBytes(8);
  }

  lemma {:induction false} ZeroBytes(k: nat)
    ensures BytesOf(0, k) == Zeros(k)
  {
    if k > 0 { ZeroBytes(k - 1); }
  }

  // ----- the circuit -----

  /** The number written by bytes, most significant first. */
  function Num(b: Bytes): nat {
    if b == [] then 0 else 256 * Num(b[..|b| - 1]) + b[|b| - 1]
  }

  function Pow256(k: nat): nat {
    if k == 0 then 1 else 256 * Pow256(k - 1)
  }

  lemma {:induction false} NumOfBytes(n: nat, k: nat)
    requires n < Pow256(k)
    ensures Num(BytesOf(n, k)) == n
  {
    if k > 0 {
      NumOfBytes(n / 256, k - 1);
      assert BytesOf(n, k)[..k - 1] == BytesOf(n / 256, k - 1);
    }
  }

  lemma NumSnoc(b: Bytes, x: Byte)
    ensures Num(b + [x]) == 256 * Num(b) + x
  {
    assert (b + [x])[..|b|] == b;
  }

  lemma {:induction false} NumLeadingZero(b: Bytes)
    ensures Num([0] + b) == Num(b)
  {
    if b == [] {
      assert [0] + b == [] + [0];
      NumSnoc([], 0);
    } else {
      var n := |b| - 1;
      NumLeadingZero(b[..n]);
      assert [0] + b == ([0] + b[..n]) + [b[n]];
      NumSnoc([0] + b[..n], b[n]);
    }
  }

  lemma {:induction false} NumLeadingZeros(k: nat, b: Bytes)
    ensures Num(Zeros(k) + b) == Num(b)
  {
    if k == 0 {
      assert Zeros(0) + b == b;
    } else {
      NumLeadingZeros(k - 1, b);
      NumLeadingZero(Zeros(k - 1) + b);
      assert Zeros(k) + b == [0] + (Zeros(k - 1) + b);
    }
  }

  /** The length block is the number of the length. */
  lemma LengthBlockNumber(n: nat)
    requires n < Pow256(8)
    ensures Num(LengthBlock(n)) == n
  {
    NumLeadingZeros(ELEM - 8, BytesOf(n, 8));
    NumOfBytes(n, 8);
  }

  /** The compression of field elements. */
  datatype FieldCompressor = FieldCompressor(fn: (nat, nat) -> nat) {
    function H(a: nat, b: nat): nat { fn(a, b) }

    function Chain(ns: seq<nat>): nat
      requires ns != []
    {
      if |ns| == 1 then ns[0] else H(Chain(ns[..|ns| - 1]), ns[|ns| - 1])
    }
  }

  /** The native compressor does on bytes what the field compressor does on numbers. */
  ghost predicate Implements(c: Compressor, f: FieldCompressor) {
    && c.Valid() && c.blockSize == ELEM
    && forall a, b :: Computes(c, f, a, b)
  }

  ghost predicate Computes(c: Compressor, f: FieldCompressor, a: Bytes, b: Bytes) {
    var x := f.H(Num(a), Num(b));
    x < Pow256(ELEM) && c.Compress(a, b) == BytesOf(x, ELEM)
  }

  /** The hash as a number: the field compression of the partial hash and the length. */
  lemma HashNumber(c: Compressor, f: FieldCompressor, partial: Bytes, n: nat)
    requires Implements(c, f) && n < Pow256(8)
    ensures Num(c.Compress(partial, LengthBlock(n))) == f.H(Num(partial), n)
  {
    assert Computes(c, f, partial, LengthBlock(n));
    LengthBlockNumber(n);
    NumOfBytes(f.H(Num(partial), n), ELEM);
  }

  function Blocks(data: Bytes, n: nat): (ns: seq<nat>)
    ensures |ns| == n
  {
    seq(n, i requires 0 <= i < n => Num(Piece(data, i)))
  }

  /** A number shifted by one byte for each byte that is missing. */
  method ReadPadded(data: Bytes, i: nat) returns (n: nat)
    requires PIECE * i <= |data|
    ensures n == Num(Piece(data, i))
  {
    var stop := if |data| < PIECE * i + PIECE then |data| else PIECE * i + PIECE;
    var piece := data[PIECE * i..stop];
    n := Num(piece);
    ghost var padded := piece;
    for k := |piece| to PIECE
      invariant |padded| == k && n == Num(padded)
      invariant forall j :: 0 <= j < k ==> padded[j] == Piece(data, i)[j]
    {
      NumSnoc(padded, 0);
      n := n * 256;
      padded := padded + [0];
    }
    assert padded == Piece(data, i);
  }

  /** checksumExecDataSnark: all partial hashes of the whole buffer, then a look-up. */
  method ChecksumSnark(f: FieldCompressor, data: Bytes, nbBytes: nat) returns (res: Option<nat>)
    ensures data == [] ==> res == Some(0)
    ensures data != [] ==>
              var k := PieceCount(nbBytes);
              res == if 1 <= k <= PieceCount(|data|) then Some(f.Chain(Blocks(data, k))) else None
  {
    if data == [] { return Some(0); }
    var count := PieceCount(|data|);
    var state := ReadPadded(data, 0);
    var partials: seq<nat> := [];
    assert Blocks(data, 1) == [state];
    for i := 1 to count
      invariant |partials| == i - 1 && state == f.Chain(Blocks(data, i))
      invariant forall j :: 0 <= j < i - 1 ==> partials[j] == f.Chain(Blocks(data, j + 1))
    {
      partials := partials + [state];
      var block := ReadPadded(data, i);
      assert Blocks(data, i + 1)[..i] == Blocks(data, i);
      state := f.H(state, block);
    }
    partials := partials + [state];
    var blockI := (nbBytes + PIECE - 1) / PIECE - 1;
    res := if 0 <= blockI < |partials| then Some(partials[blockI]) else None;
  }

  lemma PrefixPieces(data: Bytes, n: nat, i: nat)
    requires n <= |data| && forall k :: n <= k < |data| ==> data[k] == 0
    ensures Piece(data[..n], i) == Piece(data, i)
  {
  }

  lemma {:induction false} ChainsAgree(c: Compressor, f: FieldCompressor, data: Bytes, n: nat)
    requires Implements(c, f) && n >= 1
    ensures Num(c.Chain(Elements(data, n))) == f.Chain(Blocks(data, n))
  {
    var es, ns := Elements(data, n), Blocks(data, n);
    NumLeadingZero(Piece(data, n - 1));
    if n == 1 {
      assert es[..0] == [];
    } else {
      ChainsAgree(c, f, data, n - 1);
      assert es[..n - 1] == Elements(data, n - 1) && ns[..n - 1] == Blocks(data, n - 1);
      ChainLength(c, Elements(data, n - 1));
      var a, b := c.Chain(Elements(data, n - 1)), es[n - 1];
      assert Computes(c, f, a, b);
      NumOfBytes(f.H(Num(a), Num(b)), ELEM);
    }
  }

  lemma SamePieces(data: Bytes, n: nat, k: nat)
    requires n <= |data| && forall k :: n <= k < |data| ==> data[k] == 0
    ensures Elements(data[..n], k) == Elements(data, k)
  {
    forall i | 0 <= i < k ensures Elements(data[..n], k)[i] == Elements(data, k)[i] { PrefixPieces(data, n, i); }
  }

  /** The circuit computes the native partial hash of the used bytes, whatever the size of the
      zero-padded buffer and of the last piece. */
  lemma CircuitRefinesNative(c: Compressor, f: FieldCompressor, data: Bytes, n: nat)
    requires Implements(c, f) && 1 <= n <= |data| && forall k :: n <= k < |data| ==> data[k] == 0
    ensures 1 <= PieceCount(n) <= PieceCount(|data|)
    ensures f.Chain(Blocks(data, PieceCount(n))) == Num(c.Chain(Elements(data[..n], PieceCount(n))))
  {
    SamePieces(data, n, PieceCount(n));
    ChainsAgree(c, f, data, PieceCount(n));
  }

  /** Native and circuit checksum of the same bytes. */
  method CompareChecksums(c: Compressor, f: FieldCompressor, data: Bytes, n: nat)
    returns (sums: ExecDataChecksum, partial: Option<nat>)
    requires Implements(c, f) && 1 <= n <= |data| && forall k :: n <= k < |data| ==> data[k] == 0
    ensures partial == Some(Num(sums.partialHash))
    ensures sums.length == n && sums.hash == c.Compress(sums.partialHash, LengthBlock(n))
  {
    sums := NewExecDataChecksum(c, data[..n]);
    partial := ChecksumSnark(f, data, n);
    CircuitRefinesNative(c, f, data, n);
  }
}
