/** How the reader turns an absolute byte position in the index file into a
    buffer number and an offset inside that buffer, and the reads built on it.
    The buffers are the consecutive blockSize-byte pieces of the file. */
module Addressing {
  import opened Words
  import opened IndexTypes
  import opened Layouts

  /** The exceptions the reader can raise, by kind. */
  datatype Error =
    | ZeroByteFile      // IOException "Index is a 0-byte file?"
    | OutOfBounds       // IndexOutOfBoundsException / ArrayIndexOutOfBoundsException
    | IllegalArgument   // IllegalArgumentException from a collection constructor
    | Unfinished        // the search did not end within its poll budget

  datatype Result<+T> = Ok(value: T) | Err(error: Error)
  {
    predicate IsFailure() { Err? }

    function PropagateFailure<U>(): Result<U>
      requires Err?
    {
      Err(error)
    }

    function Extract(): T
      requires Ok?
    {
      value
    }
  }

  datatype Outcome = Pass | Fail(error: Error)

  function Min(a: int, b: int): int
  {
    if a <= b then a else b
  }

  /** The number of blocks needed to cover n bytes. */
  function CeilDiv(n: nat, d: int): nat
    requires d > 0
  {
    (n + d - 1) / d
  }

  /** Block b of the file: bytes [b * bs, min((b + 1) * bs, |file|)). */
  function Block(file: seq<Byte>, bs: int, b: nat): seq<Byte>
    requires bs > 0 && b * bs <= |file|
  {
    file[b * bs .. Min((b + 1) * bs, |file|)]
  }

  /** bufs splits file into consecutive blocks of bs bytes. */
  ghost predicate IsPartition(bufs: seq<seq<Byte>>, file: seq<Byte>, bs: int)
    requires bs > 0
  {
    && |bufs| == CeilDiv(|file|, bs)
    && forall b: nat {:trigger Block(file, bs, b)} :: b < |bufs| ==> b * bs <= |file| && bufs[b] == Block(file, bs, b)
  }

  /** getIntInAnnBuf: the int at an absolute position, read from buffer
      pos / blockSize at offset pos % blockSize (Java's truncating division). */
  function ReadInt(l: Layout, bufs: seq<seq<Byte>>, pos: int): (r: Result<int>)
    requires l.WellFormed()
    ensures pos < 0 ==> r == Err(OutOfBounds)
    ensures r.Err? ==> r.error == OutOfBounds
  {
    var b := JavaDiv(pos, l.blockSize);
    var i := JavaRem(pos, l.blockSize);
    if b < 0 || b >= |bufs| || i < 0 || i + 4 > |bufs[b]| then Err(OutOfBounds)
    else Ok(Int32At(bufs[b], i))
  }

  /** getFloatInAnnBuf: the float at an absolute position, addressed the same way. */
  function ReadFloat(l: Layout, bufs: seq<seq<Byte>>, pos: int): (r: Result<Float32>)
    requires l.WellFormed()
    ensures pos < 0 ==> r == Err(OutOfBounds)
    ensures r.Err? ==> r.error == OutOfBounds
    ensures r.Ok? <==> ReadInt(l, bufs, pos).Ok?
  {
    var b := JavaDiv(pos, l.blockSize);
    var i := JavaRem(pos, l.blockSize);
    if b < 0 || b >= |bufs| || i < 0 || i + 4 > |bufs[b]| then Err(OutOfBounds)
    else Ok(Float32At(bufs[b], i))
  }

  /** getNodeVector: the dimension floats after the node header. All of them
      are read from the buffer that holds the node's first byte; the read
      fails if any of them lies outside that buffer. */
  function NodeVector(l: Layout, bufs: seq<seq<Byte>>, nodeOffset: int): (r: Result<seq<Float32>>)
    requires l.WellFormed()
    ensures r.Ok? ==> |r.value| == l.dimension
    ensures r.Err? ==> r.error == OutOfBounds
  {
    var b := JavaDiv(nodeOffset, l.blockSize);
    if b < 0 || b >= |bufs| then Err(OutOfBounds)
    else
      var buf := bufs[b];
      var offset := JavaRem(nodeOffset, l.blockSize) + l.headerSize;
      if l.dimension == 0 then Ok([])
      else if offset < 0 || offset + 4 * l.dimension > |buf| then Err(OutOfBounds)
      else Ok(seq(l.dimension, i requires 0 <= i < l.dimension => Float32At(buf, offset + 4 * i)))
  }

  /** The float getNodeVector reads into slot i: from the buffer holding the
      node's first byte, 4 * i bytes past the header. */
  function NodeFloat(l: Layout, bufs: seq<seq<Byte>>, nodeOffset: int, i: nat): (r: Result<Float32>)
    requires l.WellFormed()
    ensures r.Err? ==> r.error == OutOfBounds
  {
    var b := JavaDiv(nodeOffset, l.blockSize);
    if b < 0 || b >= |bufs| then Err(OutOfBounds)
    else
      var buf := bufs[b];
      var pos := JavaRem(nodeOffset, l.blockSize) + l.headerSize + 4 * i;
      if pos < 0 || pos + 4 > |buf| then Err(OutOfBounds) else Ok(Float32At(buf, pos))
  }

  /** A vector getNodeVector can read holds float i in slot i. */
  lemma NodeVectorSlots(l: Layout, bufs: seq<seq<Byte>>, nodeOffset: int)
    requires l.WellFormed() && NodeVector(l, bufs, nodeOffset).Ok?
    ensures forall i :: 0 <= i < l.dimension ==>
              NodeFloat(l, bufs, nodeOffset, i) == Ok(NodeVector(l, bufs, nodeOffset).value[i])
  {
    var b := JavaDiv(nodeOffset, l.blockSize);
    var offset := JavaRem(nodeOffset, l.blockSize) + l.headerSize;
    forall i | 0 <= i < l.dimension
      ensures NodeFloat(l, bufs, nodeOffset, i) == Ok(NodeVector(l, bufs, nodeOffset).value[i])
    {
      assert 0 <= offset + 4 * i && offset + 4 * i + 4 <= |bufs[b]|;
    }
  }

  /** A vector of positive dimension whose every float can be read can be
      read as a whole: the first and the last float bound the rest. */
  lemma SlotsMakeNodeVector(l: Layout, bufs: seq<seq<Byte>>, nodeOffset: int)
    requires l.WellFormed() && l.dimension > 0
    requires forall i :: 0 <= i < l.dimension ==> NodeFloat(l, bufs, nodeOffset, i).Ok?
    ensures NodeVector(l, bufs, nodeOffset).Ok?
  {
    assert NodeFloat(l, bufs, nodeOffset, 0).Ok?;
    assert NodeFloat(l, bufs, nodeOffset, l.dimension - 1).Ok?;
  }

  /** The offset of node number k when nodes take ns bytes, stepping from
      node 0 one node at a time; NodeOffsetIsProduct shows it is k * ns.
      Definitions that compute offsets (ItemVector, Expand, the block
      positions of load) use this form rather than the product of two
      variables: the solver then reasons about those definitions in linear
      arithmetic, and a proof that needs the product asks for it by calling
      NodeOffsetIsProduct. */
  function NodeOffset(k: int, ns: int): int
    decreases if k < 0 then -k else k
  {
    if k == 0 then 0
    else if k > 0 then NodeOffset(k - 1, ns) + ns
    else NodeOffset(k + 1, ns) - ns
  }

  lemma {:induction false} NodeOffsetIsProduct(k: int, ns: int)
    ensures NodeOffset(k, ns) == k * ns
    decreases if k < 0 then -k else k
  {
    if k > 0 {
      NodeOffsetIsProduct(k - 1, ns);
    } else if k < 0 {
      NodeOffsetIsProduct(k + 1, ns);
    }
  }

  /** getItemVector: the vector of the node whose offset is itemIndex * nodeSize,
      computed on 64-bit longs. */
  function ItemVector(l: Layout, bufs: seq<seq<Byte>>, itemIndex: int): (r: Result<seq<Float32>>)
    requires l.WellFormed()
    ensures r == NodeVector(l, bufs, itemIndex * l.nodeSize)
  {
    NodeOffsetIsProduct(itemIndex, l.nodeSize);
    NodeVector(l, bufs, NodeOffset(itemIndex, l.nodeSize))
  }

  /** getItemVector(itemIndex, v) as written: the offset itemIndex * nodeSize
      is computed in 32-bit int arithmetic and only then widened to a long. */
  function ItemOffsetAsWritten(itemIndex: int, ns: int): (o: int)
    ensures -0x8000_0000 <= o <= IntMax
  {
    WrapInt(itemIndex * ns)
  }

  /** The 32-bit offset agrees with the 64-bit one exactly while the product
      fits in an int. */
  lemma ItemOffsetAgreesWhileInRange(itemIndex: int, ns: int)
    ensures ItemOffsetAsWritten(itemIndex, ns) == NodeOffset(itemIndex, ns)
            <==> -0x8000_0000 <= itemIndex * ns <= IntMax
  {
    NodeOffsetIsProduct(itemIndex, ns);
  }

  /** For 40-dimensional angular nodes of 172 bytes and the default block
      size, item 12,500,000 starts at byte 2,150,000,000 of the file, but the
      32-bit offset wraps to -2,144,967,296 and the read fails whatever the
      buffers hold. */
  lemma ItemOffsetOverflows(bufs: seq<seq<Byte>>)
    ensures var l := MakeLayout(40, Angular, 0);
            && l.nodeSize == 172
            && NodeOffset(12_500_000, l.nodeSize) == 2_150_000_000
            && ItemOffsetAsWritten(12_500_000, l.nodeSize) == -2_144_967_296
            && NodeVector(l, bufs, ItemOffsetAsWritten(12_500_000, l.nodeSize)) == Err(OutOfBounds)
  {
    DefaultAngularLayout(40);
    NodeOffsetIsProduct(12_500_000, 172);
    WrappedItemOffset();
    NegativeOffsetFails(MakeLayout(40, Angular, 0), bufs, -2_144_967_296);
  }

  /** With the default block size parameter, a buffer holds
      Integer.MAX_VALUE / NODE_SIZE nodes, the most whose bytes fit in an int. */
  lemma DefaultLayout(d: nat, t: IndexType)
    requires LayoutFits(d, t, 0)
    ensures var l := MakeLayout(d, t, 0);
            && l.nodeSize == NodeSizeFor(d, t)
            && l.maxNodesInBuffer == IntMax / l.nodeSize
            && l.blockSize == l.maxNodesInBuffer * l.nodeSize
            && l.blockSize <= IntMax < l.blockSize + l.nodeSize
  {
  }

  /** The default layout of d-dimensional angular nodes for d = 40: 172-byte
      nodes, 12,485,370 of them per block. The dimension is a parameter fixed
      by the precondition, not a literal, because the verifier evaluates
      MakeLayout eagerly on literal arguments, and that evaluation is
      expensive. */
  lemma DefaultAngularLayout(d: nat)
    requires d == 40
    ensures MakeLayout(d, Angular, 0).nodeSize == 172
    ensures MakeLayout(d, Angular, 0).blockSize == 2_147_483_640
  {
    DefaultLayout(d, Angular);
    DivModUnique(IntMax, 172, 12_485_370, 7);
  }

  lemma WrappedItemOffset()
    ensures ItemOffsetAsWritten(12_500_000, 172) == -2_144_967_296
  {
    assert 12_500_000 * 172 == 2_150_000_000;
  }

  /** A negative node offset within one block of the start of the file
      addresses buffer 0 at a negative position. */
  lemma NegativeOffsetFails(l: Layout, bufs: seq<seq<Byte>>, o: int)
    requires l.WellFormed() && l.dimension > 0 && -l.blockSize < o && o + l.headerSize < 0
    ensures NodeVector(l, bufs, o) == Err(OutOfBounds)
  {
  }

  /** getItemVector on an item whose node, at offset o == itemIndex *
      nodeSize, lies inside the file reads that node's vector from the file. */
  lemma {:induction false} ItemVectorMatchesFile(l: Layout, bufs: seq<seq<Byte>>, file: seq<Byte>,
                                                 itemIndex: int, o: int)
    requires l.WellFormed() && IsPartition(bufs, file, l.blockSize)
    requires o == itemIndex * l.nodeSize && 0 <= o && o + l.nodeSize <= |file|
    ensures ItemVector(l, bufs, itemIndex).Ok?
    ensures forall i :: 0 <= i < l.dimension ==>
              ItemVector(l, bufs, itemIndex).value[i] == Float32At(file, o + l.headerSize + 4 * i)
  {
    NodeOffsetIsProduct(itemIndex, l.nodeSize);
    DivModUnique(o, l.nodeSize, itemIndex, 0);
    NodeVectorMatchesFile(l, bufs, file, o);
  }

  /** CeilDiv(n, d) blocks of d bytes are just enough to cover n bytes. */
  lemma CeilDivBounds(n: nat, d: int)
    requires n > 0 && d > 0
    ensures (CeilDiv(n, d) - 1) * d < n <= CeilDiv(n, d) * d
  {
    var nb := CeilDiv(n, d);
    assert n + d - 1 == nb * d + (n + d - 1) % d;
    Distribute(nb, -1, d);
  }

  lemma MulLe(a: int, b: int, c: int)
    requires a <= b && 0 < c
    ensures a * c <= b * c
  {
    if a < b { MulStrict(a, b, c); }
  }

  /** No blocks cover an empty file, and at least one covers any other. */
  lemma CeilDivEmpty(n: nat, d: int)
    requires d > 0
    ensures CeilDiv(n, d) == 0 <==> n == 0
  {
    if n == 0 {
      DivModUnique(d - 1, d, 0, d - 1);
    } else {
      CeilDivBounds(n, d);
    }
  }

  /** Block b of a CeilDiv partition starts inside the file. */
  lemma BlockStartsInFile(n: nat, d: int, b: nat)
    requires n > 0 && d > 0 && b < CeilDiv(n, d)
    ensures b * d < n
  {
    CeilDivBounds(n, d);
    MulLe(b, CeilDiv(n, d) - 1, d);
  }

  /** The block holding a position inside the file is one of the partition's blocks. */
  lemma PositionHasBlock(n: nat, d: int, pos: int)
    requires d > 0 && 0 <= pos < n
    ensures pos / d < CeilDiv(n, d)
  {
    CeilDivBounds(n, d);
    var b := pos / d;
    assert b * d <= pos by { assert pos == b * d + pos % d; }
    if b >= CeilDiv(n, d) {
      MulLe(CeilDiv(n, d), b, d);
    }
  }

  /** A 4-aligned position's word does not straddle a block boundary. */
  lemma AlignedWordInBlock(pos: int, bs: int)
    requires 0 <= pos && pos % 4 == 0 && bs > 0 && bs % 4 == 0
    ensures pos % bs + 4 <= bs
  {
    var b, i := pos / bs, pos % bs;
    assert pos == b * bs + i;
    var p, c := pos / 4, bs / 4;
    assert pos == 4 * p && bs == 4 * c;
    assert b * bs == 4 * (b * c) by { Associate(b, c, 4); }
    assert i == 4 * (p - b * c);
  }

  /** Blocks, nodes and words are all 4-aligned. */
  lemma BlockSizeAligned(l: Layout)
    requires l.WellFormed()
    ensures l.blockSize % 4 == 0 && l.nodeSize % 4 == 0
  {
    var w := l.headerSize / 4 + l.dimension;
    assert l.nodeSize == 4 * w;
    assert l.blockSize == 4 * (l.maxNodesInBuffer * w) by { Associate(l.maxNodesInBuffer, w, 4); }
  }

  /** Only the last block may be short, and it holds |file| % bs bytes when that is not zero. */
  lemma {:induction false} BlockLengths(file: seq<Byte>, bs: int, b: nat)
    requires bs > 0 && |file| > 0
    requires b < CeilDiv(|file|, bs)
    ensures b * bs < |file|
    ensures b + 1 < CeilDiv(|file|, bs) ==> |Block(file, bs, b)| == bs
    ensures b + 1 == CeilDiv(|file|, bs) ==>
              |Block(file, bs, b)| == (if |file| % bs == 0 then bs else |file| % bs)
  {
    var n, nb := |file|, CeilDiv(|file|, bs);
    BlockStartsInFile(n, bs, b);
    CeilDivBounds(n, bs);
    Distribute(b, 1, bs);
    if b + 1 < nb {
      BlockStartsInFile(n, bs, b + 1);
    } else {
      // the last block starts at (nb - 1) * bs, the largest multiple of bs below n
      assert b * bs < n <= b * bs + bs;
      if n == b * bs + bs {
        DivModUnique(n, bs, b + 1, 0);
      } else {
        DivModUnique(n, bs, b, n - b * bs);
      }
    }
  }

  /** Where an aligned word lands in a file of n bytes cut into blocks of bs
      bytes: block b, offset i inside it, the block spanning [lo, hi). */
  lemma WordAddress(pos: int, bs: int, n: nat) returns (b: nat, i: int, lo: int, hi: int)
    requires 0 <= pos && pos % 4 == 0 && bs > 0 && bs % 4 == 0
    ensures b == pos / bs && i == pos % bs && lo == b * bs && hi == Min((b + 1) * bs, n)
    ensures pos == lo + i && 0 <= i && i + 4 <= bs
    ensures pos + 4 <= n ==> b < CeilDiv(n, bs) && 0 <= lo <= hi <= n
    ensures pos + 4 <= n <==> i + 4 <= hi - lo
  {
    var q := pos / bs;
    i := pos % bs;
    assert pos == q * bs + i;
    assert 0 <= q by {
      if q < 0 { MulLe(q, -1, bs); }
    }
    b := q;
    lo := b * bs;
    assert 0 <= lo by { MulLe(0, b, bs); }
    AlignedWordInBlock(pos, bs);
    assert (b + 1) * bs == lo + bs by { Distribute(b, 1, bs); }
    hi := Min((b + 1) * bs, n);
    if pos + 4 <= n {
      PositionHasBlock(n, bs, pos);
    }
  }

  /** Reading an int through the buffers reads the file: an aligned position
      inside the file reads the file's int there, any other aligned position
      fails. */
  lemma {:induction false} ReadIntMatchesFile(l: Layout, bufs: seq<seq<Byte>>, file: seq<Byte>, pos: int)
    requires l.WellFormed() && IsPartition(bufs, file, l.blockSize)
    requires 0 <= pos && pos % 4 == 0
    ensures ReadInt(l, bufs, pos) ==
              if pos + 4 <= |file| then Ok(Int32At(file, pos)) else Err(OutOfBounds)
  {
    BlockSizeAligned(l);
    var b, i, lo, hi := WordAddress(pos, l.blockSize, |file|);
    CeilDivEmpty(|file|, l.blockSize);
    if b < |bufs| {
      BlockStartsInFile(|file|, l.blockSize, b);
      assert bufs[b] == Block(file, l.blockSize, b);
      if pos + 4 <= |file| {
        SliceWord(file, lo, hi, i);
      }
    }
  }

  /** Reading a float through the buffers reads the file: an aligned position
      inside the file reads the file's float there, any other aligned position
      fails. */
  lemma {:induction false} ReadFloatMatchesFile(l: Layout, bufs: seq<seq<Byte>>, file: seq<Byte>, pos: int)
    requires l.WellFormed() && IsPartition(bufs, file, l.blockSize)
    requires 0 <= pos && pos % 4 == 0
    ensures ReadFloat(l, bufs, pos) ==
              if pos + 4 <= |file| then Ok(Float32At(file, pos)) else Err(OutOfBounds)
  {
    BlockSizeAligned(l);
    var b, i, lo, hi := WordAddress(pos, l.blockSize, |file|);
    CeilDivEmpty(|file|, l.blockSize);
    if b < |bufs| {
      BlockStartsInFile(|file|, l.blockSize, b);
      assert bufs[b] == Block(file, l.blockSize, b);
      if pos + 4 <= |file| {
        SliceWord(file, lo, hi, i);
      }
    }
  }

  /** A field at a 4-aligned byte f of a node that starts at a multiple of
      the node size is itself 4-aligned. */
  lemma NodeFieldAligned(l: Layout, o: int, f: int)
    requires l.WellFormed() && o % l.nodeSize == 0 && f % 4 == 0
    ensures (o + f) % 4 == 0
  {
    var k, w := o / l.nodeSize, l.headerSize / 4 + l.dimension;
    assert o == k * l.nodeSize && l.nodeSize == 4 * w;
    assert o == 4 * (k * w) by { Associate(k, w, 4); }
    assert o + f == 4 * (k * w + f / 4);
  }

  /** A 4-aligned field of a node inside the file reads the file's word there,
      both as an int and as a float. */
  lemma NodeFieldMatchesFile(l: Layout, bufs: seq<seq<Byte>>, file: seq<Byte>, o: int, f: int, pos: int)
    requires l.WellFormed() && IsPartition(bufs, file, l.blockSize)
    requires 0 <= o && o % l.nodeSize == 0 && o + l.nodeSize <= |file|
    requires 0 <= f && f % 4 == 0 && f + 4 <= l.nodeSize && pos == o + f
    ensures ReadInt(l, bufs, pos) == Ok(Int32At(file, pos))
    ensures ReadFloat(l, bufs, pos) == Ok(Float32At(file, pos))
  {
    NodeFieldAligned(l, o, f);
    ReadIntMatchesFile(l, bufs, file, pos);
    ReadFloatMatchesFile(l, bufs, file, pos);
  }

  /** Where a node that starts at a multiple of the node size lands: the
      whole node lies in the block [lo, hi) of its first byte, at offset f. */
  lemma NodeAddress(l: Layout, o: int, n: nat) returns (b: nat, f: int, lo: int, hi: int)
    requires l.WellFormed()
    requires 0 <= o && o % l.nodeSize == 0 && o + l.nodeSize <= n
    ensures b == o / l.blockSize && f == o % l.blockSize
    ensures lo == b * l.blockSize && hi == Min((b + 1) * l.blockSize, n)
    ensures o == lo + f && 0 <= f && b < CeilDiv(n, l.blockSize)
    ensures 0 <= lo <= hi <= n && f + l.nodeSize <= hi - lo
  {
    var bs := l.blockSize;
    b, f := o / bs, o % bs;
    lo, hi := b * bs, Min((b + 1) * bs, n);
    assert o == b * bs + f;
    FieldInNodeBlock(l, o, l.nodeSize - 1);
    PositionHasBlock(n, bs, o);
    Distribute(b, 1, bs);
  }

  /** getNodeVector on a node that starts at a multiple of the node size and
      lies inside the file sets element i to the float at absolute position
      nodeOffset + header + 4 * i. */
  lemma {:induction false} NodeVectorMatchesFile(l: Layout, bufs: seq<seq<Byte>>, file: seq<Byte>,
                                                 nodeOffset: int)
    requires l.WellFormed() && IsPartition(bufs, file, l.blockSize)
    requires 0 <= nodeOffset && nodeOffset % l.nodeSize == 0
    requires nodeOffset + l.nodeSize <= |file|
    ensures NodeVector(l, bufs, nodeOffset).Ok?
    ensures forall i :: 0 <= i < l.dimension ==>
              NodeVector(l, bufs, nodeOffset).value[i] == Float32At(file, nodeOffset + l.headerSize + 4 * i)
  {
    var b, f, lo, hi := NodeAddress(l, nodeOffset, |file|);
    assert bufs[b] == Block(file, l.blockSize, b);
    forall i | 0 <= i < l.dimension
      ensures NodeVector(l, bufs, nodeOffset).value[i] == Float32At(file, nodeOffset + l.headerSize + 4 * i)
    {
      SliceWord(file, lo, hi, f + l.headerSize + 4 * i);
    }
  }
}
