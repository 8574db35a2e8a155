/** The on-disk node format the reader derives from the dimension and the
    metric, and the size of the buffers it maps the file into. */
module Layouts {
  import opened Words
  import opened IndexTypes

  datatype Layout = Layout(
    dimension: nat,          // floats per vector
    indexType: IndexType,
    childOffset: int,        // where a split node's children (or a leaf's ids) start
    headerSize: int,         // where the vector starts
    minLeafSize: int,        // the most ids a leaf node holds
    nodeSize: int,           // bytes per node
    maxNodesInBuffer: int,   // nodes per mapped buffer
    blockSize: int)          // bytes per mapped buffer
  {
    /** What the rest of the model relies on. */
    predicate WellFormed()
    {
      && 4 <= childOffset && childOffset % 4 == 0
      && childOffset + 8 <= headerSize && headerSize % 4 == 0
      && nodeSize == headerSize + 4 * dimension
      && childOffset + 4 * minLeafSize == nodeSize
      && 0 < maxNodesInBuffer
      && blockSize == maxNodesInBuffer * nodeSize
      && blockSize <= IntMax
    }
  }

  /** The child offset the reader hardcodes: 4 for angular, 8 for anything else. */
  function ReaderChildOffset(t: IndexType): int
  {
    if t == Angular then 4 else 8
  }

  /** The header size the reader hardcodes: 12 for angular, 16 for anything else. */
  function ReaderHeaderSize(t: IndexType): int
  {
    if t == Angular then 12 else 16
  }

  function NodeSizeFor(dimension: nat, t: IndexType): int
  {
    ReaderHeaderSize(t) + 4 * dimension
  }

  /** The sizes the constructor computes fit in Java ints. A non-zero block
      size parameter is a node count that the reader multiplies by the node
      size twice. */
  predicate LayoutFits(dimension: nat, t: IndexType, blockSizeParam: nat)
  {
    && NodeSizeFor(dimension, t) <= IntMax
    && (blockSizeParam == 0 ||
        blockSizeParam * NodeSizeFor(dimension, t) * NodeSizeFor(dimension, t) <= IntMax)
  }

  lemma MulPositive(a: int, b: int)
    requires 0 < a && 0 < b
    ensures a <= a * b && b <= a * b
  {
  }

  /** The constructor's layout arithmetic. */
  function MakeLayout(dimension: nat, t: IndexType, blockSizeParam: nat): (l: Layout)
    requires LayoutFits(dimension, t, blockSizeParam)
    ensures l.WellFormed()
    ensures l.dimension == dimension && l.indexType == t
    ensures l.minLeafSize == dimension + 2
    ensures l.nodeSize == l.headerSize + 4 * dimension
    ensures l.headerSize == (if t == Angular then 12 else 16)
    ensures l.childOffset == (if t == Angular then 4 else 8)
    // a full leaf list of minLeafSize ids ends exactly where the node ends
    ensures l.childOffset + 4 * l.minLeafSize == l.nodeSize
    // the block is a positive multiple of the node size that fits in an int
    ensures 0 < l.nodeSize <= l.blockSize <= IntMax && l.blockSize % l.nodeSize == 0
    // with the default block size, the largest such multiple
    ensures blockSizeParam == 0 ==> IntMax - l.nodeSize < l.blockSize
    ensures blockSizeParam > 0 ==> l.maxNodesInBuffer == blockSizeParam * l.nodeSize
  {
    var childOffset := ReaderChildOffset(t);
    var headerSize := ReaderHeaderSize(t);
    var nodeSize := headerSize + 4 * dimension;
    var maxNodes := if blockSizeParam == 0 then IntMax / nodeSize else blockSizeParam * nodeSize;
    var blockSize := maxNodes * nodeSize;
    BlockSizeBounds(nodeSize, blockSizeParam, maxNodes, blockSize);
    Layout(dimension, t, childOffset, headerSize, dimension + 2, nodeSize, maxNodes, blockSize)
  }

  /** The block size is a positive multiple of the node size within int range,
      and for the default parameter the largest such multiple. */
  lemma BlockSizeBounds(nodeSize: int, blockSizeParam: nat, maxNodes: int, blockSize: int)
    requires 0 < nodeSize <= IntMax
    requires blockSizeParam == 0 || blockSizeParam * nodeSize * nodeSize <= IntMax
    requires maxNodes == if blockSizeParam == 0 then IntMax / nodeSize else blockSizeParam * nodeSize
    requires blockSize == maxNodes * nodeSize
    ensures 0 < maxNodes && nodeSize <= blockSize <= IntMax && blockSize % nodeSize == 0
    ensures blockSizeParam == 0 ==> IntMax - nodeSize < blockSize
  {
    if blockSizeParam == 0 {
      assert IntMax == nodeSize * maxNodes + IntMax % nodeSize;
      assert 0 < maxNodes;
    } else {
      MulPositive(blockSizeParam, nodeSize);
    }
    MulPositive(maxNodes, nodeSize);
    DivModUnique(blockSize, nodeSize, maxNodes, 0);
  }

  /** The reader's hardcoded constants agree with the ones IndexType declares
      exactly for ANGULAR and EUCLIDEAN. */
  lemma ReaderAgreesWithIndexType(t: IndexType)
    ensures ReaderChildOffset(t) == t.Offset() && ReaderHeaderSize(t) == t.KNodeHeaderStyle()
            <==> t != Dot
  {
  }

  /** For DOT the reader looks for the children at byte 8 while IndexType
      declares them at byte 4. */
  lemma DotChildOffsetDisagrees()
    ensures ReaderChildOffset(Dot) == 8 && Dot.Offset() == 4
    ensures ReaderHeaderSize(Dot) == Dot.KNodeHeaderStyle()
  {
  }

  /** Multiplying both sides of a strict inequality by a positive number. */
  lemma MulStrict(a: int, b: int, c: int)
    requires a < b && 0 < c
    ensures a * c < b * c
  {
    assert b * c - a * c == (b - a) * c;
    MulPositive(b - a, c);
  }

  lemma Distribute(a: int, b: int, c: int)
    ensures (a + b) * c == a * c + b * c
  {
  }

  lemma Associate(a: int, b: int, c: int)
    ensures (a * b) * c == a * (b * c)
  {
  }

  /** A node that starts at a multiple of the node size lies wholly inside one
      block: every field at byte f < nodeSize of it has the node's block number
      and sits f bytes after the node's offset within that block. */
  lemma {:induction false} FieldInNodeBlock(l: Layout, o: int, f: int)
    requires l.WellFormed()
    requires 0 <= o && o % l.nodeSize == 0
    requires 0 <= f < l.nodeSize
    ensures (o + f) / l.blockSize == o / l.blockSize
    ensures (o + f) % l.blockSize == o % l.blockSize + f
  {
    var ns, m, bs := l.nodeSize, l.maxNodesInBuffer, l.blockSize;
    var k := o / ns;
    assert o == k * ns;
    var q, r := k / m, k % m;
    assert k == q * m + r && 0 <= r < m;
    var rn := r * ns;
    assert o == q * bs + rn by {
      Distribute(q * m, r, ns);
      Associate(q, m, ns);
    }
    assert rn + ns <= bs by {
      Distribute(r, 1, ns);
      if r + 1 < m { MulStrict(r + 1, m, ns); }
    }
    assert 0 <= rn by { if r > 0 { MulPositive(r, ns); } }
    DivModUnique(o, bs, q, rn);
    DivModUnique(o + f, bs, q, rn + f);
  }

  /** Division and remainder are determined by a decomposition a == q * d + r. */
  lemma DivModUnique(a: int, d: int, q: int, r: int)
    requires 0 < d && 0 <= r < d && a == q * d + r
    ensures a / d == q && a % d == r
  {
    var q', r' := a / d, a % d;
    assert (q - q') * d == r' - r by { Distribute(q, -q', d); }
    if q - q' >= 1 {
      MulPositive(q - q', d);
      assert false;
    } else if q' - q >= 1 {
      MulPositive(q' - q, d);
      Distribute(q', -q, d);
      assert false;
    }
  }
}
