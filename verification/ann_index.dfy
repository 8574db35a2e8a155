/** The read-only index: its layout, the buffers the file is split into, the
    roots found when loading, and the reader's operations on them. */
module AnnIndexes {
  import opened Words
  import opened IndexTypes
  import opened Layouts
  import opened Addressing
  import opened Ranking
  import opened Search
  import opened Roots

  /** The first block load maps, for a file made of at least one whole node:
      its number is the last block number, it starts at that block's start,
      and it is made of blockNodes > 0 whole nodes. */
  lemma {:induction false} InitialBlock(l: Layout, fileSize: int) returns (blockNodes: int)
    requires l.WellFormed() && fileSize > 0 && fileSize % l.nodeSize == 0
    ensures var ns, bs := l.nodeSize, l.blockSize;
            var buffIndex := JavaDiv(JavaDiv(fileSize, ns) - 1, l.maxNodesInBuffer);
            var rest := JavaRem(fileSize, bs);
            var blockSize := if rest > 0 then rest else bs;
            && buffIndex == CeilDiv(fileSize, bs) - 1
            && buffIndex * bs == fileSize - blockSize
            && blockSize == blockNodes * ns && 0 < blockNodes
  {
    var ns, bs, mx := l.nodeSize, l.blockSize, l.maxNodesInBuffer;
    var numNodes := fileSize / ns;
    assert fileSize == numNodes * ns;
    assert numNodes >= 1 by {
      if numNodes <= 0 { MulLe(numNodes, 0, ns); }
    }
    var a := numNodes - 1;
    var q, r := a / mx, a % mx;
    assert a == q * mx + r;
    assert 0 <= q by { if q < 0 { MulLe(q, -1, mx); } }
    blockNodes := r + 1;
    var tail := blockNodes * ns;
    // fileSize == q * bs + tail with 0 < tail <= bs
    assert fileSize == q * bs + tail by {
      Distribute(q * mx + r, 1, ns);
      Distribute(q * mx, r, ns);
      Associate(q, mx, ns);
      Distribute(r, 1, ns);
    }
    assert 0 < tail <= bs by {
      MulPositive(blockNodes, ns);
      MulLe(blockNodes, mx, ns);
    }
    if tail < bs {
      DivModUnique(fileSize, bs, q, tail);
    } else {
      Distribute(q, 1, bs);
      DivModUnique(fileSize, bs, q + 1, 0);
    }
    Distribute(q, 1, bs);
    DivModUnique(fileSize + bs - 1, bs, q + 1, tail - 1);
  }

  /** Java's (fileSize / NODE_SIZE - 1) / MAX_NODES_IN_BUFFER is never below -1. */
  lemma BufferCountNotNegative(fileSize: nat, ns: int, mx: int)
    requires 0 < ns && 0 < mx
    ensures -1 <= JavaDiv(JavaDiv(fileSize, ns) - 1, mx)
  {
    var a := fileSize / ns;
    assert fileSize == ns * a + fileSize % ns;
    assert 0 <= a;
    if a >= 1 {
      assert a - 1 == mx * ((a - 1) / mx) + (a - 1) % mx;
    }
  }

  /** The block being mapped is block number buffIndex of the file. */
  ghost predicate BlockAt(bs: int, fileSize: int, buffIndex: int, position: int, blockSize: int)
  {
    position == NodeOffset(buffIndex, bs) && position + blockSize == Min(NodeOffset(buffIndex + 1, bs), fileSize)
  }

  /** Every buffer after buffIndex holds its block of the file. */
  ghost predicate BlocksLoaded(file: seq<Byte>, bs: int, bufs: seq<seq<Byte>>, buffIndex: int)
    requires bs > 0
  {
    forall b: nat :: buffIndex < b < |bufs| ==> b * bs <= |file| && bufs[b] == Block(file, bs, b)
  }

  /** Storing the mapped block at buffIndex extends the loaded buffers down to it. */
  lemma StoreBlock(file: seq<Byte>, bs: int, before: seq<seq<Byte>>, after: seq<seq<Byte>>,
                   buffIndex: int, position: int, blockSize: int)
    requires bs > 0 && 0 <= buffIndex < |before| && 0 <= position <= position + blockSize <= |file|
    requires BlocksLoaded(file, bs, before, buffIndex)
    requires BlockAt(bs, |file|, buffIndex, position, blockSize)
    requires after == before[buffIndex := file[position .. position + blockSize]]
    ensures BlocksLoaded(file, bs, after, buffIndex - 1)
  {
    NodeOffsetIsProduct(buffIndex, bs);
    NodeOffsetIsProduct(buffIndex + 1, bs);
  }

  /** The block before block buffIndex is a full block ending where it starts. */
  lemma NextBlock(bs: int, fileSize: int, buffIndex: int, position: int, blockSize: int)
    requires bs > 0 && BlockAt(bs, fileSize, buffIndex, position, blockSize)
    requires 0 <= blockSize && position + blockSize <= fileSize
    ensures BlockAt(bs, fileSize, buffIndex - 1, position - bs, bs)
  {
    assert NodeOffset(buffIndex - 1, bs) == position - bs;
  }

  /** Block k starts at or after the start of the file exactly when k is not negative. */
  lemma BlockStartSign(k: int, bs: int)
    requires 0 < bs
    ensures 0 <= NodeOffset(k, bs) <==> 0 <= k
  {
    NodeOffsetIsProduct(k, bs);
    if k < 0 { MulLe(k, -1, bs); } else { MulLe(0, k, bs); }
  }

  /** One node of the backwards scan: a match moves the node from the
      pending scan to the recorded roots, a mismatch ends the scan. */
  lemma ScanAdvance(file: seq<Byte>, ns: int, roots: seq<int>, index: int, m: int)
    requires 4 <= ns <= index <= |file|
    ensures var o, k := index - ns, Int32At(file, index - ns);
            if m == -1 || k == m then roots + ScanRoots(file, ns, index, m) == (roots + [o]) + ScanRoots(file, ns, o, k)
            else ScanRoots(file, ns, index, m) == []
  {
  }

  /** x bytes are a whole number of nodes of ns bytes. */
  predicate WholeNodes(x: int, ns: int)
    requires 0 < ns
    decreases x
  {
    x == 0 || (x >= ns && WholeNodes(x - ns, ns))
  }

  lemma {:induction false} ProductIsWholeNodes(n: nat, ns: int)
    requires 0 < ns
    ensures WholeNodes(n * ns, ns)
  {
    if n > 0 {
      ProductIsWholeNodes(n - 1, ns);
      Distribute(n - 1, 1, ns);
      MulLe(1, n, ns);
    }
  }

  /** One node of load's inner loop, read from the mapped block at offset i:
      the node ending at byte index + ns of the file. */
  lemma ScanNode(file: seq<Byte>, ns: int, position: int, annBuf: seq<Byte>, i: int,
                 index: int, m: int, k: int, roots: seq<int>, expected: seq<int>)
    requires 4 <= ns && 0 <= position && position + |annBuf| <= |file|
    requires annBuf == file[position .. position + |annBuf|]
    requires 0 <= i && i + ns <= |annBuf| && index == position + i
    requires k == Int32At(annBuf, i)
    requires expected == roots + ScanRoots(file, ns, index + ns, m)
    ensures m == -1 || k == m ==> expected == (roots + [index]) + ScanRoots(file, ns, index, k)
    ensures !(m == -1 || k == m) ==> expected == roots
  {
    SliceWord(file, position, position + |annBuf|, i);
    ScanAdvance(file, ns, roots, index + ns, m);
  }

  class AnnIndex {
    const layout: Layout
    /** Offsets of the root nodes, in the order load found them. */
    var roots: seq<int>
    /** The file, cut into blocks of layout.blockSize bytes. */
    var buffers: array<seq<Byte>>

    predicate Valid()
    {
      layout.WellFormed()
    }

    function Bufs(): seq<seq<Byte>>
      reads this, buffers
    {
      buffers[..]
    }

    /** The constructor's field initialisation, before it loads the file. */
    constructor (dimension: nat, indexType: IndexType, blockSize: nat)
      requires LayoutFits(dimension, indexType, blockSize)
      ensures Valid() && layout == MakeLayout(dimension, indexType, blockSize)
      ensures roots == [] && buffers.Length == 0
    {
      layout := MakeLayout(dimension, indexType, blockSize);
      roots := [];
      buffers := new seq<Byte>[0];
    }

    /** The full constructor: initialise, then load the file. */
    static method Open(dimension: nat, file: seq<Byte>, indexType: IndexType, blockSize: nat)
      returns (r: Result<AnnIndex>)
      requires LayoutFits(dimension, indexType, blockSize)
      ensures r.Ok? ==> fresh(r.value) && r.value.Valid()
      ensures r.Ok? ==> r.value.layout == MakeLayout(dimension, indexType, blockSize)
      ensures r == Err(ZeroByteFile) <==> |file| == 0
      ensures r.Err? ==> r.error == ZeroByteFile || r.error == OutOfBounds
      ensures |file| > 0 && |file| % NodeSizeFor(dimension, indexType) == 0 ==>
                && r.Ok?
                && IsPartition(r.value.buffers[..], file, r.value.layout.blockSize)
                && r.value.roots == ScanRoots(file, r.value.layout.nodeSize, |file|, -1)
    {
      var index := new AnnIndex(dimension, indexType, blockSize);
      var outcome := index.Load(file);
      if outcome.Fail? {
        return Err(outcome.error);
      }
      return Ok(index);
    }

    /** load: maps the file block by block from its end and, while doing so,
        records as roots the trailing run of nodes that share the last node's
        descendant count. For a file made of whole nodes the buffers are the
        file's consecutive blocks; a file with a partial node at its end can
        need one buffer more than load allocates. */
    method Load(file: seq<Byte>) returns (r: Outcome)
      requires Valid()
      modifies this
      ensures r == Fail(ZeroByteFile) <==> |file| == 0
      // an empty file is refused before anything is mapped
      ensures |file| == 0 ==> buffers == old(buffers) && roots == old(roots)
      ensures r.Fail? ==> r.error == ZeroByteFile || r.error == OutOfBounds
      ensures |file| > 0 && |file| % layout.nodeSize == 0 ==>
                && r == Pass
                && IsPartition(buffers[..], file, layout.blockSize)
                && roots == old(roots) + ScanRoots(file, layout.nodeSize, |file|, -1)
    {
      var ns, bs := layout.nodeSize, layout.blockSize;
      var fileSize := |file|;
      if fileSize == 0 {
        return Fail(ZeroByteFile);
      }
      ghost var aligned := fileSize % ns == 0;
      var buffIndex, blockSize, position := FirstBlock(fileSize);
      var bufs := new seq<Byte>[buffIndex + 1](_ => []);
      buffers := bufs;
      var process := true;
      var m := -1;
      var index := fileSize;
      ProductIsWholeNodes(layout.maxNodesInBuffer, ns);
      while position >= 0
        modifies this`roots, bufs
        invariant 0 < blockSize <= bs && position + blockSize <= fileSize
        invariant -1 <= buffIndex < bufs.Length
        invariant aligned ==> bufs.Length == CeilDiv(fileSize, bs)
        invariant aligned ==> BlockAt(bs, fileSize, buffIndex, position, blockSize)
        invariant aligned ==> WholeNodes(blockSize, ns)
        invariant aligned ==> BlocksLoaded(file, bs, bufs[..], buffIndex)
        invariant aligned ==> 0 <= index <= fileSize && (process ==> index == position + blockSize)
        invariant aligned ==> old(roots) + ScanRoots(file, ns, fileSize, -1) ==
                                roots + (if process then ScanRoots(file, ns, index, m) else [])
        decreases position
      {
        var annBuf := file[position .. position + blockSize];
        if aligned {
          BlockStartSign(buffIndex, bs);
        }
        if buffIndex < 0 {
          return Fail(OutOfBounds);
        }
        index, m, process := MapBlock(bufs, buffIndex, annBuf, index, m, process, file, position, aligned);
        buffIndex := buffIndex - 1;
        if aligned {
          NextBlock(bs, fileSize, buffIndex + 1, position, blockSize);
        }
        blockSize := bs;
        position := position - blockSize;
      }
      if aligned {
        BlockStartSign(buffIndex, bs);
      }
      return Pass;
    }

    /** The last block of the file, which load maps first: its number, its
        size and where it starts. For a file of whole nodes it is block number
        buffIndex of the file and holds a whole number of nodes. */
    method FirstBlock(fileSize: nat) returns (buffIndex: int, blockSize: int, position: int)
      requires Valid() && 0 < fileSize
      ensures -1 <= buffIndex
      ensures 0 < blockSize <= layout.blockSize && position == fileSize - blockSize
      ensures fileSize % layout.nodeSize == 0 ==>
                && buffIndex + 1 == CeilDiv(fileSize, layout.blockSize)
                && BlockAt(layout.blockSize, fileSize, buffIndex, position, blockSize)
                && WholeNodes(blockSize, layout.nodeSize)
    {
      var ns, bs := layout.nodeSize, layout.blockSize;
      var numNodes := JavaDiv(fileSize, ns);
      buffIndex := JavaDiv(numNodes - 1, layout.maxNodesInBuffer);
      var rest := JavaRem(fileSize, bs);
      blockSize := if rest > 0 then rest else bs;
      position := fileSize - blockSize;
      BufferCountNotNegative(fileSize, ns, layout.maxNodesInBuffer);
      if fileSize % ns == 0 {
        var blockNodes := InitialBlock(layout, fileSize);
        NodeOffsetIsProduct(buffIndex, bs);
        NodeOffsetIsProduct(buffIndex + 1, bs);
        Distribute(buffIndex, 1, bs);
        ProductIsWholeNodes(blockNodes, ns);
      }
    }

    /** One iteration of load's outer loop, once the block is mapped: stores
        it as buffer buffIndex and scans its nodes for roots. */
    method MapBlock(bufs: array<seq<Byte>>, buffIndex: int, annBuf: seq<Byte>, index0: int, m0: int, process0: bool,
                    ghost file: seq<Byte>, ghost position: int, ghost aligned: bool)
      returns (index: int, m: int, process: bool)
      requires Valid() && 0 <= buffIndex < bufs.Length
      requires aligned ==>
                 && 0 <= position && position + |annBuf| <= |file|
                 && annBuf == file[position .. position + |annBuf|]
                 && BlockAt(layout.blockSize, |file|, buffIndex, position, |annBuf|)
                 && BlocksLoaded(file, layout.blockSize, bufs[..], buffIndex)
                 && WholeNodes(|annBuf|, layout.nodeSize)
                 && 0 <= index0 <= |file|
                 && (process0 ==> index0 == position + |annBuf|)
      modifies bufs, this`roots
      ensures bufs[..] == old(bufs[..])[buffIndex := annBuf]
      ensures aligned ==>
                && BlocksLoaded(file, layout.blockSize, bufs[..], buffIndex - 1)
                && 0 <= index <= |file|
                && (process ==> index == position)
                && old(roots) + (if process0 then ScanRoots(file, layout.nodeSize, index0, m0) else []) ==
                     roots + (if process then ScanRoots(file, layout.nodeSize, index, m) else [])
    {
      ghost var before := bufs[..];
      bufs[buffIndex] := annBuf;
      if aligned {
        StoreBlock(file, layout.blockSize, before, bufs[..], buffIndex, position, |annBuf|);
      }
      index, m, process := ScanBlock(annBuf, index0, m0, process0, file, position, aligned);
    }

    /** load's inner loop over one mapped block: from the block's last node
        down, while process holds, records the node's offset if its count
        matches m (any count while m is -1) and otherwise stops the scan for
        good. When the block is a run of whole nodes of the file ending at
        index, it records exactly what ScanRoots records from index. */
    method ScanBlock(annBuf: seq<Byte>, index0: int, m0: int, process0: bool,
                     ghost file: seq<Byte>, ghost position: int, ghost aligned: bool)
      returns (index: int, m: int, process: bool)
      requires 4 <= layout.nodeSize  // all the scan needs of Valid()
      requires aligned ==>
                 && 0 <= position && position + |annBuf| <= |file|
                 && annBuf == file[position .. position + |annBuf|]
                 && WholeNodes(|annBuf|, layout.nodeSize)
                 && 0 <= index0 <= |file|
                 && (process0 ==> index0 == position + |annBuf|)
      modifies this`roots
      ensures aligned ==>
                && 0 <= index <= |file|
                && (process ==> index == position)
                && old(roots) + (if process0 then ScanRoots(file, layout.nodeSize, index0, m0) else []) ==
                     roots + (if process then ScanRoots(file, layout.nodeSize, index, m) else [])
    {
      var ns := layout.nodeSize;
      index, m, process := index0, m0, process0;
      ghost var expected := if aligned && process0 then roots + ScanRoots(file, ns, index0, m0) else roots;
      var i := |annBuf| - ns;
      while process && i >= 0
        invariant i + ns <= |annBuf|
        invariant aligned ==> WholeNodes(i + ns, ns)
        invariant aligned ==> 0 <= index <= |file| && (process ==> index == position + i + ns)
        invariant aligned ==> expected == roots + (if process then ScanRoots(file, ns, index, m) else [])
        decreases i
      {
        ghost var next := index;
        index := index - ns;
        var k := Int32At(annBuf, i);
        if aligned {
          assert index + ns == next && expected == roots + ScanRoots(file, ns, next, m);
          ScanNode(file, ns, position, annBuf, i, index, m, k, roots, expected);
        }
        if m == -1 || k == m {
          roots := roots + [index];
          m := k;
        } else {
          process := false;
        }
        i := i - ns;
      }
    }

    /** v[0 .. k) holds the first k floats of the node at nodeOffset. */
    ghost predicate HoldsSlots(nodeOffset: int, v: array<Float32>, k: int)
      reads this, buffers, v
    {
      && Valid() && 0 <= k <= v.Length
      && forall j :: 0 <= j < k ==> NodeFloat(layout, Bufs(), nodeOffset, j) == Ok(v[j])
    }

    /** getNodeVector(nodeOffset, v): copies the node's vector into v[0 ..
        dimension). It fails when the node's buffer does not exist, when a
        float lies outside that buffer, or when v is too short, possibly after
        overwriting a prefix of v; it never touches v beyond the dimension. */
    method FillNodeVector(nodeOffset: int, v: array<Float32>) returns (r: Outcome)
      requires Valid()
      modifies v
      ensures r == Pass <==> NodeVector(layout, Bufs(), nodeOffset).Ok? && layout.dimension <= v.Length
      ensures r.Fail? ==> r.error == OutOfBounds
      ensures r == Pass ==> v[..layout.dimension] == NodeVector(layout, Bufs(), nodeOffset).value
      ensures forall j :: layout.dimension <= j < v.Length ==> v[j] == old(v[j])
      // a failure leaves the floats read before the first unreadable slot (or
      // the end of v) in v, and v from that slot on untouched
      ensures r.Fail? ==>
                exists k :: 0 <= k <= layout.dimension && HoldsSlots(nodeOffset, v, k)
                  && (k == layout.dimension || k == v.Length || NodeFloat(layout, Bufs(), nodeOffset, k).Err?)
                  && (forall j :: k <= j < v.Length ==> v[j] == old(v[j]))
    {
      var b := JavaDiv(nodeOffset, layout.blockSize);
      if b < 0 || b >= buffers.Length {
        assert HoldsSlots(nodeOffset, v, 0);
        assert layout.dimension == 0 || NodeFloat(layout, Bufs(), nodeOffset, 0).Err?;
        return Fail(OutOfBounds);
      }
      var nodeBuf := buffers[b];
      var offset := JavaRem(nodeOffset, layout.blockSize) + layout.headerSize;
      var i := 0;
      while i < layout.dimension
        invariant 0 <= i <= layout.dimension && i <= v.Length
        invariant i > 0 ==> 0 <= offset && offset + 4 * i <= |nodeBuf|
        invariant HoldsSlots(nodeOffset, v, i)
        invariant forall j :: i <= j < v.Length ==> v[j] == old(v[j])
      {
        var pos := offset + 4 * i;
        if pos < 0 || pos + 4 > |nodeBuf| || i >= v.Length {
          assert i == v.Length || NodeFloat(layout, Bufs(), nodeOffset, i).Err?;
          return Fail(OutOfBounds);
        }
        v[i] := Float32At(nodeBuf, pos);
        i := i + 1;
      }
      if layout.dimension > 0 {
        SlotsMakeNodeVector(layout, Bufs(), nodeOffset);
      }
      NodeVectorSlots(layout, Bufs(), nodeOffset);
      return Pass;
    }

    /** getNodeVector(nodeOffset): the node's vector in a new array. */
    method GetNodeVector(nodeOffset: int) returns (r: Result<seq<Float32>>)
      requires Valid()
      ensures r == NodeVector(layout, Bufs(), nodeOffset)
    {
      var v := new Float32[layout.dimension];
      var outcome := FillNodeVector(nodeOffset, v);
      if outcome.Fail? {
        return Err(outcome.error);
      }
      assert v[..] == v[..layout.dimension];
      return Ok(v[..]);
    }

    /** getItemVector(itemIndex, v) with the offset computed on 64-bit longs,
        as getItemVector(itemIndex) does: the item's node vector copied into v. */
    method FillItemVector(itemIndex: int, v: array<Float32>) returns (r: Outcome)
      requires Valid()
      modifies v
      ensures r == Pass <==> ItemVector(layout, Bufs(), itemIndex).Ok? && layout.dimension <= v.Length
      ensures r.Fail? ==> r.error == OutOfBounds
      ensures r == Pass ==> v[..layout.dimension] == ItemVector(layout, Bufs(), itemIndex).value
      ensures forall j :: layout.dimension <= j < v.Length ==> v[j] == old(v[j])
      ensures r.Fail? ==>
                exists k :: 0 <= k <= layout.dimension && HoldsSlots(itemIndex * layout.nodeSize, v, k)
                  && (k == layout.dimension || k == v.Length ||
                      NodeFloat(layout, Bufs(), itemIndex * layout.nodeSize, k).Err?)
                  && (forall j :: k <= j < v.Length ==> v[j] == old(v[j]))
    {
      NodeOffsetIsProduct(itemIndex, layout.nodeSize);
      r := FillNodeVector(itemIndex * layout.nodeSize, v);
    }

    /** getItemVector(itemIndex, v) as the reader writes it: the offset is
        itemIndex * nodeSize in 32-bit int arithmetic, which wraps around for
        items past byte IntMax of the file (see ItemOffsetOverflows). */
    method FillItemVectorAsWritten(itemIndex: int, v: array<Float32>) returns (r: Outcome)
      requires Valid()
      modifies v
      ensures r == Pass <==>
                NodeVector(layout, Bufs(), ItemOffsetAsWritten(itemIndex, layout.nodeSize)).Ok? && layout.dimension <= v.Length
      ensures r.Fail? ==> r.error == OutOfBounds
      ensures r == Pass ==>
                v[..layout.dimension] == NodeVector(layout, Bufs(), ItemOffsetAsWritten(itemIndex, layout.nodeSize)).value
      ensures forall j :: layout.dimension <= j < v.Length ==> v[j] == old(v[j])
      ensures r.Fail? ==>
                var o := ItemOffsetAsWritten(itemIndex, layout.nodeSize);
                exists k :: 0 <= k <= layout.dimension && HoldsSlots(o, v, k)
                  && (k == layout.dimension || k == v.Length || NodeFloat(layout, Bufs(), o, k).Err?)
                  && (forall j :: k <= j < v.Length ==> v[j] == old(v[j]))
    {
      r := FillNodeVector(WrapInt(itemIndex * layout.nodeSize), v);
    }

    /** getItemVector(itemIndex): the item's vector in a new array. */
    method GetItemVector(itemIndex: int) returns (r: Result<seq<Float32>>)
      requires Valid()
      ensures r == ItemVector(layout, Bufs(), itemIndex)
    {
      NodeOffsetIsProduct(itemIndex, layout.nodeSize);
      r := GetNodeVector(itemIndex * layout.nodeSize);
    }

    /** The body of getNearest's loop for the polled entry top. */
    method ExpandNode(top: PQEntry, query: seq<Float32>, ops: FloatOps) returns (r: Result<Expansion>)
      requires Valid()
      ensures r == Expand(layout, Bufs(), ops, query, top)
    {
      var o := top.nodeOffset;
      var nDescendants := ReadInt(layout, Bufs(), o);
      if nDescendants.Err? {
        return Err(nDescendants.error);
      }
      var n := nDescendants.value;
      var vr := GetNodeVector(o);
      if vr.Err? {
        return Err(vr.error);
      }
      var v := vr.value;
      if n == 1 {
        var zero := IsZeroVec(v);
        if zero {
          return Ok(Expansion([], []));
        }
        return Ok(Expansion([], [JavaDiv(o, layout.nodeSize)]));
      } else if n <= layout.minLeafSize {
        var found := ScanLeaf(o, n);
        if found.Err? {
          return Err(found.error);
        }
        return Ok(Expansion([], found.value));
      } else {
        var margin: int;
        if layout.indexType == Angular {
          margin := ops.cosineMargin(v, query);
        } else {
          var bias := ReadFloat(layout, Bufs(), o + 4);
          if bias.Err? {
            return Err(bias.error);
          }
          margin := ops.euclideanMargin(v, query, bias.value);
        }
        var childrenMemOffset := o + layout.childOffset;
        var left := ReadInt(layout, Bufs(), childrenMemOffset);
        if left.Err? {
          return Err(left.error);
        }
        var right := ReadInt(layout, Bufs(), childrenMemOffset + 4);
        if right.Err? {
          return Err(right.error);
        }
        NodeOffsetIsProduct(left.value, layout.nodeSize);
        NodeOffsetIsProduct(right.value, layout.nodeSize);
        return Ok(Expansion([PQEntry(-margin, left.value * layout.nodeSize),
                             PQEntry(margin, right.value * layout.nodeSize)], []));
      }
    }

    /** One slot of getNearest's loop over a leaf: the slot's child as a
        one-element list, or nothing when the child's vector is all zeros. */
    method ReadLeafSlot(o: int, n: int, i: int) returns (r: Result<seq<int>>)
      requires Valid() && 0 <= i < n
      ensures r.Err? ==> LeafIds(layout, Bufs(), o, n, i) == Err(r.error)
      ensures r.Ok? ==> LeafIds(layout, Bufs(), o, n, i) == Prepend(r.value, LeafIds(layout, Bufs(), o, n, i + 1))
    {
      var jr := ReadInt(layout, Bufs(), o + layout.childOffset + 4 * i);
      if jr.Err? {
        LeafSlotUnreadable(layout, Bufs(), o, n, i);
        return Err(jr.error);
      }
      var j := jr.value;
      var vec := GetItemVector(j);
      if vec.Err? {
        LeafChildUnreadable(layout, Bufs(), o, n, i, j);
        return Err(vec.error);
      }
      var zero := IsZeroVec(vec.value);
      LeafSlotRead(layout, Bufs(), o, n, i, j, vec.value);
      PrependTwice([], [], LeafIds(layout, Bufs(), o, n, i + 1));
      return if zero then Ok([]) else Ok([j]);
    }

    /** getNearest's loop over the slots of the leaf at offset o with n
        descendants: the ids whose item vector is not all zeros. */
    method ScanLeaf(o: int, n: int) returns (r: Result<seq<int>>)
      requires Valid()
      ensures r == LeafIds(layout, Bufs(), o, n, 0)
    {
      var found: seq<int> := [];
      var i := 0;
      PrependTwice([], [], LeafIds(layout, Bufs(), o, n, 0));
      while i < n
        invariant 0 <= i
        invariant LeafIds(layout, Bufs(), o, n, 0) == Prepend(found, LeafIds(layout, Bufs(), o, n, i))
        decreases n - i
      {
        var slot := ReadLeafSlot(o, n, i);
        if slot.Err? {
          return Err(slot.error);
        }
        PrependTwice(found, slot.value, LeafIds(layout, Bufs(), o, n, i + 1));
        found := found + slot.value;
        i := i + 1;
      }
      LeafEnd(layout, Bufs(), o, n, i);
      return Ok(found);
    }

    /** One candidate of getNearest's loop over the candidate set: added
        with its score unless its vector is all zeros. */
    method ScoreCandidate(nn: int, entries: seq<PQEntry>, ghost done: set<int>,
                          query: seq<Float32>, ops: FloatOps)
      returns (r: Result<seq<PQEntry>>)
      requires Valid() && ScoredEntries(layout, Bufs(), ops, query, done, entries) && nn !in done
      ensures r.Ok? ==> ScoredEntries(layout, Bufs(), ops, query, done + {nn}, r.value)
      ensures r.Ok? <==> ItemVector(layout, Bufs(), nn).Ok?
      ensures r.Err? ==> r.error == OutOfBounds
    {
      var v := GetItemVector(nn);
      if v.Err? {
        return Err(v.error);
      }
      var zero := IsZeroVec(v.value);
      if !zero {
        AddKeepsScored(layout, Bufs(), ops, query, done, entries, nn);
        return Ok(entries + [PQEntry(Score(layout, ops, v.value, query), nn)]);
      }
      SkipKeepsScored(layout, Bufs(), ops, query, done, entries, nn);
      return Ok(entries);
    }

    /** The loop of getNearest over the candidate set: every candidate whose
        vector is not all zeros becomes an entry with its score. The set's
        iteration order is left open. */
    method ScoreCandidates(cands: set<int>, query: seq<Float32>, ops: FloatOps)
      returns (r: Result<seq<PQEntry>>)
      requires Valid()
      ensures r.Ok? ==> ScoredEntries(layout, Bufs(), ops, query, cands, r.value)
      ensures r.Ok? <==> forall c :: c in cands ==> ItemVector(layout, Bufs(), c).Ok?
      ensures r.Err? ==> r.error == OutOfBounds
    {
      ghost var bufs := Bufs();
      var rest := cands;
      var entries: seq<PQEntry> := [];
      while rest != {}
        invariant rest <= cands
        invariant forall c :: c in cands && c !in rest ==> ItemVector(layout, bufs, c).Ok?
        invariant ScoredEntries(layout, bufs, ops, query, cands - rest, entries)
        decreases rest
      {
        var nn := Pick(rest);
        var next := ScoreCandidate(nn, entries, cands - rest, query, ops);
        if next.Err? {
          return Err(next.error);
        }
        entries := next.value;
        assert cands - (rest - {nn}) == (cands - rest) + {nn};
        rest := rest - {nn};
      }
      return Ok(entries);
    }

    /** The tail of getNearest: scores every candidate whose vector is not all
        zeros, sorts by score and keeps the first nResults ids. */
    method RankCandidates(cands: set<int>, nResults: int, query: seq<Float32>, ops: FloatOps)
      returns (r: Result<seq<int>>)
      requires Valid()
      ensures r.Ok? ==> RankedResult(layout, Bufs(), ops, query, cands, nResults, r.value)
      ensures r == Err(OutOfBounds) <==> exists c :: c in cands && ItemVector(layout, Bufs(), c).Err?
      ensures r == Err(IllegalArgument) <==>
                (forall c :: c in cands ==> ItemVector(layout, Bufs(), c).Ok?) && nResults < 0
      ensures r.Err? ==> r.error == OutOfBounds || r.error == IllegalArgument
    {
      var scored := ScoreCandidates(cands, query, ops);
      if scored.Err? {
        return Err(scored.error);
      }
      var entries := scored.value;
      if nResults < 0 {
        return Err(IllegalArgument);
      }
      var sorted := Sort(entries);
      var result := TakeIds(sorted, nResults);
      SortThenTakeIsRanked(layout, Bufs(), ops, query, cands, entries, nResults);
      return Ok(result);
    }

    /** The queue getNearest starts from: every root with priority p. */
    method SeedQueue(p: int) returns (pq: seq<PQEntry>)
      ensures pq == Seeds(roots, p)
    {
      pq := [];
      var k := 0;
      while k < |roots|
        invariant 0 <= k <= |roots|
        invariant pq == Seeds(roots[..k], p)
      {
        pq := pq + [PQEntry(p, roots[k])];
        k := k + 1;
      }
      assert roots[..k] == roots;
    }

    /** The search loop of getNearest: polls the queue, seeded with the
        roots, until enough candidates are found or the queue is empty. fuel
        bounds the number of polls; the ghost outputs are the states the loop
        went through and the entries it polled. */
    method Explore(query: seq<Float32>, nResults: int, ops: FloatOps, fuel: nat)
      returns (r: Result<set<int>>, ghost states: seq<SearchState>, ghost polls: seq<PQEntry>)
      requires Valid() && roots != []
      ensures IsRun(layout, Bufs(), ops, query, roots, nResults, states, polls) && |polls| <= fuel
      ensures r.Ok? ==>
                && IsCompleteRun(layout, Bufs(), ops, query, roots, nResults, states, polls)
                && r.value == states[|states| - 1].found
      ensures nResults < 0 ==> r == Ok({})
      ensures r == Err(Unfinished) ==> |polls| == fuel && Continues(states[|states| - 1], |roots|, nResults)
      ensures r.Err? ==>
                || r.error == Unfinished
                || (r.error == OutOfBounds && StepFails(layout, Bufs(), ops, query, states[|states| - 1], |roots|, nResults))
    {
      var pq := SeedQueue(ops.maxPriority);
      var nearestNeighbors: set<int> := {};
      states := [SearchState(multiset(pq), nearestNeighbors)];
      polls := [];
      var steps := 0;
      var limit := |roots| * nResults;
      if nResults < 0 {
        MulStrict(nResults, 0, |roots|);
        assert limit < 0;
      }
      while |nearestNeighbors| < limit && pq != []
        invariant IsRun(layout, Bufs(), ops, query, roots, nResults, states, polls)
        invariant states[|states| - 1] == SearchState(multiset(pq), nearestNeighbors)
        invariant steps == |polls| <= fuel
        invariant nResults < 0 ==> nearestNeighbors == {}
        decreases fuel - steps
      {
        if steps == fuel {
          return Err(Unfinished), states, polls;
        }
        var top, rest := PollMax(pq);
        var x := ExpandNode(top, query, ops);
        if x.Err? {
          PollFails(layout, Bufs(), ops, query, pq, top, states[|states| - 1], |roots|, nResults);
          return Err(x.error), states, polls;
        }
        PollStep(layout, Bufs(), ops, query, roots, nResults, states, polls, pq, top, rest, x.value);
        pq := rest + x.value.pushed;
        nearestNeighbors := nearestNeighbors + Elements(x.value.found);
        states := states + [SearchState(multiset(pq), nearestNeighbors)];
        polls := polls + [top];
        steps := steps + 1;
      }
      return Ok(nearestNeighbors), states, polls;
    }

    /** getNearest: best-first search from the roots, then ranking of the
        candidates found. fuel bounds the number of polls; the ghost outputs
        are the states the loop went through and the entries it polled. */
    method GetNearest(query: seq<Float32>, nResults: int, ops: FloatOps, fuel: nat)
      returns (r: Result<seq<int>>, ghost states: seq<SearchState>, ghost polls: seq<PQEntry>)
      requires Valid()
      ensures r == Err(IllegalArgument) <==> roots == [] || nResults < 0
      ensures roots != [] ==> IsRun(layout, Bufs(), ops, query, roots, nResults, states, polls) && |polls| <= fuel
      ensures r.Ok? ==>
                && IsCompleteRun(layout, Bufs(), ops, query, roots, nResults, states, polls)
                && RankedResult(layout, Bufs(), ops, query, states[|states| - 1].found, nResults, r.value)
      ensures r == Err(Unfinished) ==> |polls| == fuel && Continues(states[|states| - 1], |roots|, nResults)
      ensures r == Err(OutOfBounds) ==>
                || StepFails(layout, Bufs(), ops, query, states[|states| - 1], |roots|, nResults)
                || (&& !Continues(states[|states| - 1], |roots|, nResults)
                    && exists c :: c in states[|states| - 1].found && ItemVector(layout, Bufs(), c).Err?)
    {
      if |roots| == 0 {
        return Err(IllegalArgument), [], [];
      }
      var found;
      found, states, polls := Explore(query, nResults, ops, fuel);
      if found.Err? {
        return Err(found.error), states, polls;
      }
      r := RankCandidates(found.value, nResults, query, ops);
    }
  }

  /** Polling the highest entry of the queue and applying its expansion
      extends the run by one step. */
  lemma PollStep(l: Layout, bufs: seq<seq<Byte>>, ops: FloatOps, q: seq<Float32>,
                 roots: seq<int>, nResults: int, states: seq<SearchState>, polls: seq<PQEntry>,
                 pq: seq<PQEntry>, top: PQEntry, rest: seq<PQEntry>, x: Expansion)
    requires l.WellFormed() && IsRun(l, bufs, ops, q, roots, nResults, states, polls)
    requires states[|states| - 1].queue == multiset(pq)
    requires Continues(states[|states| - 1], |roots|, nResults)
    requires top in pq && (forall e :: e in pq ==> e.margin <= top.margin)
    requires multiset(rest) + multiset{top} == multiset(pq)
    requires Expand(l, bufs, ops, q, top) == Ok(x)
    ensures var s := states[|states| - 1];
            IsRun(l, bufs, ops, q, roots, nResults,
                  states + [SearchState(multiset(rest + x.pushed), s.found + Elements(x.found))], polls + [top])
  {
    var s := states[|states| - 1];
    var s' := SearchState(multiset(rest + x.pushed), s.found + Elements(x.found));
    assert multiset(rest + x.pushed) == s.queue - multiset{top} + multiset(x.pushed);
    assert IsStepBy(l, bufs, ops, q, s, top, s');
    RunExtends(l, bufs, ops, q, roots, nResults, states, polls, top, s');
  }

  /** A run extended by one more step is a run. */
  lemma RunExtends(l: Layout, bufs: seq<seq<Byte>>, ops: FloatOps, q: seq<Float32>,
                   roots: seq<int>, nResults: int, states: seq<SearchState>, polls: seq<PQEntry>,
                   top: PQEntry, s': SearchState)
    requires l.WellFormed() && IsRun(l, bufs, ops, q, roots, nResults, states, polls)
    requires Continues(states[|states| - 1], |roots|, nResults)
    requires IsStepBy(l, bufs, ops, q, states[|states| - 1], top, s')
    ensures IsRun(l, bufs, ops, q, roots, nResults, states + [s'], polls + [top])
  {
    var states', polls' := states + [s'], polls + [top];
    forall i | 0 <= i < |polls'|
      ensures Continues(states'[i], |roots|, nResults) && IsStepBy(l, bufs, ops, q, states'[i], polls'[i], states'[i + 1])
    {
      if i < |polls| {
        assert states'[i] == states[i] && states'[i + 1] == states[i + 1] && polls'[i] == polls[i];
      }
    }
  }

  /** An entry of highest margin whose expansion fails makes the next step fail. */
  lemma PollFails(l: Layout, bufs: seq<seq<Byte>>, ops: FloatOps, q: seq<Float32>,
                  pq: seq<PQEntry>, top: PQEntry, s: SearchState, rootCount: nat, nResults: int)
    requires l.WellFormed() && s.queue == multiset(pq) && Continues(s, rootCount, nResults)
    requires top in pq && (forall e :: e in pq ==> e.margin <= top.margin)
    requires Expand(l, bufs, ops, q, top).Err?
    ensures StepFails(l, bufs, ops, q, s, rootCount, nResults)
  {
    assert IsMaxIn(top, s.queue);
  }

  /** Some element of a non-empty set: the next one a HashSet iteration
      yields, in an order this model leaves open. */
  method Pick(s: set<int>) returns (x: int)
    requires s != {}
    ensures x in s
  {
    if forall y :: y !in s {
      assert false;
    }
    x :| x in s;
  }

  /** The last loop of getNearest: the ids of the first n sorted entries, or
      of all of them when there are fewer. */
  method TakeIds(sorted: seq<PQEntry>, n: int) returns (result: seq<int>)
    requires 0 <= n
    ensures result == Ids(sorted)[..Min(n, |sorted|)]
  {
    result := [];
    var i := 0;
    while i < n && i < |sorted|
      invariant 0 <= i <= |sorted| && i <= n
      invariant result == Ids(sorted)[..i]
    {
      result := result + [sorted[i].nodeOffset];
      i := i + 1;
    }
  }

  /** The candidate ids of a leaf seen so far, put in front of the rest. */
  function Prepend(found: seq<int>, r: Result<seq<int>>): (p: Result<seq<int>>)
    ensures p.Err? <==> r.Err?
    ensures p.Ok? ==> |p.value| == |found| + |r.value|
  {
    if r.Ok? then Ok(found + r.value) else r
  }

  lemma LeafEnd(l: Layout, bufs: seq<seq<Byte>>, o: int, n: int, i: int)
    requires l.WellFormed() && n <= i
    ensures forall found :: Prepend(found, LeafIds(l, bufs, o, n, i)) == Ok(found)
  {
    forall found ensures Prepend(found, LeafIds(l, bufs, o, n, i)) == Ok(found) {
      assert found + [] == found;
    }
  }

  lemma PrependTwice(a: seq<int>, b: seq<int>, r: Result<seq<int>>)
    ensures Prepend(a, Prepend(b, r)) == Prepend(a + b, r)
    ensures Prepend([], r) == r
  {
    if r.Ok? {
      assert a + (b + r.value) == (a + b) + r.value;
      assert [] + r.value == r.value;
    }
  }
}
