/** Which nodes load records as tree roots. The Annoy builder writes the roots
    last, each as a copy of the top node of one tree, so they share the
    descendant count of the last node. The reader scans the file backwards
    from its last node and keeps every node whose count equals the first
    count it saw, stopping at the first node with another count. */
module Roots {
  import opened Words
  import opened Layouts

  /** The offsets the backwards scan records, starting with the node that ends
      at byte index: m is the count to match, with -1 meaning that no count
      has been seen yet and any count matches. */
  function ScanRoots(file: seq<Byte>, ns: int, index: int, m: int): (r: seq<int>)
    requires 4 <= ns && 0 <= index <= |file|
    decreases index
    ensures forall i :: 0 <= i < |r| ==> 0 <= r[i] && r[i] + ns <= index
  {
    if index < ns then []
    else
      var o := index - ns;
      var k := Int32At(file, o);
      if m == -1 || k == m then [o] + ScanRoots(file, ns, o, k) else []
  }

  /** The node offset where the scan stops: before the last recorded node,
      or at index itself when nothing was recorded. */
  function ScanEnd(index: int, r: seq<int>): int
  {
    if r == [] then index else r[|r| - 1]
  }

  /** The scan records the nodes ending at index, index - ns, ..., one node apart. */
  lemma {:induction false} ScanIsConsecutive(file: seq<Byte>, ns: int, index: int, m: int)
    requires 4 <= ns && 0 <= index <= |file|
    ensures var r := ScanRoots(file, ns, index, m);
            && (r != [] ==> r[0] == index - ns)
            && (forall i :: 0 <= i < |r| - 1 ==> r[i + 1] == r[i] - ns)
    decreases index
  {
    var r := ScanRoots(file, ns, index, m);
    if r != [] {
      var o := index - ns;
      var t := ScanRoots(file, ns, o, Int32At(file, o));
      assert r == [o] + t;
      ScanIsConsecutive(file, ns, o, Int32At(file, o));
      forall i | 0 <= i < |r| - 1 ensures r[i + 1] == r[i] - ns {
        if i > 0 {
          assert r[i + 1] == t[i] && r[i] == t[i - 1];
        }
      }
    }
  }

  /** With a count m other than -1 to match, every recorded node has count m. */
  lemma {:induction false} ScanMatchesCount(file: seq<Byte>, ns: int, index: int, m: int)
    requires 4 <= ns && 0 <= index <= |file| && m != -1
    ensures forall o :: o in ScanRoots(file, ns, index, m) ==> Int32At(file, o) == m
    decreases index
  {
    var r := ScanRoots(file, ns, index, m);
    if r != [] {
      var o := index - ns;
      assert Int32At(file, o) == m;
      var t := ScanRoots(file, ns, o, m);
      assert r == [o] + t;
      ScanMatchesCount(file, ns, o, m);
    }
  }

  /** With a count m other than -1 to match, the scan stops only at the start
      of the file or at a node whose count is not m. */
  lemma {:induction false} ScanStopsAtMismatch(file: seq<Byte>, ns: int, index: int, m: int)
    requires 4 <= ns && 0 <= index <= |file| && m != -1
    ensures var r := ScanRoots(file, ns, index, m);
            ScanEnd(index, r) < ns || Int32At(file, ScanEnd(index, r) - ns) != m
    decreases index
  {
    var r := ScanRoots(file, ns, index, m);
    if r != [] {
      var o := index - ns;
      var t := ScanRoots(file, ns, o, m);
      assert r == [o] + t;
      ScanStopsAtMismatch(file, ns, o, m);
      assert ScanEnd(index, r) == ScanEnd(o, t);
    }
  }

  /** With a count m other than -1 to match, the scan records the nodes ending
      at index, index - ns, ..., one node apart, all of count m, and stops
      only at the start of the file or at a node whose count is not m. */
  lemma ScanIsTrailingRun(file: seq<Byte>, ns: int, index: int, m: int)
    requires 4 <= ns && 0 <= index <= |file| && m != -1
    ensures var r := ScanRoots(file, ns, index, m);
            && (r != [] ==> r[0] == index - ns)
            && (forall i :: 0 <= i < |r| - 1 ==> r[i + 1] == r[i] - ns)
            && (forall i :: 0 <= i < |r| ==> Int32At(file, r[i]) == m)
            && (ScanEnd(index, r) < ns || Int32At(file, ScanEnd(index, r) - ns) != m)
  {
    ScanIsConsecutive(file, ns, index, m);
    ScanMatchesCount(file, ns, index, m);
    ScanStopsAtMismatch(file, ns, index, m);
  }

  /** load's roots for a file of at least one node whose last node has a
      count other than -1: the offsets of the maximal trailing run of nodes
      that share the last node's count, from the last node backwards. */
  lemma {:induction false} RootsAreTrailingRun(file: seq<Byte>, ns: int)
    requires 4 <= ns <= |file|
    requires Int32At(file, |file| - ns) != -1
    ensures var r := ScanRoots(file, ns, |file|, -1);
            var count := Int32At(file, |file| - ns);
            && r != [] && r[0] == |file| - ns
            && (forall i :: 0 <= i < |r| - 1 ==> r[i + 1] == r[i] - ns)
            && (forall i :: 0 <= i < |r| ==> Int32At(file, r[i]) == count)
            && (r[|r| - 1] < ns || Int32At(file, r[|r| - 1] - ns) != count)
  {
    var o := |file| - ns;
    var count := Int32At(file, o);
    var r := ScanRoots(file, ns, |file|, -1);
    var t := ScanRoots(file, ns, o, count);
    assert r == [o] + t;
    ScanIsConsecutive(file, ns, |file|, -1);
    ScanMatchesCount(file, ns, o, count);
    ScanStopsAtMismatch(file, ns, o, count);
    assert ScanEnd(o, t) == r[|r| - 1];
    forall i | 0 < i < |r| ensures Int32At(file, r[i]) == count {
      assert r[i] == t[i - 1];
    }
  }

  /** In a file made of whole nodes every recorded root is a node offset. */
  lemma {:induction false} RootsAreNodeOffsets(file: seq<Byte>, ns: int, index: int, m: int)
    requires 4 <= ns && 0 <= index <= |file| && index % ns == 0
    ensures forall o :: o in ScanRoots(file, ns, index, m) ==> o % ns == 0
    decreases index
  {
    if index >= ns {
      var o := index - ns;
      var q := index / ns;
      assert index == q * ns;
      Distribute(q, -1, ns);
      DivModUnique(o, ns, q - 1, 0);
      RootsAreNodeOffsets(file, ns, o, Int32At(file, o));
    }
  }
}
