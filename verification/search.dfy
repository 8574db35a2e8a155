/** The best-first traversal getNearest performs, as a specification: what
    one poll of the queue does, which sequences of polls are runs of the
    search, and which results a finished search may return. The class in
    AnnIndexes implements it with loops over the same definitions. */
module Search {
  import opened Words
  import opened IndexTypes
  import opened Layouts
  import opened Addressing
  import opened Ranking

  /** The floating-point computations of the reader, which this model does
      not interpret: margins and distances map vectors to keys of an ordered
      type, and maxPriority stands for the float 1e30. */
  datatype FloatOps = FloatOps(
    cosineMargin: (seq<Float32>, seq<Float32>) -> int,
    euclideanMargin: (seq<Float32>, seq<Float32>, Float32) -> int,
    euclideanDistance: (seq<Float32>, seq<Float32>) -> int,
    maxPriority: int)

  /** The score of a candidate vector: its cosine margin for angular indexes,
      minus its distance otherwise, so a higher score is a nearer item. */
  function Score(l: Layout, ops: FloatOps, v: seq<Float32>, q: seq<Float32>): int
  {
    if l.indexType == Angular then ops.cosineMargin(v, q) else -ops.euclideanDistance(v, q)
  }

  /** Scores order vectors by closeness to the query: by cosine margin for
      angular indexes, and by reversed distance otherwise. */
  lemma ScoreOrder(l: Layout, ops: FloatOps, q: seq<Float32>, v: seq<Float32>, w: seq<Float32>)
    ensures l.indexType == Angular ==>
              (Score(l, ops, v, q) < Score(l, ops, w, q) <==> ops.cosineMargin(v, q) < ops.cosineMargin(w, q))
    ensures l.indexType != Angular ==>
              (Score(l, ops, v, q) < Score(l, ops, w, q) <==> ops.euclideanDistance(w, q) < ops.euclideanDistance(v, q))
  {
  }

  /** The margin of a split node: cosine for angular indexes, otherwise the
      euclidean margin with the bias stored right after the descendant count. */
  function SplitMargin(l: Layout, bufs: seq<seq<Byte>>, ops: FloatOps, q: seq<Float32>,
                       o: int, v: seq<Float32>): (r: Result<int>)
    requires l.WellFormed()
    ensures r.Err? ==> r.error == OutOfBounds && l.indexType != Angular
  {
    if l.indexType == Angular then Ok(ops.cosineMargin(v, q))
    else
      var bias :- ReadFloat(l, bufs, o + 4);
      Ok(ops.euclideanMargin(v, q, bias))
  }

  /** An item the search may report: its vector can be read and is not all zeros. */
  predicate Eligible(l: Layout, bufs: seq<seq<Byte>>, id: int)
    requires l.WellFormed()
  {
    ItemVector(l, bufs, id).Ok? && !ZeroVector(ItemVector(l, bufs, id).value)
  }

  /** The score of an item, or 0 for an item whose vector cannot be read. */
  function ScoreOf(l: Layout, bufs: seq<seq<Byte>>, ops: FloatOps, q: seq<Float32>, id: int): int
    requires l.WellFormed()
  {
    var v := ItemVector(l, bufs, id);
    if v.Ok? then Score(l, ops, v.value, q) else 0
  }

  /** The ids a leaf node at offset o lists in its slots i .. n-1, skipping the
      items whose vector is all zeros. */
  function LeafIds(l: Layout, bufs: seq<seq<Byte>>, o: int, n: int, i: int): (r: Result<seq<int>>)
    requires l.WellFormed()
    decreases n - i
    ensures r.Err? ==> r.error == OutOfBounds
    ensures r.Ok? ==> |r.value| <= if i < n then n - i else 0
    ensures r.Ok? ==> forall id :: id in r.value ==> Eligible(l, bufs, id)
  {
    if i >= n then Ok([])
    else
      var j :- ReadInt(l, bufs, o + l.childOffset + 4 * i);
      var vec :- ItemVector(l, bufs, j);
      var rest :- LeafIds(l, bufs, o, n, i + 1);
      if ZeroVector(vec) then Ok(rest) else Ok([j] + rest)
  }

  /** A leaf contributes every id it lists in slots i .. n-1 whose item
      vector is readable and not all zeros. */
  lemma {:induction false} LeafIdsComplete(l: Layout, bufs: seq<seq<Byte>>, o: int, n: int, i: int, k: int, j: int)
    requires l.WellFormed() && i <= k < n
    requires LeafIds(l, bufs, o, n, i).Ok?
    requires ReadInt(l, bufs, o + l.childOffset + 4 * k) == Ok(j) && Eligible(l, bufs, j)
    ensures j in LeafIds(l, bufs, o, n, i).value
    decreases k - i
  {
    if i < k {
      LeafIdsComplete(l, bufs, o, n, i + 1, k, j);
    }
  }

  /** A leaf contributes only ids it lists: each one was read from one of
      the slots i .. n-1. */
  lemma {:induction false} LeafIdsListed(l: Layout, bufs: seq<seq<Byte>>, o: int, n: int, i: int)
    requires l.WellFormed()
    requires LeafIds(l, bufs, o, n, i).Ok?
    ensures forall id :: id in LeafIds(l, bufs, o, n, i).value ==>
              exists k :: i <= k < n && ReadInt(l, bufs, o + l.childOffset + 4 * k) == Ok(id)
    decreases n - i
  {
    if i < n {
      LeafIdsListed(l, bufs, o, n, i + 1);
    }
  }

  /** A readable leaf contributes exactly the eligible items its slots
      i .. n-1 list. */
  lemma LeafIdsExactly(l: Layout, bufs: seq<seq<Byte>>, o: int, n: int, i: int, id: int)
    requires l.WellFormed()
    requires LeafIds(l, bufs, o, n, i).Ok?
    ensures id in LeafIds(l, bufs, o, n, i).value <==>
              Eligible(l, bufs, id) &&
              exists k :: i <= k < n && ReadInt(l, bufs, o + l.childOffset + 4 * k) == Ok(id)
  {
    LeafIdsListed(l, bufs, o, n, i);
    if k :| i <= k < n && ReadInt(l, bufs, o + l.childOffset + 4 * k) == Ok(id) {
      if Eligible(l, bufs, id) {
        LeafIdsComplete(l, bufs, o, n, i, k, id);
      }
    }
  }

  /** A leaf slot that cannot be read makes the leaf unreadable. */
  lemma LeafSlotUnreadable(l: Layout, bufs: seq<seq<Byte>>, o: int, n: int, i: int)
    requires l.WellFormed() && i < n
    requires ReadInt(l, bufs, o + l.childOffset + 4 * i).Err?
    ensures LeafIds(l, bufs, o, n, i).Err?
  {
  }

  /** So does a listed child whose vector cannot be read. */
  lemma LeafChildUnreadable(l: Layout, bufs: seq<seq<Byte>>, o: int, n: int, i: int, j: int)
    requires l.WellFormed() && i < n
    requires ReadInt(l, bufs, o + l.childOffset + 4 * i) == Ok(j)
    requires ItemVector(l, bufs, j).Err?
    ensures LeafIds(l, bufs, o, n, i).Err?
  {
  }

  /** A readable slot lists its child in front of the rest, unless the
      child's vector is all zeros. */
  lemma LeafSlotRead(l: Layout, bufs: seq<seq<Byte>>, o: int, n: int, i: int, j: int, v: seq<Float32>)
    requires l.WellFormed() && i < n
    requires ReadInt(l, bufs, o + l.childOffset + 4 * i) == Ok(j)
    requires ItemVector(l, bufs, j) == Ok(v)
    ensures var rest := LeafIds(l, bufs, o, n, i + 1);
            LeafIds(l, bufs, o, n, i) == if rest.Err? then rest else if ZeroVector(v) then rest else Ok([j] + rest.value)
  {
  }

  /** What one polled node contributes: entries pushed on the queue and ids
      added to the candidates. */
  datatype Expansion = Expansion(pushed: seq<PQEntry>, found: seq<int>)

  /** The body of the search loop for the polled entry top. A node with one
      descendant is an item; a node with at most minLeafSize descendants is a
      leaf listing its items; any other node is a split node whose children
      are pushed with the margin negated for the left and as is for the right. */
  function Expand(l: Layout, bufs: seq<seq<Byte>>, ops: FloatOps, q: seq<Float32>,
                  top: PQEntry): (r: Result<Expansion>)
    requires l.WellFormed()
    ensures r.Err? ==> r.error == OutOfBounds
    ensures r.Ok? ==> |r.value.found| <= l.minLeafSize
    // only a split node, one with more than minLeafSize descendants, pushes
    // entries: both children, at node boundaries, and it finds nothing
    ensures r.Ok? && r.value.pushed != [] ==>
              && ReadInt(l, bufs, top.nodeOffset).Ok? && l.minLeafSize < ReadInt(l, bufs, top.nodeOffset).value
              && |r.value.pushed| == 2 && r.value.found == []
              && r.value.pushed[0].margin == -r.value.pushed[1].margin
              && r.value.pushed[0].nodeOffset % l.nodeSize == 0
              && r.value.pushed[1].nodeOffset % l.nodeSize == 0
    // an entry at a node boundary only ever yields items the search may report
    ensures r.Ok? && top.nodeOffset % l.nodeSize == 0 ==>
              forall id :: id in r.value.found ==> Eligible(l, bufs, id)
  {
    var o := top.nodeOffset;
    var n :- ReadInt(l, bufs, o);
    var v :- NodeVector(l, bufs, o);
    if n == 1 then
      if ZeroVector(v) then Ok(Expansion([], []))
      else
        ItemAtNode(l, o);
        Ok(Expansion([], [JavaDiv(o, l.nodeSize)]))
    else if n <= l.minLeafSize then
      var ids :- LeafIds(l, bufs, o, n, 0);
      Ok(Expansion([], ids))
    else
      var m :- SplitMargin(l, bufs, ops, q, o, v);
      var left :- ReadInt(l, bufs, o + l.childOffset);
      var right :- ReadInt(l, bufs, o + l.childOffset + 4);
      MultipleOf(l.nodeSize, left);
      MultipleOf(l.nodeSize, right);
      Ok(Expansion([PQEntry(-m, NodeOffset(left, l.nodeSize)), PQEntry(m, NodeOffset(right, l.nodeSize))], []))
  }

  lemma MultipleOf(d: int, k: int)
    requires d > 0
    ensures NodeOffset(k, d) % d == 0
  {
    NodeOffsetIsProduct(k, d);
    DivModUnique(k * d, d, k, 0);
  }

  /** Polling a node of the file with more than minLeafSize descendants
      pushes its two children: the left one, NODE_SIZE times the int at the
      child offset, with the negated margin, and the right one, NODE_SIZE
      times the next int, with the margin. The euclidean margin takes as bias
      the float at byte 4 of the node. */
  lemma {:induction false} SplitNodeChildren(l: Layout, bufs: seq<seq<Byte>>, file: seq<Byte>,
                                             ops: FloatOps, q: seq<Float32>, top: PQEntry)
    requires l.WellFormed() && IsPartition(bufs, file, l.blockSize)
    requires 0 <= top.nodeOffset && top.nodeOffset % l.nodeSize == 0 && top.nodeOffset + l.nodeSize <= |file|
    requires l.minLeafSize < Int32At(file, top.nodeOffset)
    ensures NodeVector(l, bufs, top.nodeOffset).Ok?
    ensures var o, v := top.nodeOffset, NodeVector(l, bufs, top.nodeOffset).value;
            var m := if l.indexType == Angular then ops.cosineMargin(v, q)
                     else ops.euclideanMargin(v, q, Float32At(file, o + 4));
            Expand(l, bufs, ops, q, top) ==
              Ok(Expansion([PQEntry(-m, l.nodeSize * Int32At(file, o + l.childOffset)),
                            PQEntry(m, l.nodeSize * Int32At(file, o + l.childOffset + 4))], []))
  {
    var o := top.nodeOffset;
    SplitNodeReads(l, bufs, file, o);
    SplitExpansion(l, bufs, ops, q, top, Int32At(file, o), NodeVector(l, bufs, o).value, Float32At(file, o + 4),
                   Int32At(file, o + l.childOffset), Int32At(file, o + l.childOffset + 4));
  }

  /** The fields a poll reads from a node inside the file, read through the
      buffers, are the file's words. */
  lemma SplitNodeReads(l: Layout, bufs: seq<seq<Byte>>, file: seq<Byte>, o: int)
    requires l.WellFormed() && IsPartition(bufs, file, l.blockSize)
    requires 0 <= o && o % l.nodeSize == 0 && o + l.nodeSize <= |file|
    ensures NodeVector(l, bufs, o).Ok?
    ensures ReadInt(l, bufs, o) == Ok(Int32At(file, o))
    ensures ReadFloat(l, bufs, o + 4) == Ok(Float32At(file, o + 4))
    ensures ReadInt(l, bufs, o + l.childOffset) == Ok(Int32At(file, o + l.childOffset))
    ensures ReadInt(l, bufs, o + l.childOffset + 4) == Ok(Int32At(file, o + l.childOffset + 4))
  {
    NodeVectorMatchesFile(l, bufs, file, o);
    var co := l.childOffset;
    assert co % 4 == 0 && (co + 4) % 4 == 0 && co + 8 <= l.nodeSize;
    NodeFieldMatchesFile(l, bufs, file, o, 0, o);
    NodeFieldMatchesFile(l, bufs, file, o, 4, o + 4);
    NodeFieldMatchesFile(l, bufs, file, o, co, o + co);
    NodeFieldMatchesFile(l, bufs, file, o, co + 4, o + co + 4);
  }

  /** Expand on a split node, read through the buffers: the children at
      NODE_SIZE times the two ints after the child offset, left with the
      negated margin. */
  lemma SplitExpansion(l: Layout, bufs: seq<seq<Byte>>, ops: FloatOps, q: seq<Float32>, top: PQEntry,
                       n: int, v: seq<Float32>, bias: Float32, left: int, right: int)
    requires l.WellFormed()
    requires ReadInt(l, bufs, top.nodeOffset) == Ok(n) && l.minLeafSize < n
    requires NodeVector(l, bufs, top.nodeOffset) == Ok(v)
    requires ReadFloat(l, bufs, top.nodeOffset + 4) == Ok(bias)
    requires ReadInt(l, bufs, top.nodeOffset + l.childOffset) == Ok(left)
    requires ReadInt(l, bufs, top.nodeOffset + l.childOffset + 4) == Ok(right)
    ensures var m := if l.indexType == Angular then ops.cosineMargin(v, q) else ops.euclideanMargin(v, q, bias);
            Expand(l, bufs, ops, q, top) ==
              Ok(Expansion([PQEntry(-m, l.nodeSize * left), PQEntry(m, l.nodeSize * right)], []))
  {
    NodeOffsetIsProduct(left, l.nodeSize);
    NodeOffsetIsProduct(right, l.nodeSize);
  }

  /** The item whose vector getItemVector reads is the node at offset o, when
      o is a multiple of the node size. */
  lemma ItemAtNode(l: Layout, o: int)
    requires l.WellFormed()
    ensures o % l.nodeSize == 0 ==> NodeOffset(JavaDiv(o, l.nodeSize), l.nodeSize) == o
  {
    var ns := l.nodeSize;
    NodeOffsetIsProduct(JavaDiv(o, ns), ns);
    if o % ns != 0 {
    } else if o >= 0 {
      assert o == (o / ns) * ns + o % ns;
    } else {
      DivModUnique(-o, ns, -(o / ns), 0);
    }
  }

  function Elements(s: seq<int>): set<int>
  {
    set x | x in s
  }

  /** The queue (a multiset: ties leave the poll order open) and the candidate set. */
  datatype SearchState = SearchState(queue: multiset<PQEntry>, found: set<int>)

  /** The queue holds one entry of priority p for every root. */
  function Seeds(roots: seq<int>, p: int): (s: seq<PQEntry>)
    ensures |s| == |roots|
    ensures forall i :: 0 <= i < |s| ==> s[i] == PQEntry(p, roots[i])
  {
    seq(|roots|, i requires 0 <= i < |roots| => PQEntry(p, roots[i]))
  }

  function InitialState(roots: seq<int>, p: int): SearchState
  {
    SearchState(multiset(Seeds(roots, p)), {})
  }

  /** The loop condition: fewer than rootCount * nResults candidates and a non-empty queue. */
  predicate Continues(s: SearchState, rootCount: nat, nResults: int)
    // the loop never runs without roots or without a positive nResults
    ensures Continues(s, rootCount, nResults) ==> 0 < rootCount && 0 < nResults && |s.queue| > 0
  {
    |s.found| < rootCount * nResults && |s.queue| > 0
  }

  /** top has the highest margin in the queue. */
  ghost predicate IsMaxIn(top: PQEntry, queue: multiset<PQEntry>)
  {
    top in queue && forall e :: e in queue ==> e.margin <= top.margin
  }

  /** The state after polling top and applying its expansion. */
  function After(s: SearchState, top: PQEntry, x: Expansion): SearchState
  {
    SearchState(s.queue - multiset{top} + multiset(x.pushed), s.found + Elements(x.found))
  }

  /** One iteration of the search loop, polling top. */
  ghost predicate IsStepBy(l: Layout, bufs: seq<seq<Byte>>, ops: FloatOps, q: seq<Float32>,
                           s: SearchState, top: PQEntry, s': SearchState)
    requires l.WellFormed()
  {
    && IsMaxIn(top, s.queue)
    && Expand(l, bufs, ops, q, top).Ok?
    && s' == After(s, top, Expand(l, bufs, ops, q, top).value)
  }

  /** states[i + 1] follows from states[i] by polling polls[i], each while the loop condition holds. */
  ghost predicate IsRun(l: Layout, bufs: seq<seq<Byte>>, ops: FloatOps, q: seq<Float32>,
                        roots: seq<int>, nResults: int, states: seq<SearchState>, polls: seq<PQEntry>)
    requires l.WellFormed()
  {
    && |states| == |polls| + 1
    && states[0] == InitialState(roots, ops.maxPriority)
    && forall i :: 0 <= i < |polls| ==>
         Continues(states[i], |roots|, nResults) && IsStepBy(l, bufs, ops, q, states[i], polls[i], states[i + 1])
  }

  /** A run that has reached a state where the loop stops. */
  ghost predicate IsCompleteRun(l: Layout, bufs: seq<seq<Byte>>, ops: FloatOps, q: seq<Float32>,
                                roots: seq<int>, nResults: int, states: seq<SearchState>, polls: seq<PQEntry>)
    requires l.WellFormed()
  {
    IsRun(l, bufs, ops, q, roots, nResults, states, polls) && !Continues(states[|states| - 1], |roots|, nResults)
  }

  /** The loop would go on, but every entry it may poll next cannot be expanded. */
  ghost predicate StepFails(l: Layout, bufs: seq<seq<Byte>>, ops: FloatOps, q: seq<Float32>,
                            s: SearchState, rootCount: nat, nResults: int)
    requires l.WellFormed()
  {
    Continues(s, rootCount, nResults) &&
    exists top :: IsMaxIn(top, s.queue) && Expand(l, bufs, ops, q, top).Err?
  }

  /** What the tail of getNearest returns for the candidate set cands: at most
      n ids, all of them distinct candidates the search may report, in order
      of non-increasing score, no fewer than n unless every such candidate is
      included, and none of the candidates left out scores higher than one
      that is included. */
  ghost predicate RankedResult(l: Layout, bufs: seq<seq<Byte>>, ops: FloatOps, q: seq<Float32>,
                               cands: set<int>, n: int, ids: seq<int>)
    requires l.WellFormed()
  {
    && |ids| <= n
    && (|ids| == n || forall c :: c in cands && Eligible(l, bufs, c) ==> c in ids)
    && (forall i :: 0 <= i < |ids| ==> ids[i] in cands && Eligible(l, bufs, ids[i]))
    && (forall i, j :: 0 <= i < j < |ids| ==> ids[i] != ids[j])
    && (forall i, j :: 0 <= i < j < |ids| ==> ScoreOf(l, bufs, ops, q, ids[j]) <= ScoreOf(l, bufs, ops, q, ids[i]))
    && (forall c, i :: c in cands && Eligible(l, bufs, c) && c !in ids && 0 <= i < |ids| ==>
          ScoreOf(l, bufs, ops, q, c) <= ScoreOf(l, bufs, ops, q, ids[i]))
  }

  /** The entries built for the eligible members of cands, each scored. */
  ghost predicate ScoredEntries(l: Layout, bufs: seq<seq<Byte>>, ops: FloatOps, q: seq<Float32>,
                                cands: set<int>, entries: seq<PQEntry>)
    requires l.WellFormed()
  {
    && DistinctIds(entries)
    && (forall k :: 0 <= k < |entries| ==>
          && entries[k].nodeOffset in cands && Eligible(l, bufs, entries[k].nodeOffset)
          && entries[k].margin == ScoreOf(l, bufs, ops, q, entries[k].nodeOffset))
    && (forall c :: c in cands && Eligible(l, bufs, c) ==> c in Ids(entries))
  }

  /** Visiting one more candidate: an eligible one is added with its score. */
  lemma AddKeepsScored(l: Layout, bufs: seq<seq<Byte>>, ops: FloatOps, q: seq<Float32>,
                       done: set<int>, entries: seq<PQEntry>, c: int)
    requires l.WellFormed() && ScoredEntries(l, bufs, ops, q, done, entries)
    requires c !in done && Eligible(l, bufs, c)
    ensures ScoredEntries(l, bufs, ops, q, done + {c}, entries + [PQEntry(ScoreOf(l, bufs, ops, q, c), c)])
  {
    var e := entries + [PQEntry(ScoreOf(l, bufs, ops, q, c), c)];
    assert Ids(e) == Ids(entries) + [c];
  }

  /** Visiting one more candidate: one that may not be reported is skipped. */
  lemma SkipKeepsScored(l: Layout, bufs: seq<seq<Byte>>, ops: FloatOps, q: seq<Float32>,
                        done: set<int>, entries: seq<PQEntry>, c: int)
    requires l.WellFormed() && ScoredEntries(l, bufs, ops, q, done, entries)
    requires !Eligible(l, bufs, c)
    ensures ScoredEntries(l, bufs, ops, q, done + {c}, entries)
  {
  }

  /** Reordering scored entries leaves them scored. */
  lemma PermutationKeepsScored(l: Layout, bufs: seq<seq<Byte>>, ops: FloatOps, q: seq<Float32>,
                               cands: set<int>, entries: seq<PQEntry>, perm: seq<PQEntry>)
    requires l.WellFormed() && ScoredEntries(l, bufs, ops, q, cands, entries)
    requires multiset(perm) == multiset(entries) && DistinctIds(perm)
    ensures ScoredEntries(l, bufs, ops, q, cands, perm)
  {
    forall k | 0 <= k < |perm|
      ensures perm[k].nodeOffset in cands && Eligible(l, bufs, perm[k].nodeOffset)
      ensures perm[k].margin == ScoreOf(l, bufs, ops, q, perm[k].nodeOffset)
    {
      InMultiset(perm[k], perm, entries);
      var k' :| 0 <= k' < |entries| && entries[k'] == perm[k];
    }
    forall c | c in cands && Eligible(l, bufs, c)
      ensures c in Ids(perm)
    {
      var k' :| 0 <= k' < |entries| && Ids(entries)[k'] == c;
      InMultiset(entries[k'], entries, perm);
      var k :| 0 <= k < |perm| && perm[k] == entries[k'];
      assert Ids(perm)[k] == c;
    }
  }

  /** The first n ids of scored entries sorted by non-increasing margin rank the candidates. */
  lemma SortedPrefixIsRanked(l: Layout, bufs: seq<seq<Byte>>, ops: FloatOps, q: seq<Float32>,
                             cands: set<int>, sorted: seq<PQEntry>, n: int)
    requires l.WellFormed() && ScoredEntries(l, bufs, ops, q, cands, sorted) && SortedByMargin(sorted)
    requires n >= 0
    ensures RankedResult(l, bufs, ops, q, cands, n, Ids(sorted)[..Min(n, |sorted|)])
  {
    var all := Ids(sorted);
    var ids := all[..Min(n, |sorted|)];
    forall c, i | c in cands && Eligible(l, bufs, c) && c !in ids && 0 <= i < |ids|
      ensures ScoreOf(l, bufs, ops, q, c) <= ScoreOf(l, bufs, ops, q, ids[i])
    {
      var k :| 0 <= k < |sorted| && all[k] == c;
      assert k >= |ids| by {
        assert forall j :: 0 <= j < |ids| ==> ids[j] == all[j];
      }
      assert sorted[k].margin <= sorted[i].margin;
    }
    if |ids| != n {
      assert ids == all;
    }
  }

  /** Sorting the scored entries and keeping the first n ids ranks the candidates. */
  lemma {:induction false} SortThenTakeIsRanked(l: Layout, bufs: seq<seq<Byte>>, ops: FloatOps, q: seq<Float32>,
                                               cands: set<int>, entries: seq<PQEntry>, n: int)
    requires l.WellFormed() && ScoredEntries(l, bufs, ops, q, cands, entries) && n >= 0
    ensures RankedResult(l, bufs, ops, q, cands, n, Ids(Sort(entries))[..Min(n, |entries|)])
  {
    var sorted := Sort(entries);
    SortSorted(entries);
    SortKeepsIdsDistinct(entries);
    PermutationKeepsScored(l, bufs, ops, q, cands, entries, sorted);
    SortedPrefixIsRanked(l, bufs, ops, q, cands, sorted, n);
  }

  /** The candidate set only grows along a run. */
  lemma {:induction false} FoundGrows(l: Layout, bufs: seq<seq<Byte>>, ops: FloatOps, q: seq<Float32>,
                                      roots: seq<int>, nResults: int,
                                      states: seq<SearchState>, polls: seq<PQEntry>, i: int, j: int)
    requires l.WellFormed() && IsRun(l, bufs, ops, q, roots, nResults, states, polls)
    requires 0 <= i <= j < |states|
    ensures states[i].found <= states[j].found
    decreases j - i
  {
    if i < j {
      FoundGrows(l, bufs, ops, q, roots, nResults, states, polls, i, j - 1);
      assert IsStepBy(l, bufs, ops, q, states[j - 1], polls[j - 1], states[j]);
    }
  }

  /** Every queue entry is at a node boundary and every candidate may be reported. */
  ghost predicate Sound(l: Layout, bufs: seq<seq<Byte>>, s: SearchState)
    requires l.WellFormed()
  {
    && (forall e :: e in s.queue ==> e.nodeOffset % l.nodeSize == 0)
    && (forall id :: id in s.found ==> Eligible(l, bufs, id))
  }

  lemma StepKeepsSound(l: Layout, bufs: seq<seq<Byte>>, ops: FloatOps, q: seq<Float32>,
                       s: SearchState, top: PQEntry, s': SearchState)
    requires l.WellFormed() && Sound(l, bufs, s) && IsStepBy(l, bufs, ops, q, s, top, s')
    ensures Sound(l, bufs, s')
  {
    var x := Expand(l, bufs, ops, q, top).value;
    forall e | e in s'.queue ensures e.nodeOffset % l.nodeSize == 0 {
      if e !in s.queue {
        assert e in multiset(x.pushed);
        assert e == x.pushed[0] || e == x.pushed[1];
      }
    }
  }

  /** When every root is at a node boundary, every candidate a run collects
      has a readable vector that is not all zeros. */
  lemma {:induction false} RunFindsOnlyEligible(l: Layout, bufs: seq<seq<Byte>>, ops: FloatOps, q: seq<Float32>,
                                                roots: seq<int>, nResults: int,
                                                states: seq<SearchState>, polls: seq<PQEntry>, i: int)
    requires l.WellFormed() && IsRun(l, bufs, ops, q, roots, nResults, states, polls)
    requires forall r :: r in roots ==> r % l.nodeSize == 0
    requires 0 <= i < |states|
    ensures forall id :: id in states[i].found ==> Eligible(l, bufs, id)
    ensures forall e :: e in states[i].queue ==> e.nodeOffset % l.nodeSize == 0
  {
    if i == 0 {
      var seeds := Seeds(roots, ops.maxPriority);
      forall e | e in states[0].queue ensures e.nodeOffset % l.nodeSize == 0 {
        assert e in seeds;
        var k :| 0 <= k < |seeds| && seeds[k] == e;
        assert roots[k] in roots;
      }
    } else {
      RunFindsOnlyEligible(l, bufs, ops, q, roots, nResults, states, polls, i - 1);
      StepKeepsSound(l, bufs, ops, q, states[i - 1], polls[i - 1], states[i]);
    }
  }
}
