/** Priority-queue entries, their ordering, and the two collection operations
    the search relies on: polling the highest-priority entry of the queue and
    sorting the scored candidates. Margins and scores are floats in the reader;
    here they are keys of an arbitrary totally ordered type, represented by int. */
module Ranking {

  /** PQEntry: a margin (or score) and a node offset (or item id). */
  datatype PQEntry = PQEntry(margin: int, nodeOffset: int)

  /** compareTo: Float.compare(o.margin, margin). An entry with a higher
      margin compares as smaller, so it comes first in the queue and in a sort. */
  function CompareTo(a: PQEntry, o: PQEntry): (c: int)
    ensures c < 0 <==> o.margin < a.margin
    ensures c == 0 <==> o.margin == a.margin
    ensures c > 0 <==> a.margin < o.margin
    ensures -1 <= c <= 1
  {
    if o.margin < a.margin then -1 else if o.margin == a.margin then 0 else 1
  }

  /** In the order compareTo defines: margins never increase. */
  ghost predicate SortedByMargin(s: seq<PQEntry>)
  {
    forall i, j :: 0 <= i < j < |s| ==> s[j].margin <= s[i].margin
  }

  /** The ids (node offsets) of a sequence of entries, in order. */
  function Ids(s: seq<PQEntry>): (ids: seq<int>)
    ensures |ids| == |s|
  {
    seq(|s|, k requires 0 <= k < |s| => s[k].nodeOffset)
  }

  ghost predicate DistinctIds(s: seq<PQEntry>)
  {
    forall i, j :: 0 <= i < j < |s| ==> s[i].nodeOffset != s[j].nodeOffset
  }

  /** Places e before the first element that does not come strictly before it;
      equal elements therefore keep e in front, as a stable sort does. */
  function Insert(e: PQEntry, s: seq<PQEntry>): (r: seq<PQEntry>)
    ensures multiset(r) == multiset(s) + multiset{e}
    ensures |r| == |s| + 1
  {
    if s == [] then [e]
    else if CompareTo(e, s[0]) <= 0 then
      assert s == [s[0]] + s[1..];
      [e] + s
    else
      assert s == [s[0]] + s[1..];
      [s[0]] + Insert(e, s[1..])
  }

  /** Collections.sort with compareTo, as an insertion sort. */
  function Sort(s: seq<PQEntry>): (r: seq<PQEntry>)
    ensures multiset(r) == multiset(s)
    ensures |r| == |s|
  {
    if s == [] then []
    else
      assert s == [s[0]] + s[1..];
      Insert(s[0], Sort(s[1..]))
  }

  /** An element of a sequence is an element of any sequence with the same multiset. */
  lemma InMultiset<T>(x: T, s: seq<T>, t: seq<T>)
    requires multiset(s) == multiset(t) && x in s
    ensures x in t
  {
    assert x in multiset(s);
  }

  /** Putting an entry no smaller than every element in front keeps a sequence sorted. */
  lemma PrependSorted(x: PQEntry, r: seq<PQEntry>)
    requires SortedByMargin(r)
    requires forall y :: y in r ==> y.margin <= x.margin
    ensures SortedByMargin([x] + r)
  {
    var u := [x] + r;
    forall i, j | 0 <= i < j < |u| ensures u[j].margin <= u[i].margin {
      assert u[j] == r[j - 1];
      if i == 0 {
        assert u[j] in r;
      } else {
        assert u[i] == r[i - 1];
      }
    }
  }

  lemma {:induction false} InsertSorted(e: PQEntry, s: seq<PQEntry>)
    requires SortedByMargin(s)
    ensures SortedByMargin(Insert(e, s))
  {
    if s == [] {
    } else if CompareTo(e, s[0]) <= 0 {
      forall y | y in s ensures y.margin <= e.margin {
        var k :| 0 <= k < |s| && s[k] == y;
        assert s[k].margin <= s[0].margin;
      }
      PrependSorted(e, s);
    } else {
      var t := s[1..];
      assert SortedByMargin(t);
      InsertSorted(e, t);
      var r := Insert(e, t);
      forall x | x in r ensures x.margin <= s[0].margin {
        assert x in multiset(r);
        if x != e {
          assert x in multiset(t);
          var k :| 0 <= k < |t| && t[k] == x;
          assert s[k + 1] == x;
        }
      }
      PrependSorted(s[0], r);
    }
  }

  /** The sort's result is ordered by non-increasing margin. */
  lemma {:induction false} SortSorted(s: seq<PQEntry>)
    ensures SortedByMargin(Sort(s))
  {
    if s != [] {
      SortSorted(s[1..]);
      InsertSorted(s[0], Sort(s[1..]));
    }
  }

  /** Sorting entries whose ids are pairwise different keeps them pairwise different. */
  lemma {:induction false} SortKeepsIdsDistinct(s: seq<PQEntry>)
    requires DistinctIds(s)
    ensures DistinctIds(Sort(s))
  {
    if s != [] {
      var t := s[1..];
      assert DistinctIds(t);
      SortKeepsIdsDistinct(t);
      var st := Sort(t);
      forall x | x in st ensures x.nodeOffset != s[0].nodeOffset {
        InMultiset(x, st, t);
        var k :| 0 <= k < |t| && t[k] == x;
        assert s[k + 1] == x;
      }
      InsertKeepsIdsDistinct(s[0], st);
    }
  }

  lemma {:induction false} InsertKeepsIdsDistinct(e: PQEntry, s: seq<PQEntry>)
    requires DistinctIds(s)
    requires forall x :: x in s ==> x.nodeOffset != e.nodeOffset
    ensures DistinctIds(Insert(e, s))
  {
    if s == [] {
    } else if CompareTo(e, s[0]) <= 0 {
      var u := [e] + s;
      forall i, j | 0 <= i < j < |u| ensures u[i].nodeOffset != u[j].nodeOffset {
        if i == 0 { assert u[j] in s; } else { assert u[i] == s[i - 1] && u[j] == s[j - 1]; }
      }
    } else {
      var t := s[1..];
      assert DistinctIds(t);
      InsertKeepsIdsDistinct(e, t);
      var r := Insert(e, t);
      forall x | x in r ensures x.nodeOffset != s[0].nodeOffset {
        assert x in multiset(r);
        if x != e {
          assert x in multiset(t);
          var k :| 0 <= k < |t| && t[k] == x;
          assert s[k + 1] == x;
        } else {
          assert s[0] in s;
        }
      }
      var u := [s[0]] + r;
      assert Insert(e, s) == u;
      forall i, j | 0 <= i < j < |u| ensures u[i].nodeOffset != u[j].nodeOffset {
        if i == 0 { assert u[j] in r; } else { assert u[i] == r[i - 1] && u[j] == r[j - 1]; }
      }
    }
  }

  /** PriorityQueue.poll: removes an entry of highest margin. Which of several
      equal entries comes out first is left open, as in the Java queue. */
  method PollMax(pq: seq<PQEntry>) returns (top: PQEntry, rest: seq<PQEntry>)
    requires pq != []
    ensures top in pq
    ensures forall e :: e in pq ==> e.margin <= top.margin
    ensures multiset(rest) + multiset{top} == multiset(pq)
  {
    var k := 0;
    var i := 1;
    while i < |pq|
      invariant 0 <= k < i <= |pq|
      invariant forall j :: 0 <= j < i ==> pq[j].margin <= pq[k].margin
    {
      if pq[k].margin < pq[i].margin {
        k := i;
      }
      i := i + 1;
    }
    top := pq[k];
    rest := pq[..k] + pq[k + 1..];
    assert pq == pq[..k] + [pq[k]] + pq[k + 1..];
  }
}
