/** The metrics an Annoy index can be built for, with the node layout each
    declares: the byte offset of the two child ids within a node and the size
    of the node header that precedes the vector. */
module IndexTypes {

  datatype IndexType = Angular | Euclidean | Dot
  {
    /** getOffset: where the child ids start. The first word of every node is
        its descendant count, so the children never start before byte 4. */
    function Offset(): (r: int)
      ensures 4 <= r && r % 4 == 0
      ensures r == 4 <==> !Euclidean?
    {
      match this
      case Angular => 4
      case Euclidean => 8
      case Dot => 4
    }

    /** getkNodeHeaderStyle: the size of the header before the vector. */
    function KNodeHeaderStyle(): (r: int)
      ensures r % 4 == 0
      ensures r == 12 <==> Angular?
      ensures r == 16 <==> !Angular?
    {
      match this
      case Angular => 12
      case Euclidean => 16
      case Dot => 16
    }
  }

  /** The two child ids always fit between the child offset and the vector. */
  lemma ChildrenFitInHeader(t: IndexType)
    ensures t.Offset() + 8 <= t.KNodeHeaderStyle()
  {
  }

  /** The three constants with their (offset, header) pairs. */
  lemma DeclaredLayouts()
    ensures Angular.Offset() == 4 && Angular.KNodeHeaderStyle() == 12
    ensures Euclidean.Offset() == 8 && Euclidean.KNodeHeaderStyle() == 16
    ensures Dot.Offset() == 4 && Dot.KNodeHeaderStyle() == 16
  {
  }
}
