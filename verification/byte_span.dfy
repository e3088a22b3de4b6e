/**
  The `[begin, end)` pointer pair that the stream factories of
  cpp/src/Ice/Initialize.cpp hand to an input stream for a byte vector
  (`makePair`). A pointer into the vector is modelled by its offset from
  the vector's first byte.
 */
module ByteSpan {

  newtype Byte = x: int | 0 <= x < 256

  datatype BytePtr = NullPtr | At(offset: nat)

  datatype Span = Span(begin: BytePtr, end: BytePtr)

  /**
    `makePair(v)`: two null pointers for an empty vector, otherwise the
    address of the first byte and the address one past the last.
   */
  function MakePair(v: seq<Byte>): (r: Span)
    ensures r.begin.NullPtr? <==> |v| == 0
    ensures r.begin.NullPtr? <==> r.end.NullPtr?
    ensures r.begin.At? ==> r.begin.offset == 0 && r.end.offset == |v|
  {
    if |v| == 0 then Span(NullPtr, NullPtr) else Span(At(0), At(|v|))
  }

  /**
    The bytes of `v` a stream reads through `s`: none for a null pair,
    otherwise those from `begin` up to but excluding `end`.
   */
  function Bytes(v: seq<Byte>, s: Span): seq<Byte>
  {
    match s
    case Span(At(b), At(e)) => if b <= e <= |v| then v[b..e] else []
    case _ => []
  }

  /** The pair `makePair` builds covers the vector exactly. */
  lemma MakePairCoversVector(v: seq<Byte>)
    ensures Bytes(v, MakePair(v)) == v
    ensures |Bytes(v, MakePair(v))| == |v|
  {
    if |v| > 0 {
      assert v[0..|v|] == v;
    }
  }
}
