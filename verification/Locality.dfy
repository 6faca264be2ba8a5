// Which bytes of the file the scan and the reference decoder depend on.
module Locality {
  import opened Bytes
  import opened Layout
  import opened Scanner
  import opened References

  /** Both files hold the same bytes at offsets lo to hi. */
  predicate Agree(a: seq<byte>, b: seq<byte>, lo: nat, hi: nat) {
    hi <= |a| && hi <= |b| && forall k :: lo <= k < hi ==> a[k] == b[k]
  }

  lemma AgreeSlice(a: seq<byte>, b: seq<byte>, lo: nat, hi: nat, from: nat, to: nat)
    requires Agree(a, b, lo, hi) && lo <= from <= to <= hi
    ensures a[from..to] == b[from..to]
  {}

  /** The first eight bytes of an array decide everything about it but whether it fits. */
  lemma SameArrayHeader(a: seq<byte>, b: seq<byte>, offset: nat)
    requires Agree(a, b, offset, offset + ARRAY_HEADER_SIZE)
    ensures NodeAt(a, offset) == NodeAt(b, offset)
    ensures PlausibleAt(a, offset) && offset + NodeAt(b, offset).byteSize <= |b| ==> PlausibleAt(b, offset)
  {
    AgreeSlice(a, b, offset, offset + ARRAY_HEADER_SIZE, offset, offset + 4);
    AgreeSlice(a, b, offset, offset + ARRAY_HEADER_SIZE, offset + 5, offset + 8);
  }

  lemma SameElement(a: seq<byte>, b: seq<byte>, offset: nat, node: ArrayNode, i: nat)
    requires Fits(a, offset, node) && Fits(b, offset, node)
    requires DecodesRefs(node) && i < node.elementCount
    requires Agree(a, b, offset, offset + node.byteSize)
    ensures ElementAt(a, offset, node, i) == ElementAt(b, offset, node, i)
  {
    FittingSlicesAreFull(a, offset, node, i);
    FittingSlicesAreFull(b, offset, node, i);
    var start, size := ElementStart(offset, node, i), node.width / 8;
    AgreeSlice(a, b, offset, offset + node.byteSize, start, start + size);
  }

  /** A reference array's elements depend on its own extent only. */
  lemma SameElements(a: seq<byte>, b: seq<byte>, offset: nat, node: ArrayNode)
    requires Fits(a, offset, node) && Fits(b, offset, node) && DecodesRefs(node)
    requires Agree(a, b, offset, offset + node.byteSize)
    ensures Elements(a, offset, node) == Elements(b, offset, node)
  {
    forall i: nat | i < node.elementCount ensures ElementAt(a, offset, node, i) == ElementAt(b, offset, node, i) {
      SameElement(a, b, offset, node, i);
    }
  }

  /** Files of one length that differ only in the 24 header bytes hold the same graph. */
  lemma GraphIgnoresHeader(a: seq<byte>, b: seq<byte>)
    requires |a| == |b| && (forall k :: FILE_HEADER_SIZE <= k < |a| ==> a[k] == b[k])
    ensures Candidates(a) == Candidates(b)
    ensures FileGraph(a) == FileGraph(b)
  {
    forall o: nat ensures o in Candidates(a) <==> o in Candidates(b)
      ensures o in Candidates(a) && o in Candidates(b) ==> Candidates(a)[o] == Candidates(b)[o]
    {
      HeaderlessCandidate(a, b, o);
      HeaderlessCandidate(b, a, o);
    }
    assert Candidates(a) == Candidates(b);
    forall o | o in Candidates(a)
      ensures ChildRefs(a, o, Candidates(a)[o], Candidates(a).Keys)
           == ChildRefs(b, o, Candidates(b)[o], Candidates(b).Keys)
    {
      CandidateIs(a, o);
      CandidateIs(b, o);
      if DecodesRefs(Candidates(a)[o]) {
        SameElements(a, b, o, Candidates(a)[o]);
      }
    }
  }

  lemma HeaderlessCandidate(a: seq<byte>, b: seq<byte>, o: nat)
    requires |a| == |b| && (forall k :: FILE_HEADER_SIZE <= k < |a| ==> a[k] == b[k])
    ensures o in Candidates(a) ==> o in Candidates(b) && Candidates(a)[o] == Candidates(b)[o]
  {
    CandidateIs(a, o);
    CandidateIs(b, o);
    if o in Candidates(a) {
      SameArrayHeader(a, b, o);
    }
  }
}
