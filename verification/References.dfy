// Decoding packed little-endian references into the child lists of the array graph.
module References {
  import opened Bytes
  import opened Layout
  import opened Scanner
  import opened Sequences

  type Graph = map<nat, ArrayNode>

  /** Only bit-width arrays marked as holding references, with byte-sized elements, are decoded. */
  predicate DecodesRefs(node: ArrayNode) {
    node.hasRefs && node.width in {8, 16, 32, 64} && node.widthScheme == 0
  }

  function ElementStart(offset: nat, node: ArrayNode, index: nat): nat {
    offset + ARRAY_HEADER_SIZE + index * (node.width / 8)
  }

  function ElementAt(data: seq<byte>, offset: nat, node: ArrayNode, index: nat): nat {
    var start := ElementStart(offset, node, index);
    LittleEndian(Slice(data, start, start + node.width / 8))
  }

  /** Every encoded element of the array at `offset`, in order. */
  function Elements(data: seq<byte>, offset: nat, node: ArrayNode): seq<nat> {
    seq(node.elementCount, i requires 0 <= i => ElementAt(data, offset, node, i))
  }

  /** The values a reference may have: known offsets that are non-zero and even. */
  function Eligible(known: set<nat>): set<nat> {
    set v | v in known && v != 0 && v % 2 == 0
  }

  function ChildRefs(data: seq<byte>, offset: nat, node: ArrayNode, known: set<nat>): seq<nat> {
    if DecodesRefs(node) then Distinct(Select(Elements(data, offset, node), Eligible(known))) else []
  }

  /** The graph: every node with its decoded child list. */
  function WithReferences(data: seq<byte>, nodes: Graph): Graph {
    map o | o in nodes :: nodes[o].(childRefs := ChildRefs(data, o, nodes[o], nodes.Keys))
  }

  /** The inner loop over one reference array's elements, then dict.fromkeys. */
  method DecodeChildren(data: seq<byte>, offset: nat, node: ArrayNode, known: set<nat>) returns (children: seq<nat>)
    ensures children == ChildRefs(data, offset, node, known)
  {
    var refs: seq<nat> := [];
    if node.hasRefs && node.width in {8, 16, 32, 64} && node.widthScheme == 0 {
      ghost var elements := Elements(data, offset, node);
      for index := 0 to node.elementCount
        invariant refs == Select(elements[..index], Eligible(known))
      {
        var value := ElementAt(data, offset, node, index);
        assert elements[..index + 1] == elements[..index] + [value];
        SelectAppend(elements[..index], value, Eligible(known));
        if value != 0 && value % 2 == 0 && value in known {
          refs := refs + [value];
        }
      }
      assert elements[..node.elementCount] == elements;
    }
    children := Distinct(refs);
  }

  /** Python's dict order plays no part in the result: any remaining entry may come next. */
  method AddReferences(data: seq<byte>, nodes: Graph) returns (result: Graph)
    ensures result == WithReferences(data, nodes)
  {
    result := map[];
    var todo := nodes.Keys;
    while todo != {}
      invariant todo <= nodes.Keys
      invariant result.Keys == nodes.Keys - todo
      invariant forall o :: o in result ==> result[o] == WithReferences(data, nodes)[o]
    {
      var offset :| offset in todo;
      var children := DecodeChildren(data, offset, nodes[offset], nodes.Keys);
      result := result[offset := nodes[offset].(childRefs := children)];
      todo := todo - {offset};
    }
  }

  /** The graph read off the file's bytes. */
  function FileGraph(data: seq<byte>): Graph {
    WithReferences(data, Candidates(data))
  }

  /** Every edge leads to a node. */
  predicate Closed(nodes: Graph) {
    forall o, c :: o in nodes && c in nodes[o].childRefs ==> c in nodes
  }

  lemma ReferencesAreClosed(data: seq<byte>, nodes: Graph)
    ensures Closed(WithReferences(data, nodes))
  {
    var g := WithReferences(data, nodes);
    forall o, c | o in g && c in g[o].childRefs ensures c in g {
      var s := Select(Elements(data, o, nodes[o]), Eligible(nodes.Keys));
      DistinctMeaning(s);
      SelectMembers(Elements(data, o, nodes[o]), Eligible(nodes.Keys));
    }
  }

  /** Among scanned arrays membership already implies the non-zero and even tests. */
  lemma ScannedAreEligible(data: seq<byte>)
    ensures Eligible(Candidates(data).Keys) == Candidates(data).Keys
  {
    forall v | v in Candidates(data).Keys ensures v in Eligible(Candidates(data).Keys) {
      CandidateIs(data, v);
      MultipleOfEight(v);
    }
  }

  lemma MultipleOfEight(v: nat)
    requires v % 8 == 0
    ensures v % 2 == 0
  {
    TwiceIsEven(v, 4 * (v / 8));
  }

  lemma TwiceIsEven(v: nat, half: nat)
    requires v == 2 * half
    ensures v % 2 == 0
  {}

  lemma ProductMonotone(a: nat, b: nat, factor: nat)
    requires a <= b
    ensures a * factor <= b * factor
  {
    assert 0 <= (b - a) * factor;
  }

  lemma NextMultiple(k: nat, factor: nat)
    ensures (k + 1) * factor == k * factor + factor
  {}

  lemma EightOut(count: nat, size: nat)
    ensures count * (8 * size) == 8 * (count * size)
  {}

  /** index elements of `size` bytes fit in a payload that covers count of them. */
  lemma ElementFits(index: nat, count: nat, size: nat, payload: nat)
    requires index < count && count * (8 * size) <= 8 * payload
    ensures index * size + size <= payload
  {
    EightOut(count, size);
    NextMultiple(index, size);
    ProductMonotone(index + 1, count, size);
  }

  lemma FittingSlicesAreFull(data: seq<byte>, offset: nat, node: ArrayNode, index: nat)
    requires Fits(data, offset, node) && DecodesRefs(node) && index < node.elementCount
    ensures var start, size := ElementStart(offset, node, index), node.width / 8;
            && 1 <= size
            && offset + ARRAY_HEADER_SIZE <= start
            && start + size <= offset + ARRAY_HEADER_SIZE + node.payloadSize <= |data|
            && Slice(data, start, start + size) == data[start..start + size]
  {
    var size := node.width / 8;
    assert node.width == 8 * size && 1 <= size;
    ElementFits(index, node.elementCount, size, node.payloadSize);
    assert 0 <= index * size;
  }

  /** Every element slice of a scanned reference array is full length and inside its payload and the file. */
  lemma ElementSlicesAreFull(data: seq<byte>, offset: nat, index: nat)
    requires offset in Candidates(data)
    requires var node := Candidates(data)[offset]; DecodesRefs(node) && index < node.elementCount
    ensures var node := Candidates(data)[offset];
            var start, size := ElementStart(offset, node, index), node.width / 8;
            && 1 <= size
            && offset + ARRAY_HEADER_SIZE <= start
            && start + size <= offset + ARRAY_HEADER_SIZE + node.payloadSize <= |data|
            && Slice(data, start, start + size) == data[start..start + size]
  {
    CandidateIs(data, offset);
    FittingSlicesAreFull(data, offset, Candidates(data)[offset], index);
  }

  /** The children of a scanned array: the decoded values that are scanned offsets, first occurrences, in order. */
  lemma ChildrenMeaning(data: seq<byte>, offset: nat)
    requires offset in Candidates(data)
    ensures var node := Candidates(data)[offset];
            var children := FileGraph(data)[offset].childRefs;
            if DecodesRefs(node)
            then children == Distinct(Select(Elements(data, offset, node), Candidates(data).Keys))
                 && (forall c :: c in children <==> c in Elements(data, offset, node) && c in Candidates(data))
            else children == []
  {
    CandidateIs(data, offset);
    ScannedAreEligible(data);
    var node := Candidates(data)[offset];
    SelectMembers(Elements(data, offset, node), Candidates(data).Keys);
    DistinctMeaning(Select(Elements(data, offset, node), Candidates(data).Keys));
  }

  /** Children stand in the order in which the elements first name them, each once. */
  lemma ChildrenInOrder(data: seq<byte>, offset: nat)
    requires offset in Candidates(data)
    ensures FirstNamedInOrder(FileGraph(data)[offset].childRefs, Elements(data, offset, Candidates(data)[offset]))
  {
    ChildrenMeaning(data, offset);
    var elements, known := Elements(data, offset, Candidates(data)[offset]), Candidates(data).Keys;
    DistinctSelectInOrder(elements, known);
  }
}
