// What a decoded reference is in terms of the file's bytes.
module ReferenceBytes {
  import opened Bytes
  import opened Layout
  import opened Scanner
  import opened References
  import opened Classification

  /** Arrays are decoded exactly when marked as holding references, in scheme 0, with elements of whole bytes. */
  lemma DecodesExactlyWhen(data: seq<byte>, o: nat)
    requires o in Candidates(data)
    ensures o + 8 <= |data|
    ensures DecodesRefs(Candidates(data)[o])
       <==> data[o + 4] / 64 % 2 == 1 && data[o + 4] / 8 % 4 == 0 && data[o + 4] % 8 >= 4
  {
    CandidateIs(data, o);
    var flags := data[o + 4];
    assert Pow2(0) == 1 && Pow2(1) == 2 && Pow2(2) == 4;
    if flags % 8 >= 4 {
      ByteSizedWidth(flags, [1, 2, 4, 8][flags % 8 - 4]);
    }
  }

  /** The element at `index`, of `size` bytes, is `value`, little-endian. */
  predicate ElementSpells(data: seq<byte>, o: nat, size: nat, index: nat, value: nat) {
    var at := o + 8 + index * size;
    0 <= at && at + size <= |data| && LittleEndian(data[at..at + size]) == value
  }

  /** The array at `o` holds byte-sized references, and one of them is `value`. */
  ghost predicate SpellsRef(data: seq<byte>, o: nat, value: nat)
    requires o + 8 <= |data|
  {
    && data[o + 4] / 64 % 2 == 1 && data[o + 4] / 8 % 4 == 0
    && exists size, index: nat :: CodesSize(data[o + 4], size) && index < BigEndian(data[o + 5..o + 8])
                                  && ElementSpells(data, o, size, index, value)
  }

  lemma ElementIsSpelled(data: seq<byte>, o: nat, size: nat, index: nat)
    requires o in Candidates(data)
    requires var node := Candidates(data)[o];
             DecodesRefs(node) && node.width == 8 * size && index < node.elementCount
    ensures ElementSpells(data, o, size, index, ElementAt(data, o, Candidates(data)[o], index))
  {
    var node := Candidates(data)[o];
    var start := ElementStart(o, node, index);
    ElementSlicesAreFull(data, o, index);
    SizedStart(o, node, index, size);
    SizedElement(data, o, node, index, size, start);
    SliceIsSpelled(data, o, size, index, start, ElementAt(data, o, node, index));
  }

  lemma SizedStart(o: nat, node: ArrayNode, index: nat, size: nat)
    requires node.width == 8 * size
    ensures ElementStart(o, node, index) == o + 8 + index * size
  {}

  lemma SizedElement(data: seq<byte>, o: nat, node: ArrayNode, index: nat, size: nat, start: nat)
    requires node.width == 8 * size && start == ElementStart(o, node, index)
    ensures node.width / 8 == size
    ensures ElementAt(data, o, node, index) == LittleEndian(Slice(data, start, start + size))
  {}

  lemma SliceIsSpelled(data: seq<byte>, o: nat, size: nat, index: nat, start: nat, value: nat)
    requires start == o + 8 + index * size && start + size <= |data|
    requires value == LittleEndian(Slice(data, start, start + size))
    requires Slice(data, start, start + size) == data[start..start + size]
    ensures ElementSpells(data, o, size, index, value)
  {}

  /** An element list holds exactly the values its bytes spell. */
  lemma ElementsAreSpelled(data: seq<byte>, o: nat, value: nat)
    requires o in Candidates(data)
    ensures o + 8 <= |data|
    ensures DecodesRefs(Candidates(data)[o]) && value in Elements(data, o, Candidates(data)[o])
       <==> SpellsRef(data, o, value)
  {
    CandidateIs(data, o);
    DecodesExactlyWhen(data, o);
    var node, flags := Candidates(data)[o], data[o + 4];
    ElementIndex(data, o, node, value);
    if DecodesRefs(node) {
      var size := node.width / 8;
      SizeOfWidth(flags, size);
      forall index: nat | index < node.elementCount
        ensures ElementSpells(data, o, size, index, value) <==> ElementAt(data, o, node, index) == value
      {
        ElementIsSpelled(data, o, size, index);
      }
    }
  }

  lemma SizeOfWidth(flags: byte, size: nat)
    requires flags % 8 >= 4 && size == CodedWidth(flags) / 8
    ensures CodedWidth(flags) == 8 * size
    ensures forall s: nat :: CodesSize(flags, s) <==> s == size
  {
    assert Pow2(3) == 8 && Pow2(4) == 16 && Pow2(5) == 32 && Pow2(6) == 64;
  }

  /** An array's children are exactly the scanned offsets that its bytes spell as references. */
  lemma ChildrenAreSpelled(data: seq<byte>, o: nat, child: nat)
    requires o in Candidates(data)
    ensures o + 8 <= |data|
    ensures child in FileGraph(data)[o].childRefs <==> child in Candidates(data) && SpellsRef(data, o, child)
  {
    ChildrenMeaning(data, o);
    ElementsAreSpelled(data, o, child);
  }

  /** So an edge of a chain of references is one spelled between two plausible arrays. */
  lemma RefersToIsSpelled(data: seq<byte>, from: nat, to: nat)
    ensures RefersTo(data, from, to)
       <==> from in Candidates(data) && to in Candidates(data) && from + 8 <= |data| && SpellsRef(data, from, to)
  {
    CandidateIs(data, from);
    CandidateIs(data, to);
    if from in Candidates(data) {
      EdgeIsReference(data, from, to);
      ChildrenAreSpelled(data, from, to);
    }
  }
}
