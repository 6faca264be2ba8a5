// The order of the carved strings, in which none is listed twice.
module StringOrder {
  import opened Bytes
  import opened Layout
  import opened Runs
  import opened Utf8Carver
  import opened Utf16Carver
  import opened Extraction

  /** Of two strings of one array the UTF-8 one comes first, and of two in one encoding the one at the lower offset. */
  predicate EarlierInArray(a: CarvedString, b: CarvedString) {
    && a.arrayOffset == b.arrayOffset
    && if a.encoding == b.encoding then a.fileOffset < b.fileOffset else a.encoding.Utf8Text?
  }

  predicate ListedInArrayOrder(strings: seq<CarvedString>) {
    forall i, j :: 0 <= i < j < |strings| ==> EarlierInArray(strings[i], strings[j])
  }

  lemma {:induction false} LocatedAt(node: ArrayNode, encoding: Encoding, found: seq<Found>)
    ensures |LocateAll(node, encoding, found)| == |found|
    ensures forall k :: 0 <= k < |found| ==> LocateAll(node, encoding, found)[k] == Locate(node, encoding, found[k])
  {
    if found != [] {
      LocatedAt(node, encoding, found[1..]);
    }
  }

  lemma LocatedInOrder(node: ArrayNode, encoding: Encoding, found: seq<Found>)
    requires OffsetsAscend(found)
    ensures ListedInArrayOrder(LocateAll(node, encoding, found))
    ensures forall c :: c in LocateAll(node, encoding, found) ==> c.arrayOffset == node.offset && c.encoding == encoding
  {
    LocatedAt(node, encoding, found);
  }

  /** The strings of one array are listed in order. */
  lemma ArrayStringsInOrder(printable: nat -> bool, data: seq<byte>, node: ArrayNode, minimum: nat)
    ensures ListedInArrayOrder(StringsOf(printable, data, node, minimum))
    ensures forall c :: c in StringsOf(printable, data, node, minimum) ==> c.arrayOffset == node.offset
  {
    if !node.hasRefs {
      var payload := PayloadOf(data, node);
      var texts, pairs := CarveUtf8(printable, payload, minimum), CarveUtf16(payload, minimum);
      CarvedUtf8IsExact(printable, payload, minimum);
      CarvedUtf16IsExact(payload, minimum);
      LocatedInOrder(node, Utf8Text, texts);
      LocatedInOrder(node, Utf16Le, pairs);
      TextsBeforePairs(node, LocateAll(node, Utf8Text, texts), LocateAll(node, Utf16Le, pairs));
    }
  }

  lemma TextsBeforePairs(node: ArrayNode, texts: seq<CarvedString>, pairs: seq<CarvedString>)
    requires ListedInArrayOrder(texts) && ListedInArrayOrder(pairs)
    requires forall c :: c in texts ==> c.arrayOffset == node.offset && c.encoding == Utf8Text
    requires forall c :: c in pairs ==> c.arrayOffset == node.offset && c.encoding == Utf16Le
    ensures ListedInArrayOrder(texts + pairs)
  {
    var all := texts + pairs;
    forall i, j | 0 <= i < j < |all| ensures EarlierInArray(all[i], all[j]) {
      if i < |texts| <= j {
        assert all[i] in texts && all[j] in pairs;
      }
    }
  }

  /** Of two strings the one whose array is listed first comes first; within one array they are in its order. */
  ghost predicate Earlier(nodes: seq<ArrayNode>, a: CarvedString, b: CarvedString) {
    EarlierInArray(a, b)
    || exists p: nat, q: nat :: p < q < |nodes| && nodes[p].offset == a.arrayOffset && nodes[q].offset == b.arrayOffset
  }

  ghost predicate ListedInOrder(nodes: seq<ArrayNode>, strings: seq<CarvedString>) {
    forall i, j :: 0 <= i < j < |strings| ==> Earlier(nodes, strings[i], strings[j])
  }

  lemma EarlierInRest(nodes: seq<ArrayNode>, a: CarvedString, b: CarvedString)
    requires nodes != [] && Earlier(nodes[1..], a, b)
    ensures Earlier(nodes, a, b)
  {
    if !EarlierInArray(a, b) {
      var rest := nodes[1..];
      var p: nat, q: nat :| p < q < |rest| && rest[p].offset == a.arrayOffset && rest[q].offset == b.arrayOffset;
      assert nodes[p + 1].offset == a.arrayOffset && nodes[q + 1].offset == b.arrayOffset;
    }
  }

  lemma FirstArrayEarlier(printable: nat -> bool, data: seq<byte>, nodes: seq<ArrayNode>, minimum: nat,
                          a: CarvedString, b: CarvedString)
    requires nodes != [] && a.arrayOffset == nodes[0].offset && b in AllStrings(printable, data, nodes[1..], minimum)
    ensures Earlier(nodes, a, b)
  {
    var k := StringSource(printable, data, nodes[1..], minimum, b);
    ArrayStringsInOrder(printable, data, nodes[1..][k], minimum);
    assert nodes[k + 1].offset == b.arrayOffset;
  }

  lemma JoinedInOrder(nodes: seq<ArrayNode>, first: seq<CarvedString>, rest: seq<CarvedString>)
    requires nodes != [] && ListedInArrayOrder(first) && ListedInOrder(nodes[1..], rest)
    requires forall a, b :: a in first && b in rest ==> Earlier(nodes, a, b)
    ensures ListedInOrder(nodes, first + rest)
  {
    forall i, j | 0 <= i < j < |first + rest| ensures Earlier(nodes, (first + rest)[i], (first + rest)[j]) {
      if i < |first| <= j {
        assert first[i] in first && rest[j - |first|] in rest;
      } else if |first| <= i {
        EarlierInRest(nodes, rest[i - |first|], rest[j - |first|]);
      }
    }
  }

  /** All strings are listed in the order of their arrays, and so each exactly once. */
  lemma {:induction false} StringsInOrder(printable: nat -> bool, data: seq<byte>, nodes: seq<ArrayNode>, minimum: nat)
    ensures ListedInOrder(nodes, AllStrings(printable, data, nodes, minimum))
  {
    if nodes != [] {
      var first := StringsOf(printable, data, nodes[0], minimum);
      var rest := AllStrings(printable, data, nodes[1..], minimum);
      ArrayStringsInOrder(printable, data, nodes[0], minimum);
      StringsInOrder(printable, data, nodes[1..], minimum);
      forall a, b | a in first && b in rest ensures Earlier(nodes, a, b) {
        FirstArrayEarlier(printable, data, nodes, minimum, a, b);
      }
      JoinedInOrder(nodes, first, rest);
    }
  }

  /** Arrays at ascending offsets. */
  predicate AscendingOffsets(nodes: seq<ArrayNode>) {
    forall i, j :: 0 <= i < j < |nodes| ==> nodes[i].offset < nodes[j].offset
  }

  /** The order of the report: by array, then UTF-8 before UTF-16LE, then by file offset. */
  predicate ReportedBefore(a: CarvedString, b: CarvedString) {
    a.arrayOffset < b.arrayOffset || EarlierInArray(a, b)
  }

  predicate StrictlyAscending(strings: seq<CarvedString>) {
    forall i, j :: 0 <= i < j < |strings| ==> ReportedBefore(strings[i], strings[j])
  }

  lemma StringsAscend(printable: nat -> bool, data: seq<byte>, nodes: seq<ArrayNode>, minimum: nat)
    requires AscendingOffsets(nodes)
    ensures StrictlyAscending(AllStrings(printable, data, nodes, minimum))
  {
    StringsInOrder(printable, data, nodes, minimum);
  }

  /** Of all strings listed only the one at position i surrounds the text, and the text is part of it. */
  ghost predicate OnlyStringAround(strings: seq<CarvedString>, node: ArrayNode, encoding: Encoding, from: nat,
                                   text: seq<nat>, i: nat)
    requires EncodedAs(encoding, text).Some?
  {
    && i < |strings| && StringAround(strings, node, encoding, from, text, strings[i])
    && (forall j | 0 <= j < |strings| && Surrounds(strings[j], node, encoding, from, text) :: j == i)
  }

  /**
   * Completeness over the file: a carvable text of at least `minimum` characters anywhere in the payload of
   * a non-reference array lies inside exactly one listed string of that array and encoding.
   */
  lemma TextIsReportedOnce(printable: nat -> bool, data: seq<byte>, nodes: seq<ArrayNode>, k: nat, minimum: nat,
                           encoding: Encoding, from: nat, text: seq<nat>) returns (i: nat)
    requires DistinctOffsets(nodes) && k < |nodes|
    requires 1 <= minimum <= |text| && TextAt(printable, data, nodes[k], encoding, from, text)
    ensures OnlyStringAround(AllStrings(printable, data, nodes, minimum), nodes[k], encoding, from, text, i)
  {
    var strings := AllStrings(printable, data, nodes, minimum);
    var c := TextInArrays(printable, data, nodes, k, minimum, encoding, from, text);
    StringsInOrder(printable, data, nodes, minimum);
    i :| 0 <= i < |strings| && strings[i] == c;
    forall j | 0 <= j < |strings| && Surrounds(strings[j], nodes[k], encoding, from, text) ensures j == i {
      assert strings[j] == c;
      NotEarlierThanItself(nodes, c);
    }
  }

  lemma NotEarlierThanItself(nodes: seq<ArrayNode>, c: CarvedString)
    requires DistinctOffsets(nodes)
    ensures !Earlier(nodes, c, c)
  {}
}
