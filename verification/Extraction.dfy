// Carving both encodings out of every non-reference payload, with file offsets and labels.
module Extraction {
  import opened Bytes
  import opened Layout
  import opened Runs
  import opened Utf8
  import opened Utf8Carver
  import opened Utf16Carver

  datatype Encoding = Utf8Text | Utf16Le

  datatype CarvedString = CarvedString(
    fileOffset: nat,
    arrayOffset: nat,
    encoding: Encoding,
    value: seq<nat>,
    reachability: Reachability)

  function PayloadOf(data: seq<byte>, node: ArrayNode): seq<byte> {
    var start := node.offset + ARRAY_HEADER_SIZE;
    Slice(data, start, start + node.payloadSize)
  }

  function Locate(node: ArrayNode, encoding: Encoding, found: Found): CarvedString {
    CarvedString(node.offset + ARRAY_HEADER_SIZE + found.offset, node.offset, encoding, found.value, node.reachability)
  }

  function LocateAll(node: ArrayNode, encoding: Encoding, found: seq<Found>): seq<CarvedString> {
    if found == [] then [] else [Locate(node, encoding, found[0])] + LocateAll(node, encoding, found[1..])
  }

  /** The strings of one array: none for a reference array, else the UTF-8 ones and then the UTF-16LE ones. */
  ghost function StringsOf(printable: nat -> bool, data: seq<byte>, node: ArrayNode, minimum: nat): seq<CarvedString> {
    if node.hasRefs then []
    else
      LocateAll(node, Utf8Text, CarveUtf8(printable, PayloadOf(data, node), minimum))
      + LocateAll(node, Utf16Le, CarveUtf16(PayloadOf(data, node), minimum))
  }

  ghost function AllStrings(printable: nat -> bool, data: seq<byte>, nodes: seq<ArrayNode>, minimum: nat)
    : seq<CarvedString>
  {
    if nodes == [] then []
    else StringsOf(printable, data, nodes[0], minimum) + AllStrings(printable, data, nodes[1..], minimum)
  }

  /** No payload of the file holds more pairs than half the file's bytes: skipping the search loses nothing. */
  lemma ShortcutLosesNothing(data: seq<byte>, node: ArrayNode, minimum: nat)
    requires minimum > |data| / 2
    ensures CarveUtf16(PayloadOf(data, node), minimum) == []
  {
    var payload := PayloadOf(data, node);
    PairsSynchronised(payload);
    var runs := AllRuns(PairGrid(payload));
    forall k | 0 <= k < |runs| ensures |runs[k].text| < minimum {
      RunLength(payload, minimum, runs[k]);
    }
    AllTooShort(runs, minimum);
  }

  lemma PayloadIgnoresHeader(a: seq<byte>, b: seq<byte>, node: ArrayNode)
    requires |a| == |b| && (forall k :: FILE_HEADER_SIZE <= k < |a| ==> a[k] == b[k])
    requires FILE_HEADER_SIZE <= node.offset
    ensures PayloadOf(a, node) == PayloadOf(b, node)
  {
    var x, y := PayloadOf(a, node), PayloadOf(b, node);
    assert |x| == |y|;
    forall k | 0 <= k < |x| ensures x[k] == y[k] {
      assert x[k] == a[node.offset + ARRAY_HEADER_SIZE + k] && y[k] == b[node.offset + ARRAY_HEADER_SIZE + k];
    }
  }

  /** Files of one length that differ only in the 24 header bytes carry the same text in the same arrays. */
  lemma {:induction false} StringsIgnoreHeader(printable: nat -> bool, a: seq<byte>, b: seq<byte>,
                                               nodes: seq<ArrayNode>, minimum: nat)
    requires |a| == |b| && (forall k :: FILE_HEADER_SIZE <= k < |a| ==> a[k] == b[k])
    requires forall k :: 0 <= k < |nodes| ==> FILE_HEADER_SIZE <= nodes[k].offset
    ensures AllStrings(printable, a, nodes, minimum) == AllStrings(printable, b, nodes, minimum)
  {
    if nodes != [] {
      PayloadIgnoresHeader(a, b, nodes[0]);
      StringsIgnoreHeader(printable, a, b, nodes[1..], minimum);
    }
  }

  lemma AllStringsSplit(printable: nat -> bool, data: seq<byte>, nodes: seq<ArrayNode>, k: nat, minimum: nat,
                        strings: seq<CarvedString>)
    requires k < |nodes|
    ensures strings + AllStrings(printable, data, nodes[k..], minimum)
         == strings + StringsOf(printable, data, nodes[k], minimum)
            + AllStrings(printable, data, nodes[k + 1..], minimum)
  {
    assert nodes[k..][1..] == nodes[k + 1..];
    var one, rest := StringsOf(printable, data, nodes[k], minimum),
                     AllStrings(printable, data, nodes[k + 1..], minimum);
    assert strings + (one + rest) == strings + one + rest;
  }

  method AppendLocated(strings: seq<CarvedString>, node: ArrayNode, encoding: Encoding, found: seq<Found>)
      returns (longer: seq<CarvedString>)
    ensures longer == strings + LocateAll(node, encoding, found)
  {
    longer := strings;
    for k := 0 to |found|
      invariant longer + LocateAll(node, encoding, found[k..]) == strings + LocateAll(node, encoding, found)
    {
      assert found[k..][1..] == found[k + 1..];
      longer := longer + [Locate(node, encoding, found[k])];
    }
  }

  /** The body of the extraction loop for one array. */
  method AppendStringsOf(strings: seq<CarvedString>, printable: nat -> bool, data: seq<byte>, node: ArrayNode,
                         minimum: nat, searchPairs: bool)
      returns (longer: seq<CarvedString>)
    requires 1 <= minimum && (searchPairs <==> minimum <= |data| / 2)
    ensures longer == strings + StringsOf(printable, data, node, minimum)
  {
    if node.hasRefs {
      return strings;
    }
    var payload := PayloadOf(data, node);
    var texts := Utf8Strings(printable, payload, minimum);
    longer := AppendLocated(strings, node, Utf8Text, texts);
    if searchPairs {
      var pairs := FindPairRuns(payload, minimum);
      longer := AppendLocated(longer, node, Utf16Le, pairs);
    } else {
      ShortcutLosesNothing(data, node, minimum);
    }
  }

  /** The extraction loop, with its guard on impossibly large minimums. */
  method ExtractStrings(printable: nat -> bool, data: seq<byte>, nodes: seq<ArrayNode>, minimum: nat)
      returns (strings: seq<CarvedString>)
    requires 1 <= minimum
    ensures strings == AllStrings(printable, data, nodes, minimum)
  {
    strings := [];
    var searchPairs := minimum <= |data| / 2;
    ghost var total := AllStrings(printable, data, nodes, minimum);
    assert nodes[0..] == nodes;
    for k := 0 to |nodes|
      invariant total == strings + AllStrings(printable, data, nodes[k..], minimum)
    {
      AllStringsSplit(printable, data, nodes, k, minimum, strings);
      strings := AppendStringsOf(strings, printable, data, nodes[k], minimum, searchPairs);
    }
  }

  /** The strings with at least `minimum` characters, in order. */
  function KeepLong(strings: seq<CarvedString>, minimum: nat): seq<CarvedString> {
    if strings == [] then []
    else if |strings[0].value| >= minimum then [strings[0]] + KeepLong(strings[1..], minimum)
    else KeepLong(strings[1..], minimum)
  }

  lemma {:induction false} KeepLongConcat(a: seq<CarvedString>, b: seq<CarvedString>, minimum: nat)
    ensures KeepLong(a + b, minimum) == KeepLong(a, minimum) + KeepLong(b, minimum)
  {
    if a == [] {
      assert a + b == b;
    } else {
      assert (a + b)[1..] == a[1..] + b;
      KeepLongConcat(a[1..], b, minimum);
    }
  }

  lemma {:induction false} LocateLong(node: ArrayNode, encoding: Encoding, found: seq<Found>, minimum: nat)
    ensures LocateAll(node, encoding, LongEnough(found, minimum)) == KeepLong(LocateAll(node, encoding, found), minimum)
  {
    if found != [] {
      LocateLong(node, encoding, found[1..], minimum);
      var rest := LongEnough(found[1..], minimum);
      assert ([found[0]] + rest)[1..] == rest;
    }
  }

  /** Raising the minimum only filters, across all arrays and both encodings. */
  lemma {:induction false} RaisingTheMinimumFilters(printable: nat -> bool, data: seq<byte>, nodes: seq<ArrayNode>,
                                                    low: nat, high: nat)
    requires low <= high
    ensures AllStrings(printable, data, nodes, high) == KeepLong(AllStrings(printable, data, nodes, low), high)
  {
    if nodes != [] {
      RaisingTheMinimumFilters(printable, data, nodes[1..], low, high);
      RaisingFiltersOne(printable, data, nodes[0], low, high);
      KeepLongConcat(StringsOf(printable, data, nodes[0], low), AllStrings(printable, data, nodes[1..], low), high);
    }
  }

  lemma RaisingFiltersOne(printable: nat -> bool, data: seq<byte>, node: ArrayNode, low: nat, high: nat)
    requires low <= high
    ensures StringsOf(printable, data, node, high) == KeepLong(StringsOf(printable, data, node, low), high)
  {
    if !node.hasRefs {
      var payload := PayloadOf(data, node);
      Utf8Synchronised(printable, payload);
      PairsSynchronised(payload);
      RaisingFilters(AllRuns(Utf8Grid(printable, payload)), low, high);
      RaisingFilters(AllRuns(PairGrid(payload)), low, high);
      var texts, pairs := CarveUtf8(printable, payload, low), CarveUtf16(payload, low);
      LocateLong(node, Utf8Text, texts, high);
      LocateLong(node, Utf16Le, pairs, high);
      KeepLongConcat(LocateAll(node, Utf8Text, texts), LocateAll(node, Utf16Le, pairs), high);
    }
  }

  lemma {:induction false} LocateAllMembers(node: ArrayNode, encoding: Encoding, found: seq<Found>)
    ensures forall c :: c in LocateAll(node, encoding, found)
                   <==> exists f :: f in found && c == Locate(node, encoding, f)
  {
    if found != [] {
      LocateAllMembers(node, encoding, found[1..]);
      assert forall f :: f in found <==> f == found[0] || f in found[1..];
    }
  }

  lemma {:induction false} AllStringsMembers(printable: nat -> bool, data: seq<byte>, nodes: seq<ArrayNode>,
                                             minimum: nat)
    ensures forall c :: c in AllStrings(printable, data, nodes, minimum)
                   <==> exists n :: n in nodes && c in StringsOf(printable, data, n, minimum)
  {
    if nodes != [] {
      AllStringsMembers(printable, data, nodes[1..], minimum);
      assert forall n :: n in nodes <==> n == nodes[0] || n in nodes[1..];
    }
  }

  /** The bytes of a text in an encoding; None when it has none there. */
  function EncodedAs(encoding: Encoding, text: seq<nat>): Option<seq<byte>> {
    match encoding
    case Utf8Text => if AllScalar(text) then Some(EncodeAll(text)) else None
    case Utf16Le => if PrintableAscii(text) then Some(EncodeUtf16(text)) else None
  }

  /** The bytes a carved string stands for in its stated encoding. */
  function Reencoded(c: CarvedString): Option<seq<byte>> {
    EncodedAs(c.encoding, c.value)
  }

  /** `c` was carved from the payload of `node`: label, offsets and bytes agree. */
  predicate CarvedFrom(data: seq<byte>, node: ArrayNode, c: CarvedString) {
    && !node.hasRefs && c.arrayOffset == node.offset && c.reachability == node.reachability
    && Reencoded(c).Some?
    && var bytes := Reencoded(c).value;
       && node.offset + ARRAY_HEADER_SIZE <= c.fileOffset
       && c.fileOffset + |bytes| <= node.offset + ARRAY_HEADER_SIZE + node.payloadSize
       && c.fileOffset + |bytes| <= |data|
       && data[c.fileOffset..c.fileOffset + |bytes|] == bytes
  }

  /** A nonempty range of the payload is the same range of the file. */
  lemma PayloadBytes(data: seq<byte>, node: ArrayNode, at: nat, bytes: seq<byte>)
    requires at + |bytes| <= |PayloadOf(data, node)| && PayloadOf(data, node)[at..at + |bytes|] == bytes
    requires bytes != []
    ensures var from := node.offset + ARRAY_HEADER_SIZE + at;
            from + |bytes| <= node.offset + ARRAY_HEADER_SIZE + node.payloadSize
            && from + |bytes| <= |data| && data[from..from + |bytes|] == bytes
  {
    var start, payload := node.offset + ARRAY_HEADER_SIZE, PayloadOf(data, node);
    assert payload == data[start..start + |payload|];
    forall k | 0 <= k < |bytes| ensures data[start + at + k] == bytes[k] {
      assert payload[at..at + |bytes|][k] == payload[at + k] == data[start + at + k];
    }
  }

  /** The find behind a located string. */
  lemma LocateSource(node: ArrayNode, encoding: Encoding, found: seq<Found>, c: CarvedString) returns (f: Found)
    requires c in LocateAll(node, encoding, found)
    ensures f in found && c == Locate(node, encoding, f)
  {
    LocateAllMembers(node, encoding, found);
    f :| f in found && c == Locate(node, encoding, f);
  }

  lemma Utf8Provenance(printable: nat -> bool, data: seq<byte>, node: ArrayNode, minimum: nat, c: CarvedString)
    requires 1 <= minimum && !node.hasRefs
    requires c in LocateAll(node, Utf8Text, CarveUtf8(printable, PayloadOf(data, node), minimum))
    ensures CarvedFrom(data, node, c) && |c.value| >= minimum
  {
    var f := LocateSource(node, Utf8Text, CarveUtf8(printable, PayloadOf(data, node), minimum), c);
    CarvedUtf8Bytes(printable, PayloadOf(data, node), minimum, f);
    EncodedNonempty(f.value);
    PayloadBytes(data, node, f.offset, EncodeAll(f.value));
  }

  lemma Utf16Provenance(data: seq<byte>, node: ArrayNode, minimum: nat, c: CarvedString)
    requires 1 <= minimum && !node.hasRefs
    requires c in LocateAll(node, Utf16Le, CarveUtf16(PayloadOf(data, node), minimum))
    ensures CarvedFrom(data, node, c) && |c.value| >= minimum
  {
    var f := LocateSource(node, Utf16Le, CarveUtf16(PayloadOf(data, node), minimum), c);
    CarvedUtf16Bytes(PayloadOf(data, node), minimum, f);
    PayloadBytes(data, node, f.offset, EncodeUtf16(f.value));
  }

  /** The array behind a carved string. */
  lemma StringSource(printable: nat -> bool, data: seq<byte>, nodes: seq<ArrayNode>, minimum: nat, c: CarvedString)
      returns (k: nat)
    requires c in AllStrings(printable, data, nodes, minimum)
    ensures k < |nodes| && c in StringsOf(printable, data, nodes[k], minimum)
  {
    AllStringsMembers(printable, data, nodes, minimum);
    var node :| node in nodes && c in StringsOf(printable, data, node, minimum);
    k :| 0 <= k < |nodes| && nodes[k] == node;
  }

  lemma StringIsListed(printable: nat -> bool, data: seq<byte>, nodes: seq<ArrayNode>, minimum: nat, c: CarvedString,
                       k: nat)
    requires k < |nodes| && c in StringsOf(printable, data, nodes[k], minimum)
    ensures c in AllStrings(printable, data, nodes, minimum)
  {
    AllStringsMembers(printable, data, nodes, minimum);
    assert nodes[k] in nodes;
  }

  /** Every carved string comes from one of the arrays, whatever its encoding. */
  lemma StringsHaveProvenance(printable: nat -> bool, data: seq<byte>, nodes: seq<ArrayNode>, minimum: nat,
                              c: CarvedString)
      returns (node: ArrayNode)
    requires 1 <= minimum && c in AllStrings(printable, data, nodes, minimum)
    ensures node in nodes && CarvedFrom(data, node, c) && |c.value| >= minimum
  {
    var k := StringSource(printable, data, nodes, minimum, c);
    node := nodes[k];
    if c in LocateAll(node, Utf8Text, CarveUtf8(printable, PayloadOf(data, node), minimum)) {
      Utf8Provenance(printable, data, node, minimum, c);
    } else {
      Utf16Provenance(data, node, minimum, c);
    }
  }

  /** The texts a carver looks for. */
  predicate Carvable(printable: nat -> bool, encoding: Encoding, text: seq<nat>) {
    match encoding
    case Utf8Text => AllScalar(text) && AllKept(printable, text)
    case Utf16Le => PrintableAscii(text)
  }

  ghost function Carve(printable: nat -> bool, encoding: Encoding, payload: seq<byte>, minimum: nat): seq<Found> {
    match encoding
    case Utf8Text => CarveUtf8(printable, payload, minimum)
    case Utf16Le => CarveUtf16(payload, minimum)
  }

  /** The string's own bytes take in the range of `len` bytes at `at`. */
  predicate FoundCovers(encoding: Encoding, f: Found, at: nat, len: nat) {
    && EncodedAs(encoding, f.value).Some?
    && f.offset <= at && at + len <= f.offset + |EncodedAs(encoding, f.value).value|
  }

  predicate Covers(c: CarvedString, from: nat, len: nat) {
    && Reencoded(c).Some?
    && c.fileOffset <= from && from + len <= c.fileOffset + |Reencoded(c).value|
  }

  /** In one payload a carvable text of enough characters lies inside exactly one string of its encoding. */
  lemma CarvedOnce(printable: nat -> bool, encoding: Encoding, payload: seq<byte>, minimum: nat, at: nat,
                   text: seq<nat>) returns (f: Found)
    requires 1 <= minimum <= |text| && Carvable(printable, encoding, text)
    requires var bytes := EncodedAs(encoding, text).value;
             at + |bytes| <= |payload| && payload[at..at + |bytes|] == bytes
    ensures f in Carve(printable, encoding, payload, minimum)
    ensures FoundCovers(encoding, f, at, |EncodedAs(encoding, text).value|)
    ensures exists skipped :: PartOf(text, f.value, skipped)
    ensures forall h | h in Carve(printable, encoding, payload, minimum)
                       && FoundCovers(encoding, h, at, |EncodedAs(encoding, text).value|) :: h == f
  {
    match encoding
    case Utf8Text =>
      f := ValidTextIsCarved(printable, payload, minimum, at, text);
    case Utf16Le =>
      f := PairsCarvedOnce(payload, minimum, at, text);
  }

  lemma MiddleIsPart(inner: seq<nat>, outer: seq<nat>)
    requires exists before, after :: outer == before + inner + after
    ensures exists skipped :: PartOf(inner, outer, skipped)
  {
    var before, after :| outer == before + inner + after;
    assert PartOf(inner, outer, |before|);
  }

  lemma PairsCarvedOnce(payload: seq<byte>, minimum: nat, at: nat, text: seq<nat>) returns (f: Found)
    requires 1 <= minimum <= |text| && PrintableAscii(text)
    requires at + 2 * |text| <= |payload| && payload[at..at + 2 * |text|] == EncodeUtf16(text)
    ensures f in CarveUtf16(payload, minimum) && FoundCovers(Utf16Le, f, at, 2 * |text|)
    ensures exists skipped :: PartOf(text, f.value, skipped)
    ensures forall h | h in CarveUtf16(payload, minimum) && FoundCovers(Utf16Le, h, at, 2 * |text|) :: h == f
  {
    f := AsciiPairsAreCarved(payload, minimum, at, text);
    CarvedUtf16Bytes(payload, minimum, f);
    MiddleIsPart(text, f.value);
    forall h | h in CarveUtf16(payload, minimum) && FoundCovers(Utf16Le, h, at, 2 * |text|) ensures h == f {
      assert h.offset <= at < h.offset + 2 * |h.value|;
    }
  }

  /** The strings of one array in one encoding. */
  lemma StringsOfEncoding(printable: nat -> bool, data: seq<byte>, node: ArrayNode, minimum: nat, c: CarvedString)
    ensures c in StringsOf(printable, data, node, minimum)
       <==> !node.hasRefs
            && c in LocateAll(node, c.encoding, Carve(printable, c.encoding, PayloadOf(data, node), minimum))
    ensures c in StringsOf(printable, data, node, minimum) ==> c.arrayOffset == node.offset
  {
    LocateAllMembers(node, Utf8Text, CarveUtf8(printable, PayloadOf(data, node), minimum));
    LocateAllMembers(node, Utf16Le, CarveUtf16(PayloadOf(data, node), minimum));
  }

  lemma FoundIsLocated(node: ArrayNode, encoding: Encoding, found: seq<Found>, f: Found)
    requires f in found
    ensures Locate(node, encoding, f) in LocateAll(node, encoding, found)
  {
    LocateAllMembers(node, encoding, found);
  }

  /** A carvable text stands at `from` inside the payload of a non-reference array. */
  predicate TextAt(printable: nat -> bool, data: seq<byte>, node: ArrayNode, encoding: Encoding, from: nat,
                   text: seq<nat>)
  {
    && !node.hasRefs && Carvable(printable, encoding, text)
    && node.offset + ARRAY_HEADER_SIZE <= from
    && var bytes := EncodedAs(encoding, text).value;
       && from + |bytes| <= node.offset + ARRAY_HEADER_SIZE + node.payloadSize <= |data|
       && data[from..from + |bytes|] == bytes
  }

  /** `d` is a string of the array, in the encoding, around the text's bytes. */
  predicate Surrounds(d: CarvedString, node: ArrayNode, encoding: Encoding, from: nat, text: seq<nat>)
    requires EncodedAs(encoding, text).Some?
  {
    && d.encoding == encoding && d.arrayOffset == node.offset
    && Covers(d, from, |EncodedAs(encoding, text).value|)
  }

  /** `c` is the only such value in the list, carries the array's label, and the text is part of it. */
  ghost predicate StringAround(strings: seq<CarvedString>, node: ArrayNode, encoding: Encoding, from: nat,
                               text: seq<nat>, c: CarvedString)
    requires EncodedAs(encoding, text).Some?
  {
    && c in strings && c.reachability == node.reachability && Surrounds(c, node, encoding, from, text)
    && (exists skipped :: PartOf(text, c.value, skipped))
    && (forall d | d in strings && Surrounds(d, node, encoding, from, text) :: d == c)
  }

  /** One array holds exactly one string around a carvable text of its payload. */
  lemma TextInArrayOnce(printable: nat -> bool, data: seq<byte>, node: ArrayNode, minimum: nat, encoding: Encoding,
                        from: nat, text: seq<nat>) returns (c: CarvedString)
    requires 1 <= minimum <= |text| && TextAt(printable, data, node, encoding, from, text)
    ensures StringAround(StringsOf(printable, data, node, minimum), node, encoding, from, text, c)
  {
    var at, bytes := from - node.offset - ARRAY_HEADER_SIZE, EncodedAs(encoding, text).value;
    var found := Carve(printable, encoding, PayloadOf(data, node), minimum);
    RangeOfPayload(data, node, from, bytes, at);
    var f := CarvedOnce(printable, encoding, PayloadOf(data, node), minimum, at, text);
    c := Locate(node, encoding, f);
    FoundIsLocated(node, encoding, found, f);
    StringsOfEncoding(printable, data, node, minimum, c);
    forall d | d in StringsOf(printable, data, node, minimum) && Surrounds(d, node, encoding, from, text)
      ensures d == c
    {
      StringsOfEncoding(printable, data, node, minimum, d);
      var h := LocateSource(node, encoding, found, d);
      assert FoundCovers(encoding, h, at, |bytes|);
    }
  }

  lemma RangeOfPayload(data: seq<byte>, node: ArrayNode, from: nat, bytes: seq<byte>, at: nat)
    requires from == node.offset + ARRAY_HEADER_SIZE + at
    requires node.offset + ARRAY_HEADER_SIZE + node.payloadSize <= |data| && at + |bytes| <= node.payloadSize
    requires data[from..from + |bytes|] == bytes
    ensures at + |bytes| <= |PayloadOf(data, node)| && PayloadOf(data, node)[at..at + |bytes|] == bytes
  {
    var start, payload := node.offset + ARRAY_HEADER_SIZE, PayloadOf(data, node);
    assert |payload| == node.payloadSize;
    forall k | 0 <= k < |bytes| ensures payload[at + k] == bytes[k] {
      assert payload[at + k] == data[start + at + k] == data[from..from + |bytes|][k];
    }
  }

  /** No two arrays stand at one offset. */
  predicate DistinctOffsets(nodes: seq<ArrayNode>) {
    forall i, j :: 0 <= i < j < |nodes| ==> nodes[i].offset != nodes[j].offset
  }

  /** The same among the strings of all arrays. */
  lemma TextInArrays(printable: nat -> bool, data: seq<byte>, nodes: seq<ArrayNode>, k: nat, minimum: nat,
                     encoding: Encoding, from: nat, text: seq<nat>) returns (c: CarvedString)
    requires DistinctOffsets(nodes) && k < |nodes|
    requires 1 <= minimum <= |text| && TextAt(printable, data, nodes[k], encoding, from, text)
    ensures StringAround(AllStrings(printable, data, nodes, minimum), nodes[k], encoding, from, text, c)
  {
    c := TextInArrayOnce(printable, data, nodes[k], minimum, encoding, from, text);
    StringIsListed(printable, data, nodes, minimum, c, k);
    forall d | d in AllStrings(printable, data, nodes, minimum) && d.arrayOffset == nodes[k].offset
      ensures d in StringsOf(printable, data, nodes[k], minimum)
    {
      var l := StringSource(printable, data, nodes, minimum, d);
      StringsOfEncoding(printable, data, nodes[l], minimum, d);
      assert l == k;
    }
  }
}
