// Cutting the file short invents no text either.
module TruncatedText {
  import opened Bytes
  import opened Layout
  import opened Scanner
  import opened Classification
  import opened Truncation
  import opened Utf8Carver
  import opened Utf16Carver
  import Runs
  import opened Extraction
  import opened Analysis

  /** The same string, with a label that is at most as high. */
  predicate SameText(small: CarvedString, big: CarvedString) {
    small == big.(reachability := small.reachability) && AtMost(small.reachability, big.reachability)
  }

  lemma CutPayload(data: seq<byte>, n: nat, small: ArrayNode, big: ArrayNode)
    requires n <= |data| && small.offset == big.offset && small.payloadSize == big.payloadSize
    requires small.offset + ARRAY_HEADER_SIZE + small.payloadSize <= n
    ensures PayloadOf(data[..n], small) == PayloadOf(data, big)
  {}

  lemma SameStringElsewhere(printable: nat -> bool, cut: seq<byte>, data: seq<byte>, small: ArrayNode, big: ArrayNode,
                            minimum: nat, c: CarvedString) returns (d: CarvedString)
    requires PayloadOf(cut, small) == PayloadOf(data, big)
    requires small.offset == big.offset && small.hasRefs == big.hasRefs && AtMost(small.reachability, big.reachability)
    requires c in StringsOf(printable, cut, small, minimum)
    ensures d in StringsOf(printable, data, big, minimum) && SameText(c, d)
  {
    var texts, pairs := CarveUtf8(printable, PayloadOf(data, big), minimum), CarveUtf16(PayloadOf(data, big), minimum);
    d := c.(reachability := big.reachability);
    if c in LocateAll(small, Utf8Text, texts) {
      Relocated(small, big, Utf8Text, texts, c);
    } else {
      Relocated(small, big, Utf16Le, pairs, c);
    }
  }

  lemma Relocated(small: ArrayNode, big: ArrayNode, encoding: Encoding, found: seq<Runs.Found>, c: CarvedString)
    requires small.offset == big.offset && c in LocateAll(small, encoding, found)
    ensures c.reachability == small.reachability
    ensures c.(reachability := big.reachability) in LocateAll(big, encoding, found)
  {
    LocateAllMembers(small, encoding, found);
    LocateAllMembers(big, encoding, found);
    var f :| f in found && c == Locate(small, encoding, f);
    assert c.(reachability := big.reachability) == Locate(big, encoding, f);
  }

  /** A surviving array with its payload, in the cut file and in the whole one. */
  lemma CutArrayPayload(data: seq<byte>, n: nat, header: RealmHeader, i: nat) returns (j: nat)
    requires n <= |data| && i < |FileArrays(data[..n], header)|
    ensures j < |FileArrays(data, header)|
    ensures var small, big := FileArrays(data[..n], header)[i], FileArrays(data, header)[j];
            && small.offset == big.offset && small.hasRefs == big.hasRefs
            && AtMost(small.reachability, big.reachability)
            && PayloadOf(data[..n], small) == PayloadOf(data, big)
  {
    j := CutArray(data, n, header, i);
    var small, big := FileArrays(data[..n], header)[i], FileArrays(data, header)[j];
    ReportedAt(data[..n], header, i);
    CandidateIs(data[..n], small.offset);
    CutPayload(data, n, small, big);
  }

  /**
   * Every string carved from a non-streaming file cut anywhere past its header is carved from the whole
   * file too, at the same offset of the same array, under a label at least as high.
   */
  lemma TruncationInventsNoText(printable: nat -> bool, data: seq<byte>, n: nat, minimum: nat, c: CarvedString)
      returns (d: CarvedString)
    requires FILE_HEADER_SIZE <= n <= |data|
    requires ParseHeader(data).Some? && !ParseHeader(data).value.streaming
    requires c in ReportedStrings(printable, data[..n], Some(minimum))
    ensures d in ReportedStrings(printable, data, Some(minimum)) && SameText(c, d)
  {
    CutHeader(data, n);
    d := SameTextInWhole(printable, data, n, ParseHeader(data).value, minimum, c);
  }

  lemma SameTextInWhole(printable: nat -> bool, data: seq<byte>, n: nat, header: RealmHeader, minimum: nat,
                        c: CarvedString) returns (d: CarvedString)
    requires n <= |data| && c in AllStrings(printable, data[..n], FileArrays(data[..n], header), minimum)
    ensures d in AllStrings(printable, data, FileArrays(data, header), minimum) && SameText(c, d)
  {
    var cut, whole := FileArrays(data[..n], header), FileArrays(data, header);
    var i := StringSource(printable, data[..n], cut, minimum, c);
    var j := CutArrayPayload(data, n, header, i);
    d := SameStringElsewhere(printable, data[..n], data, cut[i], whole[j], minimum, c);
    StringIsListed(printable, data, whole, minimum, d, j);
  }

  lemma SamePosition(arrays: seq<ArrayNode>, j: nat, k: nat)
    requires DistinctOffsets(arrays) && j < |arrays| && k < |arrays| && arrays[j].offset == arrays[k].offset
    ensures j == k
  {}

  /** The surviving counterpart of an array that still fits. */
  lemma SurvivorPayload(data: seq<byte>, n: nat, header: RealmHeader, k: nat) returns (i: nat)
    requires n <= |data| && k < |FileArrays(data, header)|
    requires var big := FileArrays(data, header)[k]; big.offset + big.byteSize <= n
    ensures i < |FileArrays(data[..n], header)|
    ensures var small, big := FileArrays(data[..n], header)[i], FileArrays(data, header)[k];
            && small.offset == big.offset && small.hasRefs == big.hasRefs
            && AtMost(small.reachability, big.reachability)
            && PayloadOf(data[..n], small) == PayloadOf(data, big)
  {
    i := FittingArraySurvives(data, n, header, k);
    var j := CutArrayPayload(data, n, header, i);
    ReportedOffsetsAreDistinct(data, header);
    SamePosition(FileArrays(data, header), j, k);
  }

  lemma SameStringInCut(printable: nat -> bool, cut: seq<byte>, data: seq<byte>, small: ArrayNode, big: ArrayNode,
                        minimum: nat, d: CarvedString) returns (c: CarvedString)
    requires PayloadOf(cut, small) == PayloadOf(data, big)
    requires small.offset == big.offset && small.hasRefs == big.hasRefs && AtMost(small.reachability, big.reachability)
    requires d in StringsOf(printable, data, big, minimum)
    ensures c in StringsOf(printable, cut, small, minimum) && SameText(c, d)
  {
    StringsOfEncoding(printable, data, big, minimum, d);
    c := d.(reachability := small.reachability);
    Relocated(big, small, d.encoding, Carve(printable, d.encoding, PayloadOf(data, big), minimum), d);
    StringsOfEncoding(printable, cut, small, minimum, c);
  }

  lemma KeptInCut(printable: nat -> bool, data: seq<byte>, n: nat, header: RealmHeader, k: nat, minimum: nat,
                  d: CarvedString) returns (c: CarvedString)
    requires n <= |data| && k < |FileArrays(data, header)|
    requires d in StringsOf(printable, data, FileArrays(data, header)[k], minimum)
    requires d.arrayOffset in Candidates(data) && d.arrayOffset + Candidates(data)[d.arrayOffset].byteSize <= n
    ensures c in AllStrings(printable, data[..n], FileArrays(data[..n], header), minimum) && SameText(c, d)
  {
    var big := FileArrays(data, header)[k];
    StringsOfEncoding(printable, data, big, minimum, d);
    ReportedAt(data, header, k);
    CandidateIs(data, big.offset);
    var i := SurvivorPayload(data, n, header, k);
    var cut := FileArrays(data[..n], header);
    c := SameStringInCut(printable, data[..n], data, cut[i], big, minimum, d);
    StringIsListed(printable, data[..n], cut, minimum, c, i);
  }

  lemma SameTextInCut(printable: nat -> bool, data: seq<byte>, n: nat, header: RealmHeader, minimum: nat,
                      d: CarvedString) returns (c: CarvedString)
    requires n <= |data| && d in AllStrings(printable, data, FileArrays(data, header), minimum)
    requires d.arrayOffset in Candidates(data) && d.arrayOffset + Candidates(data)[d.arrayOffset].byteSize <= n
    ensures c in AllStrings(printable, data[..n], FileArrays(data[..n], header), minimum) && SameText(c, d)
  {
    var k := StringSource(printable, data, FileArrays(data, header), minimum, d);
    c := KeptInCut(printable, data, n, header, k, minimum, d);
  }

  /**
   * Conversely no text of a surviving array is lost: every string carved from an array that still fits after
   * the cut is carved from the cut file too, under a label at most as high.
   */
  lemma SurvivingTextIsKept(printable: nat -> bool, data: seq<byte>, n: nat, minimum: nat, d: CarvedString)
      returns (c: CarvedString)
    requires FILE_HEADER_SIZE <= n <= |data|
    requires ParseHeader(data).Some? && !ParseHeader(data).value.streaming
    requires d in ReportedStrings(printable, data, Some(minimum))
    requires d.arrayOffset in Candidates(data) && d.arrayOffset + Candidates(data)[d.arrayOffset].byteSize <= n
    ensures c in ReportedStrings(printable, data[..n], Some(minimum)) && SameText(c, d)
  {
    CutHeader(data, n);
    c := SameTextInCut(printable, data, n, ParseHeader(data).value, minimum, d);
  }
}
