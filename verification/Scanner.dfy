// Finding every structurally plausible array.
module Scanner {
  import opened Bytes
  import opened Layout

  function FlagsAt(data: seq<byte>, offset: nat): byte
    requires offset + ARRAY_HEADER_SIZE <= |data|
  {
    data[offset + 4]
  }

  function CountAt(data: seq<byte>, offset: nat): nat
    requires offset + ARRAY_HEADER_SIZE <= |data|
  {
    BigEndian(data[offset + 5..offset + 8])
  }

  /** An aligned signature past the file header, a known width scheme, and an extent inside the file. */
  predicate PlausibleAt(data: seq<byte>, offset: nat) {
    && FILE_HEADER_SIZE <= offset
    && offset % 8 == 0
    && offset + ARRAY_HEADER_SIZE <= |data|
    && OccursAt(data, ARRAY_SIGNATURE, offset)
    && WidthScheme(FlagsAt(data, offset)) != 3
    && var bits := CountAt(data, offset) * BitsPerElement(FlagsAt(data, offset));
       // least multiple of 64 bits covering the elements
       offset + ARRAY_HEADER_SIZE + (bits + 63) / 64 * 8 <= |data|
  }

  /** The array header at `offset`, decoded. */
  function NodeAt(data: seq<byte>, offset: nat): ArrayNode
    requires offset + ARRAY_HEADER_SIZE <= |data|
  {
    var flags, count := FlagsAt(data, offset), CountAt(data, offset);
    var payload := (count * BitsPerElement(flags) + 63) / 64 * 8;
    ArrayNode(offset, ARRAY_HEADER_SIZE + payload, payload, count, CodedWidth(flags), WidthScheme(flags),
              flags / 64 % 2 == 1, flags / 128 % 2 == 1, flags / 32 % 2 == 1, [], Orphan)
  }

  /** Every plausible array below `limit`, keyed by offset. */
  function CandidatesBelow(data: seq<byte>, limit: nat): map<nat, ArrayNode> {
    map o: nat | o < limit && PlausibleAt(data, o) :: NodeAt(data, o)
  }

  function Candidates(data: seq<byte>): map<nat, ArrayNode> {
    CandidatesBelow(data, |data|)
  }

  /** The array's extent lies in the file and, for bit-width arrays, its elements in the payload. */
  predicate Fits(data: seq<byte>, offset: nat, node: ArrayNode) {
    && node.byteSize == ARRAY_HEADER_SIZE + node.payloadSize
    && offset + node.byteSize <= |data|
    && (node.widthScheme == 0 ==> node.elementCount * node.width <= 8 * node.payloadSize)
  }

  /** What being a candidate says, without the byte-level detail of the signature test. */
  lemma CandidateIs(data: seq<byte>, offset: nat)
    ensures offset in Candidates(data) <==> PlausibleAt(data, offset)
    ensures offset in Candidates(data) ==>
              && FILE_HEADER_SIZE <= offset && offset % 8 == 0
              && offset + ARRAY_HEADER_SIZE <= |data|
              && var node := Candidates(data)[offset];
                 && node == NodeAt(data, offset)
                 && Fits(data, offset, node)
  {}

  /** The least multiple of eight bytes that covers the bits is a number of whole 64-bit words. */
  lemma LeastCoverInWords(bits: nat, payload: nat)
    requires payload % 8 == 0 && bits <= 8 * payload
    requires forall p: nat :: p % 8 == 0 && bits <= 8 * p ==> payload <= p
    ensures payload == (bits + 63) / 64 * 8
  {
    var p := (bits + 63) / 64 * 8;
    assert p % 8 == 0 && bits <= 8 * p;
  }

  lemma SizingInWords(flags: byte, count: nat)
    requires WidthScheme(flags) != 3
    ensures ArraySize(flags, count)
         == var p := (count * BitsPerElement(flags) + 63) / 64 * 8;
            Some(Sizing(ARRAY_HEADER_SIZE + p, p, CodedWidth(flags)))
  {
    PayloadIsLeastCover(flags, count);
    LeastCoverInWords(count * BitsPerElement(flags), ArraySize(flags, count).value.payloadSize);
  }

  /** The extent that makes an array plausible is that of its least payload. */
  lemma WordsAreLeast(flags: byte, count: nat, payload: nat)
    requires flags / 8 % 4 != 3 && payload == (count * BitsPerElement(flags) + 63) / 64 * 8
    ensures LeastPayload(flags, count, payload)
  {
    PayloadIsLeastCover(flags, count);
    SizingInWords(flags, count);
  }

  lemma CandidatesNext(data: seq<byte>, offset: nat)
    ensures CandidatesBelow(data, offset + 1)
         == if PlausibleAt(data, offset) then CandidatesBelow(data, offset)[offset := NodeAt(data, offset)]
            else CandidatesBelow(data, offset)
  {
    var next, now := CandidatesBelow(data, offset + 1), CandidatesBelow(data, offset);
    assert forall o :: o in next <==> o in now || (o == offset && PlausibleAt(data, offset));
  }

  /** Between one search and its result there is nothing to keep. */
  lemma CandidatesSkipTo(data: seq<byte>, from: nat, found: int)
    requires found == -1 || from <= found <= |data|
    requires forall at: nat :: from <= at && (found == -1 || at < found) ==> !OccursAt(data, ARRAY_SIGNATURE, at)
    ensures CandidatesBelow(data, if found == -1 then |data| else found) == CandidatesBelow(data, from)
    ensures CandidatesBelow(data, FILE_HEADER_SIZE) == map[]
  {
    var to := if found == -1 then |data| else found;
    forall at: nat ensures (at < to && PlausibleAt(data, at)) <==> (at < from && PlausibleAt(data, at)) {}
  }

  /** The checks the scan loop makes at one signature match, in its order. */
  function Recognise(data: seq<byte>, offset: nat): Option<ArrayNode> {
    if offset % 8 == 0 && offset + ARRAY_HEADER_SIZE <= |data| then
      var flags := data[offset + 4];
      var elementCount := BigEndian(data[offset + 5..offset + 8]);
      match ArraySize(flags, elementCount)
      case None => None
      case Some(Sizing(byteSize, payloadSize, width)) =>
        if byteSize >= ARRAY_HEADER_SIZE && offset + byteSize <= |data| then
          Some(ArrayNode(offset, byteSize, payloadSize, elementCount, width, flags / 8 % 4,
                         flags / 64 % 2 == 1, flags / 128 % 2 == 1, flags / 32 % 2 == 1, [], Orphan))
        else None
    else None
  }

  lemma RecogniseIsPlausible(data: seq<byte>, offset: nat)
    requires FILE_HEADER_SIZE <= offset && OccursAt(data, ARRAY_SIGNATURE, offset)
    ensures Recognise(data, offset)
         == if PlausibleAt(data, offset) then Some(NodeAt(data, offset)) else None
  {
    if offset + ARRAY_HEADER_SIZE <= |data| {
      var flags, count := FlagsAt(data, offset), CountAt(data, offset);
      PayloadIsLeastCover(flags, count);
      if WidthScheme(flags) != 3 {
        SizingInWords(flags, count);
      }
    }
  }

  /** The scan keeps exactly the plausible offsets, overlapping signatures included. */
  method ScanArrayCandidates(data: seq<byte>) returns (candidates: map<nat, ArrayNode>)
    ensures candidates == Candidates(data)
  {
    candidates := map[];
    var offset := Find(data, ARRAY_SIGNATURE, FILE_HEADER_SIZE);
    CandidatesSkipTo(data, FILE_HEADER_SIZE, offset);
    while offset != -1
      invariant offset == -1 || (FILE_HEADER_SIZE <= offset && OccursAt(data, ARRAY_SIGNATURE, offset))
      invariant candidates == CandidatesBelow(data, if offset == -1 then |data| else offset)
      decreases if offset == -1 then 0 else |data| + 1 - offset
    {
      var found := Recognise(data, offset);
      if found.Some? {
        candidates := candidates[offset := found.value];
      }
      RecogniseIsPlausible(data, offset);
      CandidatesNext(data, offset);
      ghost var next := offset + 1;
      offset := Find(data, ARRAY_SIGNATURE, offset + 1);
      CandidatesSkipTo(data, next, offset);
    }
  }
}
