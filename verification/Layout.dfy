// The Realm file header and the size arithmetic of one on-disk array.
module Layout {
  import opened Bytes

  const FILE_HEADER_SIZE := 24
  const ARRAY_HEADER_SIZE := 8
  const REALM_MAGIC: seq<byte> := [0x54, 0x2D, 0x44, 0x42]
  const ARRAY_SIGNATURE: seq<byte> := [0x41, 0x41, 0x41, 0x41]
  const STREAMING_COOKIE := 0x3034125237E526C8
  const ALL_ONES := 0xFFFFFFFFFFFFFFFF
  const WIDTHS: seq<nat> := [0, 1, 2, 4, 8, 16, 32, 64]

  datatype RealmHeader = RealmHeader(
    topRefs: (nat, nat),
    formatSlots: (byte, byte),
    reserved: byte,
    flags: byte,
    activeSlot: nat,
    activeTopRef: nat,
    inactiveTopRef: nat,
    streaming: bool)

  function U64At(data: seq<byte>, at: nat): nat
    requires at + 8 <= |data|
  {
    LittleEndian(data[at..at + 8])
  }

  /** Decodes the header; None for a short file, a wrong magic or a streaming file without its footer. */
  function ParseHeader(data: seq<byte>): Option<RealmHeader> {
    if |data| < FILE_HEADER_SIZE || data[16..20] != REALM_MAGIC then None
    else
      var topRefs := (U64At(data, 0), U64At(data, 8));
      var flags := data[23];
      var activeSlot := flags % 2;
      var streaming := activeSlot == 0 && topRefs.0 == ALL_ONES;
      if streaming then
        if |data| < FILE_HEADER_SIZE + 16 then None
        else if U64At(data, |data| - 8) != STREAMING_COOKIE then None
        else Some(RealmHeader(topRefs, (data[20], data[21]), data[22], flags, activeSlot,
                              U64At(data, |data| - 16), 0, true))
      else
        var active := if activeSlot == 0 then topRefs.0 else topRefs.1;
        var other := if activeSlot == 0 then topRefs.1 else topRefs.0;
        Some(RealmHeader(topRefs, (data[20], data[21]), data[22], flags, activeSlot,
                         active, if other == ALL_ONES then 0 else other, false))
  }

  lemma StreamingHasNoInactiveRoot(data: seq<byte>)
    requires ParseHeader(data).Some? && ParseHeader(data).value.streaming
    ensures ParseHeader(data).value.inactiveTopRef == 0
  {}

  /** (flags >> 3) & 3. */
  function WidthScheme(flags: byte): nat { flags / 8 % 4 }

  /** WIDTHS[flags & 7]. */
  function Width(flags: byte): nat { WIDTHS[flags % 8] }

  datatype Sizing = Sizing(byteSize: nat, payloadSize: nat, width: nat)

  function RoundUp8(n: nat): nat { (n + 7) / 8 * 8 }

  function ArraySize(flags: byte, elementCount: nat): Option<Sizing> {
    var width := Width(flags);
    if WidthScheme(flags) == 3 then None
    else
      var payload := RoundUp8(if WidthScheme(flags) == 0 then (elementCount * width + 7) / 8
                              else if WidthScheme(flags) == 1 then elementCount * width
                              else elementCount);
      Some(Sizing(ARRAY_HEADER_SIZE + payload, payload, width))
  }

  function Pow2(n: nat): nat { if n == 0 then 1 else 2 * Pow2(n - 1) }

  /** What the three low bits of the flags stand for: no width, or a power of two. */
  function CodedWidth(flags: byte): nat {
    if flags % 8 == 0 then 0 else Pow2(flags % 8 - 1)
  }

  /** The width table holds just that. */
  lemma WidthIsCoded(flags: byte)
    ensures Width(flags) == CodedWidth(flags)
  {
    assert Pow2(3) == 8 && Pow2(6) == 8 * Pow2(3);
  }

  /** The byte-sized widths: codes 4 to 7 stand for elements of 1, 2, 4 and 8 bytes. */
  predicate CodesSize(flags: byte, size: nat) {
    || (flags % 8 == 4 && size == 1)
    || (flags % 8 == 5 && size == 2)
    || (flags % 8 == 6 && size == 4)
    || (flags % 8 == 7 && size == 8)
  }

  lemma ByteSizedWidth(flags: byte, size: nat)
    requires CodesSize(flags, size)
    ensures CodedWidth(flags) == 8 * size
  {
    assert Pow2(3) == 8 && Pow2(4) == 16 && Pow2(5) == 32 && Pow2(6) == 64;
  }

  /** How many bits one element occupies under each width scheme; scheme 3 is reserved. */
  function BitsPerElement(flags: byte): nat {
    if WidthScheme(flags) == 0 then CodedWidth(flags)
    else if WidthScheme(flags) == 1 then 8 * CodedWidth(flags)
    else 8
  }

  /**
   * A payload of `size` bytes is the least multiple of eight that holds `count` elements: of so many bits each
   * under scheme 0, of so many bytes each under scheme 1, of one byte each under scheme 2.
   */
  predicate LeastPayload(flags: byte, count: nat, size: nat) {
    && size % 8 == 0
    && (flags / 8 % 4 == 0 ==> count * CodedWidth(flags) <= 8 * size < count * CodedWidth(flags) + 64)
    && (flags / 8 % 4 == 1 ==> count * CodedWidth(flags) <= size < count * CodedWidth(flags) + 8)
    && (flags / 8 % 4 == 2 ==> count <= size < count + 8)
    && flags / 8 % 4 != 3
  }

  /** The payload is the least multiple of eight bytes that holds every encoded element. */
  lemma PayloadIsLeastCover(flags: byte, elementCount: nat)
    ensures ArraySize(flags, elementCount).None? <==> flags / 8 % 4 == 3
    ensures var s := ArraySize(flags, elementCount);
            s.Some? ==>
              && s.value.byteSize == ARRAY_HEADER_SIZE + s.value.payloadSize
              && s.value.width == CodedWidth(flags)
              && s.value.payloadSize % 8 == 0
              && LeastPayload(flags, elementCount, s.value.payloadSize)
              && elementCount * BitsPerElement(flags) <= 8 * s.value.payloadSize
              && forall p: nat :: p % 8 == 0 && elementCount * BitsPerElement(flags) <= 8 * p
                           ==> s.value.payloadSize <= p
  {
    WidthIsCoded(flags);
    var w := Width(flags);
    if WidthScheme(flags) == 0 {
      RoundUpIsLeast((elementCount * w + 7) / 8, elementCount * w);
    } else if WidthScheme(flags) == 1 {
      assert elementCount * (8 * w) == 8 * (elementCount * w);
      RoundUpIsLeast(elementCount * w, elementCount * (8 * w));
    } else {
      RoundUpIsLeast(elementCount, elementCount * 8);
    }
  }

  /** There is only one such size. */
  lemma LeastPayloadIsOne(flags: byte, count: nat, p: nat, q: nat)
    requires LeastPayload(flags, count, p) && LeastPayload(flags, count, q)
    ensures p == q
  {}

  lemma RoundUpIsLeast(bytes: nat, bits: nat)
    requires bits <= 8 * bytes < bits + 8
    ensures RoundUp8(bytes) % 8 == 0 && bits <= 8 * RoundUp8(bytes)
    ensures bytes <= RoundUp8(bytes) < bytes + 8 && 8 * RoundUp8(bytes) < bits + 64
    ensures forall p: nat :: p % 8 == 0 && bits <= 8 * p ==> RoundUp8(bytes) <= p
  {}

  datatype Reachability = Active | Shared | Inactive | Orphan

  datatype ArrayNode = ArrayNode(
    offset: nat,
    byteSize: nat,
    payloadSize: nat,
    elementCount: nat,
    width: nat,
    widthScheme: nat,
    hasRefs: bool,
    innerBptree: bool,
    contextFlag: bool,
    childRefs: seq<nat>,
    reachability: Reachability)
}
