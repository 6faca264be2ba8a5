// The decoders against the writer's side: what is laid out on disk is what the scanner reads back.
module WrittenFiles {
  import opened Bytes
  import opened Layout
  import opened Scanner
  import opened References

  /** 256 to the k. */
  function Limit(k: nat): nat { if k == 0 then 1 else 256 * Limit(k - 1) }

  /** n.to_bytes(k, "little"). */
  function ToLittle(n: nat, k: nat): (s: seq<byte>)
    ensures |s| == k
  {
    if k == 0 then [] else [n % 256] + ToLittle(n / 256, k - 1)
  }

  /** n.to_bytes(k, "big"). */
  function ToBig(n: nat, k: nat): (s: seq<byte>)
    ensures |s| == k
  {
    if k == 0 then [] else ToBig(n / 256, k - 1) + [n % 256]
  }

  lemma {:induction false} LittleRoundTrip(n: nat, k: nat)
    requires n < Limit(k)
    ensures LittleEndian(ToLittle(n, k)) == n
  {
    if k > 0 {
      LittleRoundTrip(n / 256, k - 1);
      assert ToLittle(n, k)[1..] == ToLittle(n / 256, k - 1);
    }
  }

  /** Bytes are determined by the number they spell. */
  lemma {:induction false} LittleIsUnique(s: seq<byte>)
    ensures ToLittle(LittleEndian(s), |s|) == s
  {
    if s != [] {
      LittleIsUnique(s[1..]);
      LowByte(s[0], LittleEndian(s[1..]));
    }
  }

  lemma LowByte(low: byte, high: nat)
    ensures (low + 256 * high) % 256 == low && (low + 256 * high) / 256 == high
  {}

  lemma {:induction false} BigRoundTrip(n: nat, k: nat)
    requires n < Limit(k)
    ensures BigEndian(ToBig(n, k)) == n
  {
    if k > 0 {
      BigRoundTrip(n / 256, k - 1);
      assert ToBig(n, k)[..k - 1] == ToBig(n / 256, k - 1);
    }
  }

  lemma {:induction false} BigIsUnique(s: seq<byte>)
    ensures BigEndian(s) < Limit(|s|) && ToBig(BigEndian(s), |s|) == s
  {
    if s != [] {
      var init, last := s[..|s| - 1], s[|s| - 1];
      BigIsUnique(init);
      LowByte(last, BigEndian(init));
      assert init + [last] == s;
    }
  }

  lemma {:induction false} LittleIsBounded(s: seq<byte>)
    ensures LittleEndian(s) < Limit(|s|)
  {
    if s != [] {
      LittleIsBounded(s[1..]);
    }
  }

  lemma Limits()
    ensures Limit(1) == 0x100 && Limit(2) == 0x1_0000 && Limit(3) == 0x100_0000 && Limit(4) == 0x1_0000_0000
    ensures Limit(8) == 0x1_0000_0000_0000_0000
  {
    assert Limit(5) == 0x100_0000_0000 && Limit(6) == 0x1_0000_0000_0000 && Limit(7) == 0x100_0000_0000_0000;
  }

  /** The 24 header bytes. */
  function HeaderBytes(slots: (nat, nat), formats: (byte, byte), reserved: byte, flags: byte): (s: seq<byte>)
    ensures |s| == FILE_HEADER_SIZE
  {
    ToLittle(slots.0, 8) + ToLittle(slots.1, 8) + REALM_MAGIC + [formats.0, formats.1, reserved, flags]
  }

  lemma HeaderParts(a: seq<byte>, b: seq<byte>, tail: seq<byte>, body: seq<byte>)
    requires |a| == 8 && |b| == 8 && |tail| == 4
    ensures var data := a + b + REALM_MAGIC + tail + body;
            && |data| >= 24 && data[0..8] == a && data[8..16] == b && data[16..20] == REALM_MAGIC
            && data[20] == tail[0] && data[21] == tail[1] && data[22] == tail[2] && data[23] == tail[3]
  {}

  /**
   * A written header reads back: bit 0 of the flags picks the active slot, the other slot is the inactive
   * one, and an inactive slot of all ones counts as unused.
   */
  lemma WrittenHeaderIsParsed(slots: (nat, nat), formats: (byte, byte), reserved: byte, flags: byte, body: seq<byte>)
    requires slots.0 <= ALL_ONES && slots.1 <= ALL_ONES
    requires !(flags % 2 == 0 && slots.0 == ALL_ONES)
    ensures var h := ParseHeader(HeaderBytes(slots, formats, reserved, flags) + body);
            var (chosen, other) := if flags % 2 == 1 then (slots.1, slots.0) else slots;
            h == Some(RealmHeader(slots, formats, reserved, flags, flags % 2, chosen,
                                  if other == ALL_ONES then 0 else other, false))
  {
    HeaderParts(ToLittle(slots.0, 8), ToLittle(slots.1, 8), [formats.0, formats.1, reserved, flags], body);
    Limits();
    LittleRoundTrip(slots.0, 8);
    LittleRoundTrip(slots.1, 8);
  }

  lemma FooterParts(front: seq<byte>, root: seq<byte>, cookie: seq<byte>)
    requires |root| == 8 && |cookie| == 8
    ensures var data := front + (root + cookie);
            && |data| == |front| + 16
            && data[|data| - 16..|data| - 16 + 8] == root && data[|data| - 8..|data| - 8 + 8] == cookie
  {}

  /** The file's front decides the slots, formats and flags; a streaming front leaves the rest to the footer. */
  lemma StreamHeader(data: seq<byte>, slot1: nat, formats: (byte, byte), reserved: byte, flags: byte, root: nat)
    requires |data| >= 40 && data[16..20] == REALM_MAGIC && U64At(data, 0) == ALL_ONES && U64At(data, 8) == slot1
    requires data[20] == formats.0 && data[21] == formats.1 && data[22] == reserved && data[23] == flags
    requires flags % 2 == 0 && U64At(data, |data| - 16) == root && U64At(data, |data| - 8) == STREAMING_COOKIE
    ensures ParseHeader(data) == Some(RealmHeader((ALL_ONES, slot1), formats, reserved, flags, 0, root, 0, true))
  {}

  /** A streaming file's last sixteen bytes. */
  function Footer(root: nat): seq<byte> {
    ToLittle(root, 8) + ToLittle(STREAMING_COOKIE, 8)
  }

  /** A written streaming file reads back: its active root is in the footer, it has no inactive root. */
  lemma WrittenStreamIsParsed(slot1: nat, formats: (byte, byte), reserved: byte, flags: byte, body: seq<byte>,
                              root: nat)
    requires slot1 <= ALL_ONES && root <= ALL_ONES && flags % 2 == 0
    ensures ParseHeader(HeaderBytes((ALL_ONES, slot1), formats, reserved, flags) + body + Footer(root))
         == Some(RealmHeader((ALL_ONES, slot1), formats, reserved, flags, 0, root, 0, true))
  {
    var a, b, tail := ToLittle(ALL_ONES, 8), ToLittle(slot1, 8), [formats.0, formats.1, reserved, flags];
    var footer := Footer(root);
    var front := a + b + REALM_MAGIC + tail + body;
    HeaderParts(a, b, tail, body + footer);
    assert front + footer == a + b + REALM_MAGIC + tail + (body + footer);
    FooterParts(front, ToLittle(root, 8), ToLittle(STREAMING_COOKIE, 8));
    Limits();
    LittleRoundTrip(ALL_ONES, 8);
    LittleRoundTrip(slot1, 8);
    LittleRoundTrip(root, 8);
    LittleRoundTrip(STREAMING_COOKIE, 8);
    StreamHeader(front + footer, slot1, formats, reserved, flags, root);
  }

  /** Eight bytes, decoded, are the bytes of a 64-bit value. */
  lemma U64Spelled(data: seq<byte>, at: nat)
    requires at + 8 <= |data|
    ensures U64At(data, at) <= ALL_ONES && data[at..at + 8] == ToLittle(U64At(data, at), 8)
  {
    LittleIsUnique(data[at..at + 8]);
    LittleIsBounded(data[at..at + 8]);
    Limits();
  }

  /** The file begins with these header bytes and, where they call for a footer, ends with one. */
  ghost predicate WrittenRealm(data: seq<byte>, slots: (nat, nat), formats: (byte, byte), reserved: byte, flags: byte) {
    && slots.0 <= ALL_ONES && slots.1 <= ALL_ONES
    && HeaderBytes(slots, formats, reserved, flags) <= data
    && (flags % 2 == 0 && slots.0 == ALL_ONES ==>
          |data| >= 40 && exists root: nat :: root <= ALL_ONES && data[|data| - 16..] == Footer(root))
  }

  lemma HeaderJoined(data: seq<byte>, a: seq<byte>, b: seq<byte>, tail: seq<byte>)
    requires |data| >= 24 && data[0..8] == a && data[8..16] == b && data[16..20] == REALM_MAGIC && data[20..24] == tail
    ensures a + b + REALM_MAGIC + tail <= data
  {
    assert data[..24] == data[0..8] + data[8..16] + data[16..20] + data[20..24];
  }

  /** A file with the magic begins with header bytes. */
  lemma HeaderIsSpelled(data: seq<byte>)
    requires |data| >= 24 && data[16..20] == REALM_MAGIC
    ensures U64At(data, 0) <= ALL_ONES && U64At(data, 8) <= ALL_ONES
    ensures HeaderBytes((U64At(data, 0), U64At(data, 8)), (data[20], data[21]), data[22], data[23]) <= data
  {
    U64Spelled(data, 0);
    U64Spelled(data, 8);
    assert data[20..24] == [data[20], data[21], data[22], data[23]];
    HeaderJoined(data, ToLittle(U64At(data, 0), 8), ToLittle(U64At(data, 8), 8), data[20..24]);
  }

  lemma TwoHalves(data: seq<byte>, from: nat, middle: nat)
    requires middle == from + 8 && |data| == middle + 8
    ensures data[from..] == data[from..from + 8] + data[middle..middle + 8]
  {}

  /** A file with the cookie ends with a footer. */
  lemma FooterIsSpelled(data: seq<byte>)
    requires |data| >= 40 && U64At(data, |data| - 8) == STREAMING_COOKIE
    ensures U64At(data, |data| - 16) <= ALL_ONES && data[|data| - 16..] == Footer(U64At(data, |data| - 16))
  {
    U64Spelled(data, |data| - 16);
    U64Spelled(data, |data| - 8);
    TwoHalves(data, |data| - 16, |data| - 8);
  }

  /** Conversely what is read is what is written: the header bytes spell the decoded fields, the footer the root. */
  lemma HeaderIsWritten(data: seq<byte>)
    requires ParseHeader(data).Some?
    ensures var h := ParseHeader(data).value;
            && HeaderBytes(h.topRefs, h.formatSlots, h.reserved, h.flags) <= data
            && h.topRefs.0 <= ALL_ONES && h.topRefs.1 <= ALL_ONES && h.activeTopRef <= ALL_ONES
            && (h.streaming <==> h.flags % 2 == 0 && h.topRefs.0 == ALL_ONES)
            && (h.streaming ==> |data| >= 40 && data[|data| - 16..] == Footer(h.activeTopRef))
  {
    HeaderIsSpelled(data);
    if ParseHeader(data).value.streaming {
      FooterIsSpelled(data);
    }
  }

  /** Exactly the files that begin and end as the writer lays them out have a readable header. */
  lemma ReadableExactlyWhenWritten(data: seq<byte>)
    ensures ParseHeader(data).Some?
       <==> exists slots, formats, reserved, flags :: WrittenRealm(data, slots, formats, reserved, flags)
  {
    if ParseHeader(data).Some? {
      var h := ParseHeader(data).value;
      HeaderIsWritten(data);
      assert WrittenRealm(data, h.topRefs, h.formatSlots, h.reserved, h.flags);
    }
    forall slots, formats, reserved, flags | WrittenRealm(data, slots, formats, reserved, flags)
      ensures ParseHeader(data).Some?
    {
      WrittenIsReadable(data, slots, formats, reserved, flags);
    }
  }

  lemma WrittenIsReadable(data: seq<byte>, slots: (nat, nat), formats: (byte, byte), reserved: byte, flags: byte)
    requires WrittenRealm(data, slots, formats, reserved, flags)
    ensures ParseHeader(data).Some?
  {
    var header := HeaderBytes(slots, formats, reserved, flags);
    if flags % 2 == 0 && slots.0 == ALL_ONES {
      var root: nat :| root <= ALL_ONES && data[|data| - 16..] == Footer(root);
      assert data == header + data[24..|data| - 16] + Footer(root);
      WrittenStreamIsParsed(slots.1, formats, reserved, flags, data[24..|data| - 16], root);
    } else {
      assert data == header + data[24..];
      WrittenHeaderIsParsed(slots, formats, reserved, flags, data[24..]);
    }
  }

  function Ascii(text: string): seq<byte>
    requires forall k :: 0 <= k < |text| ==> text[k] < 128 as char
  {
    seq(|text|, k requires 0 <= k < |text| => text[k] as int)
  }

  /** The format's fixed byte strings. */
  lemma FixedBytes()
    ensures REALM_MAGIC == Ascii("T-DB") && ARRAY_SIGNATURE == Ascii("AAAA")
    ensures ToLittle(STREAMING_COOKIE, 8) == [0xC8, 0x26, 0xE5, 0x37, 0x52, 0x12, 0x34, 0x30]
    ensures ToLittle(ALL_ONES, 8) == [0xFF, 0xFF, 0xFF, 0xFF, 0xFF, 0xFF, 0xFF, 0xFF]
  {
    CookieBytes();
    AllOnesBytes();
  }

  lemma CookieBytes()
    ensures ToLittle(STREAMING_COOKIE, 8) == [0xC8, 0x26, 0xE5, 0x37, 0x52, 0x12, 0x34, 0x30]
  {
    LittleIsUnique([0xC8, 0x26, 0xE5, 0x37, 0x52, 0x12, 0x34, 0x30]);
  }

  lemma AllOnesBytes()
    ensures ToLittle(ALL_ONES, 8) == [0xFF, 0xFF, 0xFF, 0xFF, 0xFF, 0xFF, 0xFF, 0xFF]
  {
    LittleIsUnique([0xFF, 0xFF, 0xFF, 0xFF, 0xFF, 0xFF, 0xFF, 0xFF]);
  }

  /** One array on disk. */
  function ArrayBytes(flags: byte, count: nat, payload: seq<byte>): seq<byte> {
    ARRAY_SIGNATURE + [flags] + ToBig(count, 3) + payload
  }

  /** Reference elements, packed at `size` bytes each. */
  function Packed(values: seq<nat>, size: nat): seq<byte> {
    if values == [] then [] else ToLittle(values[0], size) + Packed(values[1..], size)
  }

  lemma ArrayParts(before: seq<byte>, flags: byte, count: nat, payload: seq<byte>, after: seq<byte>)
    requires count < 0x100_0000
    ensures var data, o := before + ArrayBytes(flags, count, payload) + after, |before|;
            && |data| == o + ARRAY_HEADER_SIZE + |payload| + |after|
            && OccursAt(data, ARRAY_SIGNATURE, o)
            && FlagsAt(data, o) == flags && CountAt(data, o) == count
            && data[o + ARRAY_HEADER_SIZE..o + ARRAY_HEADER_SIZE + |payload|] == payload
  {
    var data, o := before + ArrayBytes(flags, count, payload) + after, |before|;
    assert data[o..o + 4] == ARRAY_SIGNATURE;
    assert data[o + 5..o + 8] == ToBig(count, 3);
    Limits();
    BigRoundTrip(count, 3);
  }

  lemma LaidOutIsFound(data: seq<byte>, o: nat, flags: byte, count: nat, payload: nat)
    requires FILE_HEADER_SIZE <= o && o % 8 == 0 && o + ARRAY_HEADER_SIZE + payload <= |data|
    requires OccursAt(data, ARRAY_SIGNATURE, o) && FlagsAt(data, o) == flags && CountAt(data, o) == count
    requires WidthScheme(flags) != 3 && payload == (count * BitsPerElement(flags) + 63) / 64 * 8
    ensures o in Candidates(data)
    ensures Candidates(data)[o]
         == ArrayNode(o, ARRAY_HEADER_SIZE + payload, payload, count, CodedWidth(flags), flags / 8 % 4,
                      flags / 64 % 2 == 1, flags / 128 % 2 == 1, flags / 32 % 2 == 1, [], Orphan)
  {
    CandidateIs(data, o);
  }

  /** An array written at an aligned offset past the header is found there with the layout it was written with. */
  lemma WrittenArrayIsFound(before: seq<byte>, flags: byte, count: nat, payload: seq<byte>, after: seq<byte>)
    requires FILE_HEADER_SIZE <= |before| && |before| % 8 == 0 && count < 0x100_0000
    requires LeastPayload(flags, count, |payload|)
    ensures var data, o := before + ArrayBytes(flags, count, payload) + after, |before|;
            && o in Candidates(data)
            && Candidates(data)[o]
               == ArrayNode(o, ARRAY_HEADER_SIZE + |payload|, |payload|, count, CodedWidth(flags), flags / 8 % 4,
                            flags / 64 % 2 == 1, flags / 128 % 2 == 1, flags / 32 % 2 == 1, [], Orphan)
  {
    ArrayParts(before, flags, count, payload, after);
    PayloadIsLeastCover(flags, count);
    LeastPayloadIsOne(flags, count, |payload|, ArraySize(flags, count).value.payloadSize);
    SizingInWords(flags, count);
    LaidOutIsFound(before + ArrayBytes(flags, count, payload) + after, |before|, flags, count, |payload|);
  }

  /** An array laid out at offset o: signature, flags, big-endian count and a least payload. */
  ghost predicate WrittenAt(data: seq<byte>, o: nat, flags: byte, count: nat, payload: seq<byte>) {
    && FILE_HEADER_SIZE <= o && o % 8 == 0 && count < 0x100_0000
    && LeastPayload(flags, count, |payload|)
    && OccursAt(data, ArrayBytes(flags, count, payload), o)
  }

  lemma ArrayJoined(data: seq<byte>, o: nat, size: nat, flags: byte, count: seq<byte>)
    requires o + 8 + size <= |data| && data[o..o + 4] == ARRAY_SIGNATURE && data[o + 4] == flags
    requires data[o + 5..o + 8] == count
    ensures data[o..o + 8 + size] == ARRAY_SIGNATURE + [flags] + count + data[o + 8..o + 8 + size]
  {
    assert data[o..o + 8 + size] == data[o..o + 4] + [data[o + 4]] + data[o + 5..o + 8] + data[o + 8..o + 8 + size];
  }

  /** The header of a scanned array, byte by byte. */
  lemma FoundIsSpelled(data: seq<byte>, o: nat)
    requires o in Candidates(data)
    ensures var node := Candidates(data)[o];
            && FILE_HEADER_SIZE <= o && o % 8 == 0 && o + ARRAY_HEADER_SIZE + node.payloadSize <= |data|
            && data[o..o + 4] == ARRAY_SIGNATURE && data[o + 5..o + 8] == ToBig(node.elementCount, 3)
            && node.elementCount < 0x100_0000
  {
    CandidateIs(data, o);
    BigIsUnique(data[o + 5..o + 8]);
    Limits();
  }

  lemma FoundIsLeast(data: seq<byte>, o: nat)
    requires o in Candidates(data) && o + 4 < |data|
    ensures LeastPayload(data[o + 4], Candidates(data)[o].elementCount, Candidates(data)[o].payloadSize)
  {
    CandidateIs(data, o);
    WordsAreLeast(data[o + 4], Candidates(data)[o].elementCount, Candidates(data)[o].payloadSize);
  }

  lemma LaidOutIsWritten(data: seq<byte>, o: nat, flags: byte, count: nat, size: nat)
    requires FILE_HEADER_SIZE <= o && o % 8 == 0 && o + 8 + size <= |data|
    requires data[o..o + 4] == ARRAY_SIGNATURE && data[o + 4] == flags && data[o + 5..o + 8] == ToBig(count, 3)
    requires count < 0x100_0000 && LeastPayload(flags, count, size)
    ensures WrittenAt(data, o, flags, count, data[o + 8..o + 8 + size])
  {
    ArrayJoined(data, o, size, flags, ToBig(count, 3));
  }

  /** Conversely every scanned array is laid out in the file just as the writer would. */
  lemma FoundIsWritten(data: seq<byte>, o: nat)
    requires o in Candidates(data)
    ensures var node, from := Candidates(data)[o], o + ARRAY_HEADER_SIZE;
            && from + node.payloadSize <= |data|
            && WrittenAt(data, o, data[o + 4], node.elementCount, data[from..from + node.payloadSize])
  {
    FoundIsSpelled(data, o);
    FoundIsLeast(data, o);
    LaidOutIsWritten(data, o, data[o + 4], Candidates(data)[o].elementCount, Candidates(data)[o].payloadSize);
  }

  /** The scanned offsets are exactly those where some array is laid out. */
  lemma FoundExactlyWhenWritten(data: seq<byte>, o: nat)
    ensures o in Candidates(data) <==> exists flags, count, payload :: WrittenAt(data, o, flags, count, payload)
  {
    if o in Candidates(data) {
      FoundIsWritten(data, o);
    }
    forall flags, count, payload | WrittenAt(data, o, flags, count, payload) ensures o in Candidates(data) {
      var bytes := ArrayBytes(flags, count, payload);
      assert data == data[..o] + bytes + data[o + |bytes|..];
      WrittenArrayIsFound(data[..o], flags, count, payload, data[o + |bytes|..]);
    }
  }

  lemma RangeBehind(first: seq<byte>, rest: seq<byte>, lo: nat, hi: nat)
    requires |first| <= lo <= hi <= |first| + |rest|
    ensures (first + rest)[lo..hi] == rest[lo - |first|..hi - |first|]
  {}

  /** Where the element at index i begins, elements of `size` bytes each. */
  function PlaceOf(i: nat, size: nat): nat { if i == 0 then 0 else PlaceOf(i - 1, size) + size }

  lemma {:induction false} PlaceIsProduct(i: nat, size: nat)
    ensures PlaceOf(i, size) == i * size
  {
    if i > 0 {
      PlaceIsProduct(i - 1, size);
      NextMultiple(i - 1, size);
    }
  }

  /** The reference at index i, packed `size` bytes each. */
  lemma {:induction false} PackedAt(values: seq<nat>, size: nat, i: nat)
    requires i < |values|
    ensures var lo, packed := PlaceOf(i, size), Packed(values, size);
            lo + size <= |packed| && packed[lo..lo + size] == ToLittle(values[i], size)
  {
    var first, rest, lo := ToLittle(values[0], size), Packed(values[1..], size), PlaceOf(i, size);
    if i > 0 {
      PackedAt(values[1..], size, i - 1);
      RangeBehind(first, rest, lo, lo + size);
    } else {
      assert (first + rest)[..size] == first;
    }
  }

  lemma SliceOfPart(data: seq<byte>, from: nat, part: seq<byte>, lo: nat, hi: nat)
    requires from + |part| <= |data| && data[from..from + |part|] == part && lo <= hi <= |part|
    ensures Slice(data, from + lo, from + hi) == part[lo..hi]
  {
    forall k | 0 <= k < |part| ensures data[from + k] == part[k] {
      assert data[from..from + |part|][k] == data[from + k];
    }
  }

  /** Read `size` bytes at a time, the bytes give the values. */
  ghost predicate Spells(packed: seq<byte>, size: nat, values: seq<nat>) {
    forall i :: 0 <= i < |values| ==>
      PlaceOf(i, size) + size <= |packed|
      && LittleEndian(packed[PlaceOf(i, size)..PlaceOf(i, size) + size]) == values[i]
  }

  lemma PackedSpells(values: seq<nat>, size: nat)
    requires forall k :: 0 <= k < |values| ==> values[k] < Limit(size)
    ensures Spells(Packed(values, size), size, values)
  {
    forall i | 0 <= i < |values|
      ensures PlaceOf(i, size) + size <= |Packed(values, size)|
      ensures LittleEndian(Packed(values, size)[PlaceOf(i, size)..PlaceOf(i, size) + size]) == values[i]
    {
      PackedAt(values, size, i);
      LittleRoundTrip(values[i], size);
    }
  }

  lemma ElementRead(data: seq<byte>, offset: nat, node: ArrayNode, index: nat, size: nat, start: nat)
    requires size == node.width / 8 && start == offset + ARRAY_HEADER_SIZE + PlaceOf(index, size)
    ensures ElementAt(data, offset, node, index) == LittleEndian(Slice(data, start, start + size))
  {
    PlaceIsProduct(index, size);
  }

  lemma SpelledAt(packed: seq<byte>, size: nat, values: seq<nat>, i: nat)
    requires Spells(packed, size, values) && i < |values|
    ensures PlaceOf(i, size) + size <= |packed|
    ensures LittleEndian(packed[PlaceOf(i, size)..PlaceOf(i, size) + size]) == values[i]
  {}

  lemma SpelledAnywhere(data: seq<byte>, from: nat, packed: seq<byte>, lo: nat, hi: nat)
    requires from + |packed| <= |data| && data[from..from + |packed|] == packed && lo <= hi <= |packed|
    ensures LittleEndian(Slice(data, from + lo, from + hi)) == LittleEndian(packed[lo..hi])
  {
    SliceOfPart(data, from, packed, lo, hi);
  }

  /** One packed reference, wherever its array stands. */
  lemma SpelledElement(data: seq<byte>, o: nat, node: ArrayNode, size: nat, values: seq<nat>, packed: seq<byte>, i: nat)
    requires size == node.width / 8 && i < |values| && Spells(packed, size, values)
    requires o + ARRAY_HEADER_SIZE + |packed| <= |data|
    requires data[o + ARRAY_HEADER_SIZE..o + ARRAY_HEADER_SIZE + |packed|] == packed
    ensures ElementAt(data, o, node, i) == values[i]
  {
    var lo, from := PlaceOf(i, size), o + ARRAY_HEADER_SIZE;
    SpelledAt(packed, size, values, i);
    SpelledAnywhere(data, from, packed, lo, lo + size);
    ElementRead(data, o, node, i, size, from + lo);
  }

  lemma SpelledElements(data: seq<byte>, o: nat, node: ArrayNode, size: nat, values: seq<nat>, packed: seq<byte>)
    requires node.elementCount == |values| && size == node.width / 8 && Spells(packed, size, values)
    requires o + ARRAY_HEADER_SIZE + |packed| <= |data|
    requires data[o + ARRAY_HEADER_SIZE..o + ARRAY_HEADER_SIZE + |packed|] == packed
    ensures Elements(data, o, node) == values
  {
    forall i: nat | i < |values| ensures ElementAt(data, o, node, i) == values[i] {
      SpelledElement(data, o, node, size, values, packed, i);
    }
  }

  lemma PaddedIsLeast(flags: byte, size: nat, count: nat, packed: nat, padding: nat)
    requires CodesSize(flags, size) && flags / 8 % 4 == 0 && packed == PlaceOf(count, size)
    requires padding < 8 && (packed + padding) % 8 == 0
    ensures LeastPayload(flags, count, packed + padding)
  {
    ByteSizedWidth(flags, size);
    PlaceIsProduct(count, size);
    EightOut(count, size);
  }

  lemma {:induction false} PackedSize(values: seq<nat>, size: nat)
    ensures |Packed(values, size)| == PlaceOf(|values|, size)
  {
    if values != [] {
      PackedSize(values[1..], size);
    }
  }

  lemma PackedArrayIsFound(before: seq<byte>, flags: byte, size: nat, count: nat, packed: seq<byte>,
                           padding: seq<byte>, after: seq<byte>)
    requires FILE_HEADER_SIZE <= |before| && |before| % 8 == 0 && count < 0x100_0000
    requires CodesSize(flags, size) && flags / 8 % 4 == 0 && flags / 64 % 2 == 1
    requires |packed| == PlaceOf(count, size) && |padding| < 8 && (|packed| + |padding|) % 8 == 0
    ensures var data, o := before + ArrayBytes(flags, count, packed + padding) + after, |before|;
            && o in Candidates(data) && DecodesRefs(Candidates(data)[o])
            && Candidates(data)[o].elementCount == count && Candidates(data)[o].width == 8 * size
  {
    PaddedIsLeast(flags, size, count, |packed|, |padding|);
    ByteSizedWidth(flags, size);
    WrittenArrayIsFound(before, flags, count, packed + padding, after);
  }

  /** The packed bytes spell the values from end to end. */
  ghost predicate SpellsWhole(packed: seq<byte>, size: nat, values: seq<nat>) {
    Spells(packed, size, values) && |packed| == PlaceOf(|values|, size)
  }

  lemma PackedWhole(values: seq<nat>, size: nat)
    requires forall k :: 0 <= k < |values| ==> values[k] < Limit(size)
    ensures SpellsWhole(Packed(values, size), size, values)
  {
    PackedSize(values, size);
    PackedSpells(values, size);
  }

  /** An array is scanned at o, and its references are decoded as these values. */
  ghost predicate DecodedAt(data: seq<byte>, o: nat, values: seq<nat>) {
    o in Candidates(data) && DecodesRefs(Candidates(data)[o]) && Elements(data, o, Candidates(data)[o]) == values
  }

  lemma SpelledArrayIsDecoded(before: seq<byte>, flags: byte, size: nat, values: seq<nat>, packed: seq<byte>,
                              padding: seq<byte>, after: seq<byte>)
    requires FILE_HEADER_SIZE <= |before| && |before| % 8 == 0 && |values| < 0x100_0000
    requires CodesSize(flags, size) && flags / 8 % 4 == 0 && flags / 64 % 2 == 1
    requires SpellsWhole(packed, size, values)
    requires |padding| < 8 && (|packed| + |padding|) % 8 == 0
    ensures var data := before + ArrayBytes(flags, |values|, packed + padding) + after;
            DecodedAt(data, |before|, values)
  {
    PackedArrayIsFound(before, flags, size, |values|, packed, padding, after);
    ArrayParts(before, flags, |values|, packed + padding, after);
    var data, o: nat := before + ArrayBytes(flags, |values|, packed + padding) + after, |before|;
    SpelledThenPadded(data, o, Candidates(data)[o], size, values, packed, padding);
  }

  /**
   * The references written into an array are the elements decoded from it, in order: values of 1, 2, 4 or 8
   * bytes, little-endian one after the other, padded to a multiple of eight bytes.
   */
  lemma WrittenReferencesAreDecoded(before: seq<byte>, flags: byte, size: nat, values: seq<nat>, padding: seq<byte>,
                                    after: seq<byte>)
    requires FILE_HEADER_SIZE <= |before| && |before| % 8 == 0 && |values| < 0x100_0000
    requires CodesSize(flags, size) && flags / 8 % 4 == 0 && flags / 64 % 2 == 1
    requires forall k :: 0 <= k < |values| ==> values[k] < Limit(size)
    requires |padding| < 8 && (|Packed(values, size)| + |padding|) % 8 == 0
    ensures var data := before + ArrayBytes(flags, |values|, Packed(values, size) + padding) + after;
            DecodedAt(data, |before|, values)
  {
    PackedWhole(values, size);
    SpelledArrayIsDecoded(before, flags, size, values, Packed(values, size), padding, after);
  }

  lemma SpelledThenPadded(data: seq<byte>, o: nat, node: ArrayNode, size: nat, values: seq<nat>, packed: seq<byte>,
                          padding: seq<byte>)
    requires node.elementCount == |values| && size == node.width / 8 && Spells(packed, size, values)
    requires o + ARRAY_HEADER_SIZE + |packed + padding| <= |data|
    requires data[o + ARRAY_HEADER_SIZE..o + ARRAY_HEADER_SIZE + |packed + padding|] == packed + padding
    ensures Elements(data, o, node) == values
  {
    PrefixOfPart(data, o + ARRAY_HEADER_SIZE, packed, padding);
    SpelledElements(data, o, node, size, values, packed);
  }

  lemma PrefixOfPart(data: seq<byte>, from: nat, part: seq<byte>, rest: seq<byte>)
    requires from + |part + rest| <= |data| && data[from..from + |part + rest|] == part + rest
    ensures data[from..from + |part|] == part
  {
    assert data[from..from + |part|] == data[from..from + |part + rest|][..|part|];
  }
}
