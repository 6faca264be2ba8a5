// Strict UTF-8: the grammar in section 4 of RFC 3629, its decoder and its encoder.
module Utf8 {
  import opened Bytes

  /** A Unicode scalar value: a code point that is not a surrogate. */
  predicate Scalar(code: nat) {
    code < 0xD800 || 0xE000 <= code < 0x110000
  }

  predicate Tail(b: byte) { 0x80 <= b <= 0xBF }

  predicate Lead2(b: byte) { 0xC2 <= b <= 0xDF }

  predicate Lead3(b: byte, next: byte) {
    || (b == 0xE0 && 0xA0 <= next <= 0xBF)
    || ((0xE1 <= b <= 0xEC || 0xEE <= b <= 0xEF) && Tail(next))
    || (b == 0xED && 0x80 <= next <= 0x9F)
  }

  predicate Lead4(b: byte, next: byte) {
    || (b == 0xF0 && 0x90 <= next <= 0xBF)
    || (0xF1 <= b <= 0xF3 && Tail(next))
    || (b == 0xF4 && 0x80 <= next <= 0x8F)
  }

  /** The length of the well-formed character at byte i, or 0 if none begins there. */
  function LengthAt(s: seq<byte>, i: nat): (n: nat)
    ensures i + n <= |s| || n == 0
    ensures n <= 4
  {
    if i + 1 <= |s| && s[i] <= 0x7F then 1
    else if i + 2 <= |s| && Lead2(s[i]) && Tail(s[i + 1]) then 2
    else if i + 3 <= |s| && Lead3(s[i], s[i + 1]) && Tail(s[i + 2]) then 3
    else if i + 4 <= |s| && Lead4(s[i], s[i + 1]) && Tail(s[i + 2]) && Tail(s[i + 3]) then 4
    else 0
  }

  /** Appends six payload bits. */
  function Push(high: nat, tail: byte): nat
    requires Tail(tail)
  {
    var low: nat := tail - 0x80;
    64 * high + low
  }

  /** The code point of the well-formed character at byte i. */
  function CodeAt(s: seq<byte>, i: nat): nat
    requires LengthAt(s, i) > 0
  {
    var lead: nat := s[i];
    if LengthAt(s, i) == 1 then lead
    else if LengthAt(s, i) == 2 then Push(lead - 0xC0, s[i + 1])
    else if LengthAt(s, i) == 3 then Push(Push(lead - 0xE0, s[i + 1]), s[i + 2])
    else Push(Push(Push(lead - 0xF0, s[i + 1]), s[i + 2]), s[i + 3])
  }

  /** s.decode("utf-8"): None for the decode error. */
  function Decode(s: seq<byte>): Option<seq<nat>> {
    DecodeFrom(s, 0)
  }

  function DecodeFrom(s: seq<byte>, i: nat): Option<seq<nat>>
    requires i <= |s|
    decreases |s| - i
  {
    if i == |s| then Some([])
    else if LengthAt(s, i) == 0 then None
    else
      match DecodeFrom(s, i + LengthAt(s, i))
      case None => None
      case Some(rest) => Some([CodeAt(s, i)] + rest)
  }

  function Encode(code: nat): (s: seq<byte>)
    requires Scalar(code)
  {
    if code < 0x80 then [code]
    else if code < 0x800 then [0xC0 + code / 64, 0x80 + code % 64]
    else if code < 0x10000 then [0xE0 + code / 4096, 0x80 + code / 64 % 64, 0x80 + code % 64]
    else [0xF0 + code / 262144, 0x80 + code / 4096 % 64, 0x80 + code / 64 % 64, 0x80 + code % 64]
  }

  predicate AllScalar(text: seq<nat>) {
    forall k :: 0 <= k < |text| ==> Scalar(text[k])
  }

  function EncodeAll(text: seq<nat>): seq<byte>
    requires AllScalar(text)
  {
    if text == [] then [] else Encode(text[0]) + EncodeAll(text[1..])
  }

  /** An encoded scalar value is one well-formed character, and decodes to itself. */
  lemma DecodeOfEncode(code: nat)
    requires code <= 0x10FFFF && !(0xD800 <= code <= 0xDFFF)
    ensures LengthAt(Encode(code), 0) == |Encode(code)| > 0
    ensures CodeAt(Encode(code), 0) == code
  {
    if code < 0x10000 {
      DecodeOfEncodeShort(code);
    } else {
      DecodeOfEncodeLong(code);
    }
  }

  lemma DecodeOfEncodeShort(code: nat)
    requires code < 0x10000 && !(0xD800 <= code <= 0xDFFF)
    ensures LengthAt(Encode(code), 0) == |Encode(code)| > 0
    ensures CodeAt(Encode(code), 0) == code
  {
    Digits(code / 64, code);
  }

  lemma DecodeOfEncodeLong(code: nat)
    requires 0x10000 <= code <= 0x10FFFF
    ensures LengthAt(Encode(code), 0) == |Encode(code)| > 0
    ensures CodeAt(Encode(code), 0) == code
  {
    Digits(code / 64, code);
  }

  /** Base-64 digits of a code point. */
  lemma Digits(high: nat, code: nat)
    requires high == code / 64
    ensures code == 64 * high + code % 64
    ensures code / 4096 == high / 64 && high == 64 * (high / 64) + high % 64
    ensures code / 262144 == high / 64 / 64 && code / 4096 % 64 == high / 64 % 64
  {}

  /** The bits Push appended come off again. */
  lemma PushSplits(high: nat, tail: byte)
    requires Tail(tail)
    ensures Push(high, tail) / 64 == high && 0x80 + Push(high, tail) % 64 == tail
  {}

  lemma EncodeOfPush2(lead: nat, a: byte)
    requires 0xC2 <= lead <= 0xDF && Tail(a)
    ensures var code := Push(lead - 0xC0, a);
            0x80 <= code < 0x800 && Encode(code) == [lead, a]
  {
    PushSplits(lead - 0xC0, a);
  }

  lemma EncodeOfPush3(lead: byte, a: byte, b: byte)
    requires Lead3(lead, a) && Tail(b)
    ensures Tail(a) && lead >= 0xE0
    ensures var code := Push(Push(lead - 0xE0, a), b);
            0x800 <= code < 0x10000 && Scalar(code) && Encode(code) == [lead, a, b]
  {
    var top := Push(lead - 0xE0, a);
    PushSplits(lead - 0xE0, a);
    PushSplits(top, b);
    Digits(top, Push(top, b));
  }

  lemma EncodeOfPush4(lead: byte, a: byte, b: byte, c: byte)
    requires Lead4(lead, a) && Tail(b) && Tail(c)
    ensures Tail(a) && lead >= 0xF0
    ensures var code := Push(Push(Push(lead - 0xF0, a), b), c);
            0x10000 <= code < 0x110000 && Encode(code) == [lead, a, b, c]
  {
    var top := Push(lead - 0xF0, a);
    PushSplits(lead - 0xF0, a);
    PushSplits(top, b);
    PushSplits(Push(top, b), c);
    Digits(Push(top, b), Push(Push(top, b), c));
  }

  lemma ShortSlices(s: seq<byte>, i: nat)
    ensures i + 1 <= |s| ==> s[i..i + 1] == [s[i]]
    ensures i + 2 <= |s| ==> s[i..i + 2] == [s[i], s[i + 1]]
    ensures i + 3 <= |s| ==> s[i..i + 3] == [s[i], s[i + 1], s[i + 2]]
    ensures i + 4 <= |s| ==> s[i..i + 4] == [s[i], s[i + 1], s[i + 2], s[i + 3]]
  {}

  lemma EncodeOfDecode3(s: seq<byte>, i: nat)
    requires LengthAt(s, i) == 3
    ensures Scalar(CodeAt(s, i)) && Encode(CodeAt(s, i)) == [s[i], s[i + 1], s[i + 2]]
  {
    EncodeOfPush3(s[i], s[i + 1], s[i + 2]);
  }

  lemma EncodeOfDecode4(s: seq<byte>, i: nat)
    requires LengthAt(s, i) == 4
    ensures Scalar(CodeAt(s, i)) && Encode(CodeAt(s, i)) == [s[i], s[i + 1], s[i + 2], s[i + 3]]
  {
    FourBytes(s, i);
    EncodeOfPush4(s[i], s[i + 1], s[i + 2], s[i + 3]);
  }

  lemma FourBytes(s: seq<byte>, i: nat)
    requires LengthAt(s, i) == 4
    ensures Lead4(s[i], s[i + 1]) && Tail(s[i + 1]) && Tail(s[i + 2]) && Tail(s[i + 3]) && s[i] >= 0xF0
    ensures CodeAt(s, i) == Push(Push(Push(s[i] - 0xF0, s[i + 1]), s[i + 2]), s[i + 3])
  {}

  lemma EncodeOfDecode2(s: seq<byte>, i: nat)
    requires LengthAt(s, i) == 2
    ensures Scalar(CodeAt(s, i)) && Encode(CodeAt(s, i)) == [s[i], s[i + 1]]
  {
    EncodeOfPush2(s[i], s[i + 1]);
  }

  /** A well-formed character is the encoding of its scalar value. */
  lemma EncodeOfDecode(s: seq<byte>, i: nat)
    requires LengthAt(s, i) > 0
    ensures CodeAt(s, i) <= 0x10FFFF && !(0xD800 <= CodeAt(s, i) <= 0xDFFF)
    ensures Encode(CodeAt(s, i)) == s[i..i + LengthAt(s, i)]
  {
    ShortSlices(s, i);
    match LengthAt(s, i)
    case 1 =>
    case 2 => EncodeOfDecode2(s, i);
    case 3 => EncodeOfDecode3(s, i);
    case 4 => EncodeOfDecode4(s, i);
  }

  /** Bytes that spell a character do so wherever they stand. */
  lemma SameCharacter(s: seq<byte>, t: seq<byte>, i: nat)
    requires LengthAt(s, 0) == |s| > 0
    requires i + |s| <= |t| && t[i..i + |s|] == s
    ensures LengthAt(t, i) == |s| && CodeAt(t, i) == CodeAt(s, 0)
  {
    assert forall k :: 0 <= k < |s| ==> t[i + k] == s[k];
  }

  /** Self-synchronisation: no character begins among the later bytes of another. */
  lemma NoOverlap(s: seq<byte>, i: nat, j: nat)
    requires i < j < i + LengthAt(s, i)
    ensures LengthAt(s, j) == 0
  {}

  /** The width the carver assumes from the lead byte alone. */
  function LeadWidth(lead: byte): (w: nat)
    ensures 1 <= w <= 4
  {
    if lead < 0x80 then 1 else if lead < 0xE0 then 2 else if lead < 0xF0 then 3 else 4
  }

  /** Decoding that many bytes succeeds exactly when a character begins there, and then gives that one character. */
  lemma LeadWidthDecodes(s: seq<byte>, i: nat)
    requires i < |s|
    ensures Decode(Slice(s, i, i + LeadWidth(s[i])))
         == if LengthAt(s, i) > 0 then Some([CodeAt(s, i)]) else None
    ensures LengthAt(s, i) > 0 ==> LengthAt(s, i) == LeadWidth(s[i])
  {
    var w := LeadWidth(s[i]);
    var t := Slice(s, i, i + w);
    assert t[0] == s[i];
    assert forall k :: 0 <= k < |t| ==> t[k] == s[i + k];
    if LengthAt(s, i) > 0 {
      assert |t| == w && LengthAt(t, 0) == w && CodeAt(t, 0) == CodeAt(s, i);
      assert DecodeFrom(t, w) == Some([]);
      assert [CodeAt(t, 0)] + [] == [CodeAt(s, i)];
    } else {
      assert LengthAt(t, 0) == 0;
    }
  }
}
