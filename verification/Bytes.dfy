// Bytes, the Python slice, and the two byte orders the file format uses.
module Bytes {

  datatype Option<+T> = None | Some(value: T)

  function OneOrNone<T>(o: Option<T>): seq<T> {
    match o
    case None => []
    case Some(x) => [x]
  }

  type byte = b: int | 0 <= b < 256

  /** The Python slice data[lo:hi]: both bounds are clamped to the length. */
  function Slice<T>(s: seq<T>, lo: nat, hi: nat): seq<T> {
    var h := if hi < |s| then hi else |s|;
    if lo < h then s[lo..h] else []
  }

  /** A slice holds the elements from lo on, up to hi or the end, whichever comes first. */
  lemma SliceExactly<T>(s: seq<T>, lo: nat, hi: nat)
    ensures |Slice(s, lo, hi)| == if lo < hi && lo < |s| then (if hi < |s| then hi else |s|) - lo else 0
    ensures forall k :: 0 <= k < |Slice(s, lo, hi)| ==> Slice(s, lo, hi)[k] == s[lo + k]
  {}

  lemma Regrouped<T>(a: seq<T>, b: seq<T>, c: seq<T>)
    ensures a + (b + c) == a + b + c
  {}

  /** int.from_bytes(s, "little"). */
  function LittleEndian(s: seq<byte>): nat {
    if s == [] then 0 else s[0] + 256 * LittleEndian(s[1..])
  }

  /** int.from_bytes(s, "big"). */
  function BigEndian(s: seq<byte>): nat {
    if s == [] then 0 else 256 * BigEndian(s[..|s| - 1]) + s[|s| - 1]
  }

  /** True when `pattern` occurs in `data` at offset `at`. */
  predicate OccursAt(data: seq<byte>, pattern: seq<byte>, at: nat) {
    at + |pattern| <= |data| && data[at..at + |pattern|] == pattern
  }

  /** data.find(pattern, start): the least match at or after start, or -1. */
  method Find(data: seq<byte>, pattern: seq<byte>, start: nat) returns (offset: int)
    ensures offset == -1 || (start <= offset && OccursAt(data, pattern, offset))
    ensures forall at: nat :: start <= at && (offset == -1 || at < offset) ==> !OccursAt(data, pattern, at)
  {
    offset := start;
    while offset + |pattern| <= |data|
      invariant start <= offset
      invariant forall at: nat :: start <= at < offset ==> !OccursAt(data, pattern, at)
    {
      if data[offset..offset + |pattern|] == pattern {
        return;
      }
      offset := offset + 1;
    }
    offset := -1;
  }
}
