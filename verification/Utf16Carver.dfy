// Carving printable ASCII text stored as UTF-16LE, at either byte parity.
module Utf16Carver {
  import opened Bytes
  import opened Runs

  /** The pattern's unit: a printable ASCII byte followed by a zero byte. */
  predicate PairAt(payload: seq<byte>, i: nat) {
    i + 2 <= |payload| && 0x20 <= payload[i] <= 0x7E && payload[i + 1] == 0
  }

  function PairGrid(payload: seq<byte>): Grid {
    seq(|payload|, i requires 0 <= i < |payload| => if PairAt(payload, i) then Char(payload[i], 2) else Gap)
  }

  /** A zero high byte never starts a pair, so pairs at odd and even offsets cannot overlap. */
  lemma PairsSynchronised(payload: seq<byte>)
    ensures Synchronised(PairGrid(payload))
  {}

  ghost function CarveUtf16(payload: seq<byte>, minimum: int): seq<Found> {
    PairsSynchronised(payload);
    AtLeast(AllRuns(PairGrid(payload)), minimum)
  }

  /** bytes.decode("utf-16le") for text without surrogates; section 2.1 of RFC 2781. */
  function DecodeUtf16(s: seq<byte>): seq<nat> {
    if |s| < 2 then []
    else
      var low: nat, high: nat := s[0], s[1];
      [low + 256 * high] + DecodeUtf16(s[2..])
  }

  predicate PrintableAscii(text: seq<nat>) {
    forall k :: 0 <= k < |text| ==> 0x20 <= text[k] <= 0x7E
  }

  function EncodeUtf16(text: seq<nat>): (s: seq<byte>)
    requires PrintableAscii(text)
    ensures |s| == 2 * |text|
  {
    if text == [] then [] else [text[0], 0] + EncodeUtf16(text[1..])
  }

  /** A chain of pairs decodes to its characters, which encode back to its bytes. */
  lemma {:induction false} PairChainBytes(payload: seq<byte>, a: nat, b: nat)
    requires Chain(PairGrid(payload), a, b)
    ensures var text := Text(PairGrid(payload), a, b);
            && PrintableAscii(text) && EncodeUtf16(text) == payload[a..b] && DecodeUtf16(payload[a..b]) == text
    decreases b - a
  {
    var g := PairGrid(payload);
    if a < b {
      PairChainBytes(payload, a + 2, b);
      var text := Text(g, a, b);
      assert text[1..] == Text(g, a + 2, b);
      assert payload[a..b] == [payload[a], payload[a + 1]] + payload[a + 2..b];
      assert payload[a..b][2..] == payload[a + 2..b];
    }
  }

  /** Conversely encoded printable ASCII is a chain of its characters. */
  lemma {:induction false} PairBytesChain(payload: seq<byte>, a: nat, b: nat, text: seq<nat>)
    requires PrintableAscii(text) && b == a + 2 * |text| <= |payload| && payload[a..b] == EncodeUtf16(text)
    ensures Chain(PairGrid(payload), a, b) && Text(PairGrid(payload), a, b) == text
    decreases |text|
  {
    if text != [] {
      var all := payload[a..b];
      assert all[0] == payload[a] && all[1] == payload[a + 1];
      assert payload[a + 2..b] == all[2..] == EncodeUtf16(text[1..]);
      PairBytesChain(payload, a + 2, b, text[1..]);
      ChainPrepend(PairGrid(payload), a, a + 2, b, text);
    }
  }

  /** One greedy match attempt: as many pairs as follow one another from `at`. */
  method MatchPairs(payload: seq<byte>, at: nat) returns (e: nat)
    requires at <= |payload|
    ensures at <= e <= |payload| && Chain(PairGrid(payload), at, e) && !PairAt(payload, e)
    ensures at < e <==> PairAt(payload, at)
  {
    e := at;
    while PairAt(payload, e)
      invariant at <= e <= |payload| && Chain(PairGrid(payload), at, e)
      invariant at < e ==> PairAt(payload, at)
      decreases |payload| - e
    {
      ghost var g := PairGrid(payload);
      assert Chain(g, e + 2, e + 2);
      assert Chain(g, e, e + 2);
      ChainJoin(g, at, e, e + 2);
      e := e + 2;
    }
  }

  /** A long enough match is the run met there; after a shorter one the scan may go on one byte later. */
  lemma MatchIsRun(g: Grid, at: nat, e: nat, value: seq<nat>, minimum: nat)
    requires Synchronised(g) && at < |g| && Chain(g, at, e) && value == Text(g, at, e)
    requires (e == |g| || g[e].Gap?) && (at == e ==> g[at].Gap?) && 1 <= minimum
    ensures |value| >= minimum ==>
              at < e && AtLeast(RunsFrom(g, at), minimum) == [Found(at, value)] + AtLeast(RunsFrom(g, e), minimum)
    ensures |value| < minimum ==> AtLeast(RunsFrom(g, at), minimum) == AtLeast(RunsFrom(g, at + 1), minimum)
  {
    ChainBelowRunEnd(g, at, e);
    if |value| >= minimum {
      AtLeastCons(Run(at, e, value), RunsFrom(g, e), minimum);
    } else if at < e {
      ShortRunIsSkipped(g, at, minimum);
    }
  }

  /**
   * Leftmost greedy matching, resumed after a match or one byte on, reports exactly the maximal runs of at
   * least `minimum` pairs.
   */
  method FindPairRuns(payload: seq<byte>, minimum: nat) returns (results: seq<Found>)
    requires 1 <= minimum
    ensures results == CarveUtf16(payload, minimum)
  {
    ghost var g := PairGrid(payload);
    PairsSynchronised(payload);
    results := [];
    var at := 0;
    while at < |payload|
      invariant at <= |payload|
      invariant AtLeast(AllRuns(g), minimum) == results + AtLeast(RunsFrom(g, at), minimum)
    {
      var e := MatchPairs(payload, at);
      var value := DecodeUtf16(payload[at..e]);
      PairChainBytes(payload, at, e);
      MatchIsRun(g, at, e, value, minimum);
      if |value| >= minimum {
        Regrouped(results, [Found(at, value)], AtLeast(RunsFrom(g, e), minimum));
        results := results + [Found(at, value)];
        at := e;
      } else {
        at := at + 1;
      }
    }
  }

  /** Exactness of the UTF-16LE carving, offsets of both parities included, with the bytes behind each string. */
  lemma CarvedUtf16IsExact(payload: seq<byte>, minimum: int)
    ensures Synchronised(PairGrid(payload))
    ensures forall f :: f in CarveUtf16(payload, minimum)
                   <==> exists r :: Maximal(PairGrid(payload), r) && |r.text| >= minimum && f == Found(r.start, r.text)
    ensures OffsetsAscend(CarveUtf16(payload, minimum))
    ensures forall f :: f in CarveUtf16(payload, minimum) ==>
              && PrintableAscii(f.value) && f.offset + 2 * |f.value| <= |payload|
              && payload[f.offset..f.offset + 2 * |f.value|] == EncodeUtf16(f.value)
  {
    PairsSynchronised(payload);
    CarvedAreMaximalRuns(PairGrid(payload), minimum);
    forall r | Maximal(PairGrid(payload), r)
      ensures PrintableAscii(r.text) && EncodeUtf16(r.text) == payload[r.start..r.end]
      ensures r.end == r.start + 2 * |r.text|
    {
      PairChainBytes(payload, r.start, r.end);
    }
  }

  /** The bytes behind one carved string. */
  lemma CarvedUtf16Bytes(payload: seq<byte>, minimum: int, f: Found)
    requires f in CarveUtf16(payload, minimum)
    ensures PrintableAscii(f.value) && f.value != [] && |f.value| >= minimum
    ensures f.offset + 2 * |f.value| <= |payload|
    ensures payload[f.offset..f.offset + 2 * |f.value|] == EncodeUtf16(f.value)
  {
    PairsSynchronised(payload);
    var r := FoundRun(PairGrid(payload), minimum, f);
    PairChainBytes(payload, r.start, r.end);
    PairRunSize(payload, r);
  }

  lemma PairRunSize(payload: seq<byte>, r: Run)
    requires Maximal(PairGrid(payload), r) && PrintableAscii(r.text) && EncodeUtf16(r.text) == payload[r.start..r.end]
    ensures r.end == r.start + 2 * |r.text| && r.text != []
  {
    assert |payload[r.start..r.end]| == r.end - r.start;
  }

  /** Completeness at both parities: encoded printable ASCII lies wholly inside exactly one carved string. */
  lemma AsciiPairsAreCarved(payload: seq<byte>, minimum: int, a: nat, text: seq<nat>) returns (f: Found)
    requires text != [] && |text| >= minimum && PrintableAscii(text)
    requires a + 2 * |text| <= |payload| && payload[a..a + 2 * |text|] == EncodeUtf16(text)
    ensures f in CarveUtf16(payload, minimum)
    ensures f.offset <= a && a + 2 * |text| <= f.offset + 2 * |f.value|
    ensures exists before, after :: f.value == before + text + after
    ensures forall h :: h in CarveUtf16(payload, minimum) && h.offset <= a < h.offset + 2 * |h.value| ==> h == f
  {
    var g, b := PairGrid(payload), a + 2 * |text|;
    PairsSynchronised(payload);
    PairBytesChain(payload, a, b, text);
    var r := ChainInsideOneRun(g, a, b);
    f := Found(r.start, r.text);
    RunLength(payload, minimum, r);
    forall h | h in CarveUtf16(payload, minimum) && h.offset <= a < h.offset + 2 * |h.value| ensures h == f {
      AtLeastMembers(AllRuns(g), minimum);
      var q :| q in AllRuns(g) && |q.text| >= minimum && h == Found(q.start, q.text);
      RunLength(payload, minimum, q);
      RunsAreApart(g, r, a);
    }
  }

  lemma RunLength(payload: seq<byte>, minimum: int, r: Run)
    requires Synchronised(PairGrid(payload)) && r in AllRuns(PairGrid(payload))
    ensures r.start + 2 * |r.text| == r.end <= |payload|
    ensures |r.text| >= minimum ==> Found(r.start, r.text) in CarveUtf16(payload, minimum)
  {
    AtLeastMembers(AllRuns(PairGrid(payload)), minimum);
    AllRunsAreMaximal(PairGrid(payload));
    PairChainBytes(payload, r.start, r.end);
  }
}
