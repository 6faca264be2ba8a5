// Carving printable UTF-8 runs.
module Utf8Carver {
  import opened Bytes
  import opened Runs
  import opened Utf8

  const TAB: nat := 9

  /** A character the carver keeps: a printable one, or a tab. `printable` stands for str.isprintable. */
  predicate Keeps(printable: nat -> bool, code: nat) {
    printable(code) || code == TAB
  }

  /** A text of printable characters and tabs. */
  predicate AllKept(printable: nat -> bool, text: seq<nat>) {
    forall k :: 0 <= k < |text| ==> printable(text[k]) || text[k] == 0x09
  }

  function CellAt(printable: nat -> bool, payload: seq<byte>, i: nat): Cell {
    var n := LengthAt(payload, i);
    if n > 0 && Keeps(printable, CodeAt(payload, i)) then Char(CodeAt(payload, i), n) else Gap
  }

  /** Which kept character begins at each byte of the payload. */
  function Utf8Grid(printable: nat -> bool, payload: seq<byte>): Grid {
    seq(|payload|, i requires 0 <= i => CellAt(printable, payload, i))
  }

  lemma Utf8Synchronised(printable: nat -> bool, payload: seq<byte>)
    ensures Synchronised(Utf8Grid(printable, payload))
  {
    var g := Utf8Grid(printable, payload);
    forall i, j | 0 <= i < |g| && g[i].Char? && i < j < i + g[i].width ensures g[j].Gap? {
      NoOverlap(payload, i, j);
    }
  }

  /** The strings carved from one payload. */
  ghost function CarveUtf8(printable: nat -> bool, payload: seq<byte>, minimum: int): seq<Found> {
    Utf8Synchronised(printable, payload);
    AtLeast(AllRuns(Utf8Grid(printable, payload)), minimum)
  }

  /** What is still to be reported when the scan stands at `index`, inside a run begun at `start` or outside one. */
  ghost function Pending(g: Grid, start: Option<nat>, index: nat, minimum: int): seq<Found>
    requires Synchronised(g) && index <= |g|
    requires start.Some? ==> Chain(g, start.value, index)
  {
    match start
    case None => AtLeast(RunsFrom(g, index), minimum)
    case Some(s) =>
      var e := RunEnd(g, s);
      AtLeast([Run(s, e, Text(g, s, e))] + RunsFrom(g, e), minimum)
  }

  /** The scan's invariant: what is reported and what is pending make up the whole. */
  ghost predicate ScanState(g: Grid, total: seq<Found>, results: seq<Found>, start: Option<nat>, chars: seq<nat>,
                            index: nat, minimum: int)
    requires Synchronised(g)
  {
    && index <= |g|
    && (if start.Some? then Chain(g, start.value, index) && chars == Text(g, start.value, index) else chars == [])
    && total == results + Pending(g, start, index, minimum)
  }

  lemma KeepingCharacter(g: Grid, total: seq<Found>, results: seq<Found>, start: Option<nat>, chars: seq<nat>,
                         index: nat, minimum: int)
    requires Synchronised(g) && ScanState(g, total, results, start, chars, index, minimum)
    requires index < |g| && g[index].Char?
    ensures ScanState(g, total, results, if start.Some? then start else Some(index), chars + [g[index].code],
                      index + g[index].width, minimum)
  {
    var s := if start.Some? then start.value else index;
    var next := index + g[index].width;
    assert Chain(g, next, next) && Text(g, next, next) == [];
    assert Chain(g, index, next) && Text(g, index, next) == [g[index].code];
    ChainJoin(g, s, index, next);
  }

  /** What the open run leaves to report once it is over. */
  function Closed(start: Option<nat>, chars: seq<nat>, minimum: int): seq<Found> {
    if start.Some? && |chars| >= minimum then [Found(start.value, chars)] else []
  }

  lemma PendingAtGap(g: Grid, start: Option<nat>, chars: seq<nat>, index: nat, minimum: int)
    requires Synchronised(g) && index <= |g| && (index == |g| || g[index].Gap?)
    requires start.Some? ==> Chain(g, start.value, index) && chars == Text(g, start.value, index)
    ensures Pending(g, start, index, minimum)
         == Closed(start, chars, minimum) + AtLeast(RunsFrom(g, index), minimum)
  {
    if start.Some? {
      ChainBelowRunEnd(g, start.value, index);
      AtLeastCons(Run(start.value, index, chars), RunsFrom(g, index), minimum);
    }
  }

  /** At a byte where nothing kept begins, the open run is over and the scan may go on behind that byte. */
  lemma PendingBehindGap(g: Grid, start: Option<nat>, chars: seq<nat>, index: nat, next: nat, minimum: int)
    requires Synchronised(g) && index <= |g| && (index == |g| || g[index].Gap?)
    requires next == if index == |g| then index else index + 1
    requires start.Some? ==> Chain(g, start.value, index) && chars == Text(g, start.value, index)
    ensures Pending(g, start, index, minimum) == Closed(start, chars, minimum) + Pending(g, None, next, minimum)
  {
    PendingAtGap(g, start, chars, index, minimum);
    GapsAreSkipped(g, index, next);
  }

  lemma ClosingRun(g: Grid, total: seq<Found>, results: seq<Found>, start: Option<nat>, chars: seq<nat>,
                   index: nat, next: nat, minimum: int)
    requires Synchronised(g) && ScanState(g, total, results, start, chars, index, minimum)
    requires (index == |g| || g[index].Gap?) && next == if index == |g| then index else index + 1
    ensures ScanState(g, total, results + Closed(start, chars, minimum), None, [], next, minimum)
  {
    PendingBehindGap(g, start, chars, index, next, minimum);
    Regrouped(results, Closed(start, chars, minimum), Pending(g, None, next, minimum));
  }

  /** char and (char.isprintable() or char in "\t"), for the text one decode returned. */
  predicate Accepted(printable: nat -> bool, text: seq<nat>) {
    text != [] && ((forall c :: c in text ==> printable(c)) || text == [TAB])
  }

  /** The scanner's test, decode by lead byte and check, finds exactly the grid's characters. */
  lemma TestFindsCell(printable: nat -> bool, payload: seq<byte>, index: nat)
    requires index < |payload|
    ensures var decoded := Decode(Slice(payload, index, index + LeadWidth(payload[index])));
            var cell := Utf8Grid(printable, payload)[index];
            if decoded.Some? && Accepted(printable, decoded.value)
            then cell.Char? && decoded.value == [cell.code] && cell.width == LeadWidth(payload[index])
            else cell.Gap?
  {
    LeadWidthDecodes(payload, index);
    if LengthAt(payload, index) > 0 {
      var code := CodeAt(payload, index);
      assert code in [code];
    }
  }

  /** One decode attempt: the character beginning at `index` if it is kept, and the width assumed for it. */
  method NextCharacter(printable: nat -> bool, payload: seq<byte>, index: nat)
      returns (kept: bool, text: seq<nat>, width: nat)
    requires index < |payload|
    ensures kept <==> Utf8Grid(printable, payload)[index].Char?
    ensures kept ==> text == [Utf8Grid(printable, payload)[index].code]
    ensures kept ==> width == Utf8Grid(printable, payload)[index].width
  {
    width := LeadWidth(payload[index]);
    var decoded := Decode(Slice(payload, index, index + width));
    kept := decoded.Some? && Accepted(printable, decoded.value);
    text := if decoded.Some? then decoded.value else [];
    TestFindsCell(printable, payload, index);
  }

  /** At a byte where nothing kept begins, keeps the open run if there is one and it is long enough. */
  method CloseRun(ghost g: Grid, ghost total: seq<Found>, results: seq<Found>, start: Option<nat>, chars: seq<nat>,
                  ghost index: nat, ghost next: nat, minimum: int) returns (longer: seq<Found>)
    requires Synchronised(g) && ScanState(g, total, results, start, chars, index, minimum)
    requires (index == |g| || g[index].Gap?) && next == if index == |g| then index else index + 1
    ensures ScanState(g, total, longer, None, [], next, minimum)
  {
    ClosingRun(g, total, results, start, chars, index, next, minimum);
    longer := results;
    if start.Some? && |chars| >= minimum {
      longer := results + [Found(start.value, chars)];
    }
  }

  /**
   * The one-code-point-at-a-time scan reports exactly the runs of kept characters that are long enough.
   * It steps one byte after anything it does not keep, and still misses no character.
   */
  method Utf8Strings(printable: nat -> bool, payload: seq<byte>, minimum: int) returns (results: seq<Found>)
    ensures results == CarveUtf8(printable, payload, minimum)
  {
    ghost var g := Utf8Grid(printable, payload);
    Utf8Synchronised(printable, payload);
    ghost var total := CarveUtf8(printable, payload, minimum);
    results := [];
    var start: Option<nat> := None;
    var chars: seq<nat> := [];
    var index := 0;
    while index < |payload|
      invariant ScanState(g, total, results, start, chars, index, minimum)
    {
      var kept, text, width := NextCharacter(printable, payload, index);
      if kept {
        KeepingCharacter(g, total, results, start, chars, index, minimum);
        start := if start.Some? then start else Some(index);
        chars := chars + text;
        index := index + width;
        continue;
      }
      results := CloseRun(g, total, results, start, chars, index, index + 1, minimum);
      start := None;
      chars := [];
      index := index + 1;
    }
    results := CloseRun(g, total, results, start, chars, index, index, minimum);
  }

  /** The character of a cell is kept, and its encoding stands there. */
  lemma CellBytes(printable: nat -> bool, payload: seq<byte>, a: nat, next: nat, code: nat)
    requires a < next <= |payload| && Utf8Grid(printable, payload)[a] == Char(code, next - a)
    ensures Scalar(code) && Keeps(printable, code) && payload[a..next] == Encode(code)
  {
    EncodeOfDecode(payload, a);
  }

  lemma JoinedRange(payload: seq<byte>, a: nat, next: nat, b: nat)
    requires a <= next <= b <= |payload|
    ensures payload[a..next] + payload[next..b] == payload[a..b]
  {}

  lemma OneMoreCharacter(printable: nat -> bool, payload: seq<byte>, a: nat, next: nat, b: nat, code: nat,
                         rest: seq<nat>)
    requires a <= next <= b <= |payload| && Scalar(code) && Keeps(printable, code) && payload[a..next] == Encode(code)
    requires AllScalar(rest) && AllKept(printable, rest) && EncodeAll(rest) == payload[next..b]
    ensures AllScalar([code] + rest) && AllKept(printable, [code] + rest)
    ensures EncodeAll([code] + rest) == payload[a..b]
  {
    assert ([code] + rest)[1..] == rest;
    JoinedRange(payload, a, next, b);
  }

  /** The characters of a chain encode back to its bytes. */
  lemma {:induction false} ChainBytes(printable: nat -> bool, payload: seq<byte>, a: nat, b: nat)
    requires Chain(Utf8Grid(printable, payload), a, b)
    ensures var text := Text(Utf8Grid(printable, payload), a, b);
            && AllScalar(text) && AllKept(printable, text)
            && EncodeAll(text) == payload[a..b]
    decreases b - a
  {
    var g := Utf8Grid(printable, payload);
    if a < b {
      var code, next := FirstLink(g, a, b);
      ChainBytes(printable, payload, next, b);
      CellBytes(printable, payload, a, next, code);
      OneMoreCharacter(printable, payload, a, next, b, code, Text(g, next, b));
    }
  }

  lemma EncodedCell(printable: nat -> bool, payload: seq<byte>, a: nat, code: nat)
    requires Scalar(code) && Keeps(printable, code)
    requires a + |Encode(code)| <= |payload| && payload[a..a + |Encode(code)|] == Encode(code)
    ensures Utf8Grid(printable, payload)[a] == Char(code, |Encode(code)|) && |Encode(code)| > 0
  {
    DecodeOfEncode(code);
    SameCharacter(Encode(code), payload, a);
  }

  lemma SplitRange(payload: seq<byte>, a: nat, first: seq<byte>, rest: seq<byte>, b: nat)
    requires b == a + |first + rest| <= |payload| && payload[a..b] == first + rest
    ensures payload[a..a + |first|] == first
    ensures b == a + |first| + |rest| && payload[a + |first|..b] == rest
  {
    var all := payload[a..b];
    assert all[..|first|] == first && all[|first|..] == rest;
  }

  /** The first character of an encoded text, and where the next one begins. */
  lemma FirstCharacter(printable: nat -> bool, payload: seq<byte>, a: nat, b: nat, text: seq<nat>)
      returns (next: nat)
    requires AllScalar(text) && AllKept(printable, text) && text != []
    requires b == a + |EncodeAll(text)| <= |payload| && payload[a..b] == EncodeAll(text)
    ensures a < next && Utf8Grid(printable, payload)[a] == Char(text[0], next - a)
    ensures b == next + |EncodeAll(text[1..])| && payload[next..b] == EncodeAll(text[1..])
  {
    var first := Encode(text[0]);
    SplitRange(payload, a, first, EncodeAll(text[1..]), b);
    EncodedCell(printable, payload, a, text[0]);
    next := a + |first|;
  }

  /** Conversely bytes that encode kept characters form a chain of exactly those characters. */
  lemma {:induction false} BytesChain(printable: nat -> bool, payload: seq<byte>, a: nat, b: nat, text: seq<nat>)
    requires AllScalar(text) && AllKept(printable, text)
    requires b == a + |EncodeAll(text)| <= |payload| && payload[a..b] == EncodeAll(text)
    ensures Chain(Utf8Grid(printable, payload), a, b)
    ensures Text(Utf8Grid(printable, payload), a, b) == text
    decreases |text|
  {
    if text != [] {
      var next := FirstCharacter(printable, payload, a, b, text);
      BytesChain(printable, payload, next, b, text[1..]);
      ChainPrepend(Utf8Grid(printable, payload), a, next, b, text);
    }
  }

  /**
   * Exactness: the carved strings are the maximal ranges of kept characters, each once and from left to
   * right, and each encodes back to the bytes at its offset.
   */
  lemma CarvedUtf8IsExact(printable: nat -> bool, payload: seq<byte>, minimum: int)
    ensures Synchronised(Utf8Grid(printable, payload))
    ensures forall f :: f in CarveUtf8(printable, payload, minimum)
                   <==> exists r :: Maximal(Utf8Grid(printable, payload), r) && |r.text| >= minimum
                                    && f == Found(r.start, r.text)
    ensures OffsetsAscend(CarveUtf8(printable, payload, minimum))
    ensures forall f :: f in CarveUtf8(printable, payload, minimum) ==>
              && AllScalar(f.value) && AllKept(printable, f.value)
              && f.offset + |EncodeAll(f.value)| <= |payload|
              && payload[f.offset..f.offset + |EncodeAll(f.value)|] == EncodeAll(f.value)
  {
    var g := Utf8Grid(printable, payload);
    Utf8Synchronised(printable, payload);
    CarvedAreMaximalRuns(g, minimum);
    forall r | Maximal(g, r)
      ensures AllScalar(r.text) && AllKept(printable, r.text)
      ensures EncodeAll(r.text) == payload[r.start..r.end]
    {
      ChainBytes(printable, payload, r.start, r.end);
    }
  }

  /** `inner` stands inside `outer`, `skipped` characters in. */
  predicate PartOf(inner: seq<nat>, outer: seq<nat>, skipped: nat) {
    skipped + |inner| <= |outer| && outer[skipped..skipped + |inner|] == inner
  }

  /** The byte range [a, a + len) lies wholly inside the string `f`. */
  predicate Encloses(f: Found, a: nat, len: nat)
    requires AllScalar(f.value)
  {
    f.offset <= a && a + len <= f.offset + |EncodeAll(f.value)|
  }

  /** A carved string that encloses a byte range is a run around it. */
  lemma CarvedRun(printable: nat -> bool, payload: seq<byte>, minimum: int, f: Found) returns (r: Run)
    requires f in CarveUtf8(printable, payload, minimum)
    ensures Synchronised(Utf8Grid(printable, payload)) && r in AllRuns(Utf8Grid(printable, payload))
    ensures AllScalar(f.value) && f == Found(r.start, r.text)
    ensures r.start <= r.end <= |payload| && |EncodeAll(f.value)| == r.end - r.start
  {
    var g := Utf8Grid(printable, payload);
    Utf8Synchronised(printable, payload);
    AllRunsAreMaximal(g);
    CarvedAreMaximalRuns(g, minimum);
    r :| Maximal(g, r) && |r.text| >= minimum && f == Found(r.start, r.text);
    ChainBytes(printable, payload, r.start, r.end);
  }

  /** The bytes behind one carved string. */
  lemma CarvedUtf8Bytes(printable: nat -> bool, payload: seq<byte>, minimum: int, f: Found)
    requires f in CarveUtf8(printable, payload, minimum)
    ensures AllScalar(f.value) && f.value != [] && |f.value| >= minimum
    ensures f.offset + |EncodeAll(f.value)| <= |payload|
    ensures payload[f.offset..f.offset + |EncodeAll(f.value)|] == EncodeAll(f.value)
  {
    var g := Utf8Grid(printable, payload);
    var r := CarvedRun(printable, payload, minimum, f);
    AllRunsAreMaximal(g);
    ChainBytes(printable, payload, r.start, r.end);
    AtLeastMembers(AllRuns(g), minimum);
  }

  /** A long enough run is carved. */
  lemma RunIsCarved(printable: nat -> bool, payload: seq<byte>, minimum: int, r: Run)
    requires Synchronised(Utf8Grid(printable, payload)) && r in AllRuns(Utf8Grid(printable, payload))
    requires |r.text| >= minimum
    ensures Found(r.start, r.text) in CarveUtf8(printable, payload, minimum)
    ensures AllScalar(r.text) && r.start + |EncodeAll(r.text)| == r.end
  {
    AtLeastMembers(AllRuns(Utf8Grid(printable, payload)), minimum);
    AllRunsAreMaximal(Utf8Grid(printable, payload));
    ChainBytes(printable, payload, r.start, r.end);
  }

  /**
   * Completeness: every byte range that is valid UTF-8 for at least `minimum` kept characters, and at
   * least one, lies wholly inside exactly one carved string, and its characters are part of it.
   */
  lemma ValidTextIsCarved(printable: nat -> bool, payload: seq<byte>, minimum: int, a: nat, text: seq<nat>)
      returns (f: Found)
    requires text != [] && |text| >= minimum
    requires AllScalar(text) && AllKept(printable, text)
    requires a + |EncodeAll(text)| <= |payload|
    requires payload[a..a + |EncodeAll(text)|] == EncodeAll(text)
    ensures f in CarveUtf8(printable, payload, minimum) && AllScalar(f.value)
    ensures Encloses(f, a, |EncodeAll(text)|)
    ensures exists skipped :: PartOf(text, f.value, skipped)
    ensures forall h :: h in CarveUtf8(printable, payload, minimum) && AllScalar(h.value) ==>
                          (Encloses(h, a, |EncodeAll(text)|) ==> h == f)
  {
    var g, b := Utf8Grid(printable, payload), a + |EncodeAll(text)|;
    Utf8Synchronised(printable, payload);
    BytesChain(printable, payload, a, b, text);
    EncodedNonempty(text);
    var r := ChainInsideOneRun(g, a, b);
    f := Found(r.start, r.text);
    RunIsCarved(printable, payload, minimum, r);
    var before, after :| r.text == before + text + after;
    assert PartOf(text, f.value, |before|);
    forall h | h in CarveUtf8(printable, payload, minimum) && AllScalar(h.value) && Encloses(h, a, b - a)
      ensures h == f
    {
      var q := CarvedRun(printable, payload, minimum, h);
    }
  }

  lemma EncodedNonempty(text: seq<nat>)
    requires AllScalar(text) && text != []
    ensures |EncodeAll(text)| >= |text| > 0
  {
    if |text| > 1 {
      EncodedNonempty(text[1..]);
    }
  }

  predicate AllScalars(strings: seq<seq<nat>>) {
    forall k :: 0 <= k < |strings| ==> AllScalar(strings[k])
  }

  /** The encoded strings, joined by single separator bytes. */
  function Joined(strings: seq<seq<nat>>, separators: seq<byte>): seq<byte>
    requires AllScalars(strings) && |strings| <= |separators| + 1
    decreases |strings|, 1
  {
    if strings == [] then [] else EncodeAll(strings[0]) + JoinedRest(strings[1..], separators)
  }

  /** What follows a string: each further one behind its separator. */
  function JoinedRest(strings: seq<seq<nat>>, separators: seq<byte>): seq<byte>
    requires AllScalars(strings) && |strings| <= |separators|
    decreases |strings|, 2
  {
    if strings == [] then [] else [separators[0]] + Joined(strings, separators[1..])
  }

  /** The strings with their offsets: the prefix sums of encoded lengths plus one byte per separator. */
  function Placed(strings: seq<seq<nat>>, offset: nat): seq<Found>
    requires AllScalars(strings)
  {
    if strings == [] then []
    else [Found(offset, strings[0])] + Placed(strings[1..], offset + |EncodeAll(strings[0])| + 1)
  }

  lemma PlacedCons(strings: seq<seq<nat>>, offset: nat, end: nat)
    requires strings != [] && AllScalars(strings) && end == offset + |EncodeAll(strings[0])|
    ensures Placed(strings, offset) == [Found(offset, strings[0])] + Placed(strings[1..], end + 1)
  {}

  /** Every string is carvable, and every separator is an ASCII byte that is not kept. */
  predicate Printables(printable: nat -> bool, strings: seq<seq<nat>>, separators: seq<byte>, minimum: int) {
    && AllScalars(strings)
    && (forall k :: 0 <= k < |strings| ==>
          strings[k] != [] && |strings[k]| >= minimum && AllKept(printable, strings[k]))
    && (forall k :: 0 <= k < |separators| ==> separators[k] < 0x80 && !Keeps(printable, separators[k]))
  }

  /** Nothing is left to carve at the end of the payload. */
  lemma NothingLeft(g: Grid, i: nat, minimum: int)
    requires Synchronised(g) && i == |g|
    ensures AtLeast(RunsFrom(g, i), minimum) == []
  {}

  lemma SplitTail(payload: seq<byte>, i: nat, first: seq<byte>, rest: seq<byte>, e: nat)
    requires i <= |payload| && payload[i..] == first + rest && e == i + |first|
    ensures e <= |payload| && payload[i..e] == first && payload[e..] == rest
  {
    assert |payload[i..]| == |payload| - i;
    assert payload[i..][..|first|] == first && payload[i..][|first|..] == rest;
  }

  /** A string at the head of the remaining payload is a chain of its characters. */
  lemma HeadIsChain(printable: nat -> bool, payload: seq<byte>, i: nat, text: seq<nat>, rest: seq<byte>, e: nat)
    requires text != [] && AllScalar(text) && AllKept(printable, text)
    requires i <= |payload| && payload[i..] == EncodeAll(text) + rest && e == i + |EncodeAll(text)|
    ensures i < e <= |payload| && payload[e..] == rest
    ensures Chain(Utf8Grid(printable, payload), i, e) && Text(Utf8Grid(printable, payload), i, e) == text
  {
    SplitTail(payload, i, EncodeAll(text), rest, e);
    EncodedNonempty(text);
    BytesChain(printable, payload, i, e, text);
  }

  /** A separator byte is a gap. */
  lemma SeparatorIsGap(printable: nat -> bool, payload: seq<byte>, e: nat, separator: byte, rest: seq<byte>)
    requires separator < 0x80 && !Keeps(printable, separator)
    requires e <= |payload| && payload[e..] == [separator] + rest
    ensures e < |payload| && Utf8Grid(printable, payload)[e].Gap? && payload[e + 1..] == rest
  {
    SplitTail(payload, e, [separator], rest, e + 1);
    assert payload[e..e + 1][0] == separator;
  }

  lemma {:induction false} RoundTripFrom(printable: nat -> bool, payload: seq<byte>, i: nat,
                                         strings: seq<seq<nat>>, separators: seq<byte>, minimum: int)
    requires Printables(printable, strings, separators, minimum) && |strings| <= |separators| + 1
    requires i <= |payload| && payload[i..] == Joined(strings, separators)
    requires Synchronised(Utf8Grid(printable, payload))
    ensures AtLeast(RunsFrom(Utf8Grid(printable, payload), i), minimum) == Placed(strings, i)
    decreases |strings|, 1
  {
    if strings != [] {
      var text, rest := strings[0], JoinedRest(strings[1..], separators);
      var e := i + |EncodeAll(text)|;
      HeadIsChain(printable, payload, i, text, rest, e);
      RoundTripRest(printable, payload, e, strings[1..], separators, minimum);
      ScanMeetsText(Utf8Grid(printable, payload), i, e, text, minimum);
      PlacedCons(strings, i, e);
    } else {
      NothingLeft(Utf8Grid(printable, payload), i, minimum);
    }
  }

  lemma {:induction false} RoundTripRest(printable: nat -> bool, payload: seq<byte>, e: nat,
                                         strings: seq<seq<nat>>, separators: seq<byte>, minimum: int)
    requires Printables(printable, strings, separators, minimum) && |strings| <= |separators|
    requires e <= |payload| && payload[e..] == JoinedRest(strings, separators)
    requires Synchronised(Utf8Grid(printable, payload))
    ensures var g := Utf8Grid(printable, payload);
            && (e == |g| || g[e].Gap?)
            && AtLeast(RunsFrom(g, if e == |g| then e else e + 1), minimum) == Placed(strings, e + 1)
    decreases |strings|, 2
  {
    if strings != [] {
      SeparatorIsGap(printable, payload, e, separators[0], Joined(strings, separators[1..]));
      RoundTripFrom(printable, payload, e + 1, strings, separators[1..], minimum);
    }
  }

  /** Round trip: encode, join, carve, and get the strings back at their offsets. */
  lemma CarveOfJoined(printable: nat -> bool, strings: seq<seq<nat>>, separators: seq<byte>, minimum: int)
    requires Printables(printable, strings, separators, minimum) && |strings| <= |separators| + 1
    ensures CarveUtf8(printable, Joined(strings, separators), minimum) == Placed(strings, 0)
  {
    var payload := Joined(strings, separators);
    Utf8Synchronised(printable, payload);
    assert payload[0..] == payload;
    RoundTripFrom(printable, payload, 0, strings, separators, minimum);
  }
}
