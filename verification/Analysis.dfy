// The whole analysis of one file: header, labelled arrays, warnings and carved strings.
module Analysis {
  import opened Bytes
  import opened Layout
  import opened Scanner
  import opened References
  import opened Traversal
  import opened Classification
  import opened Utf8Carver
  import Utf16Carver
  import Runs
  import opened Extraction
  import opened StringOrder
  import opened HeaderFlip
  import opened Locality

  datatype Root = ActiveRoot | InactiveRoot

  datatype Reason = Misaligned | InsideHeader | BeyondEnd

  datatype Warning =
    | Impossible(root: Root, reason: Reason)
    | Unresolved(which: Root)
    | ReservedByteSet

  /** Why a top reference cannot be right, if it cannot. Zero means the slot is unused. */
  function TopReferenceWarning(root: Root, reference: nat, fileSize: nat): Option<Warning> {
    if reference == 0 then None
    else if reference % 8 != 0 then Some(Impossible(root, Misaligned))
    else if reference < FILE_HEADER_SIZE then Some(Impossible(root, InsideHeader))
    else if reference >= fileSize then Some(Impossible(root, BeyondEnd))
    else None
  }

  /** All warnings for a file with a readable header, in reporting order. */
  function Warnings(header: RealmHeader, known: set<nat>, fileSize: nat): seq<Warning> {
    OneOrNone(TopReferenceWarning(ActiveRoot, header.activeTopRef, fileSize))
    + OneOrNone(TopReferenceWarning(InactiveRoot, header.inactiveTopRef, fileSize))
    + (if header.activeTopRef !in known then [Unresolved(ActiveRoot)] else [])
    + (if header.inactiveTopRef != 0 && header.inactiveTopRef !in known then [Unresolved(InactiveRoot)] else [])
    + (if header.reserved != 0 then [ReservedByteSet] else [])
  }

  datatype Outcome =
    | EmptyFile
    | Headerless
    | Plaintext(header: RealmHeader, arrays: seq<ArrayNode>, warnings: seq<Warning>)

  /** What the analysis of a file's bytes reports. */
  ghost function Report(data: seq<byte>): Outcome {
    if data == [] then EmptyFile
    else
      match ParseHeader(data)
      case None => Headerless
      case Some(header) =>
        Plaintext(header, FileArrays(data, header), Warnings(header, Candidates(data).Keys, |data|))
  }

  /** The strings carved alongside, when a minimum is given. */
  ghost function ReportedStrings(printable: nat -> bool, data: seq<byte>, minimum: Option<nat>): seq<CarvedString> {
    if minimum.None? || !Report(data).Plaintext? then []
    else AllStrings(printable, data, Report(data).arrays, minimum.value)
  }

  method Analyze(printable: nat -> bool, data: seq<byte>, minimum: Option<nat>)
      returns (outcome: Outcome, strings: seq<CarvedString>)
    requires minimum.Some? ==> 1 <= minimum.value
    ensures outcome == Report(data)
    ensures strings == ReportedStrings(printable, data, minimum)
  {
    if |data| == 0 {
      return EmptyFile, [];
    }
    var parsed := ParseHeader(data);
    if parsed.None? {
      return Headerless, [];
    }
    outcome, strings := AnalyzePlaintext(printable, data, parsed.value, minimum);
  }

  /** The analysis of a file with a readable header. */
  method AnalyzePlaintext(printable: nat -> bool, data: seq<byte>, header: RealmHeader, minimum: Option<nat>)
      returns (outcome: Outcome, strings: seq<CarvedString>)
    requires minimum.Some? ==> 1 <= minimum.value
    ensures outcome == Plaintext(header, FileArrays(data, header), Warnings(header, Candidates(data).Keys, |data|))
    ensures strings
         == if minimum.Some? then AllStrings(printable, data, FileArrays(data, header), minimum.value) else []
  {
    var scanned := ScanArrayCandidates(data);
    var nodes := AddReferences(data, scanned);
    ReferencesAreClosed(data, scanned);
    var arrays := ClassifyNodes(nodes, header);
    var warnings := Warn(header, nodes.Keys, |data|);
    strings := [];
    if minimum.Some? && arrays != [] {
      strings := ExtractStrings(printable, data, arrays, minimum.value);
    }
    outcome := Plaintext(header, arrays, warnings);
  }

  /** The warning list, appended to in the order of the analysis. */
  method Warn(header: RealmHeader, known: set<nat>, fileSize: nat) returns (warnings: seq<Warning>)
    ensures warnings == Warnings(header, known, fileSize)
  {
    warnings := [];
    var warning := TopReferenceWarning(ActiveRoot, header.activeTopRef, fileSize);
    ghost var parts := OneOrNone(warning);
    if warning.Some? {
      warnings := warnings + [warning.value];
    }
    assert warnings == parts;
    warning := TopReferenceWarning(InactiveRoot, header.inactiveTopRef, fileSize);
    parts := parts + OneOrNone(warning);
    if warning.Some? {
      warnings := warnings + [warning.value];
    }
    assert warnings == parts;
    warnings := WarnUnresolved(header, known, warnings);
    if header.reserved != 0 {
      warnings := warnings + [ReservedByteSet];
    }
  }

  method WarnUnresolved(header: RealmHeader, known: set<nat>, warnings: seq<Warning>) returns (longer: seq<Warning>)
    ensures longer
         == warnings
            + (if header.activeTopRef !in known then [Unresolved(ActiveRoot)] else [])
            + (if header.inactiveTopRef != 0 && header.inactiveTopRef !in known then [Unresolved(InactiveRoot)] else [])
  {
    longer := warnings;
    if header.activeTopRef !in known {
      longer := longer + [Unresolved(ActiveRoot)];
    }
    if header.inactiveTopRef != 0 && header.inactiveTopRef !in known {
      longer := longer + [Unresolved(InactiveRoot)];
    }
  }

  /** Whether some array is labelled by a root is whether that root is an array. */
  lemma LabelledIffRootKnown(data: seq<byte>, header: RealmHeader)
    ensures var arrays := FileArrays(data, header);
            && (AnyLabelled(arrays, Active) <==> header.activeTopRef in Candidates(data))
            && (AnyLabelled(arrays, Inactive) <==> header.inactiveTopRef in Candidates(data))
  {
    var g := FileGraph(data);
    ReferencesAreClosed(data, Candidates(data));
    LabelledIffNonempty(g, ReachSet(g, header.activeTopRef), ReachSet(g, header.inactiveTopRef));
    ReachSetIsLeast(g, header.activeTopRef);
    ReachSetIsLeast(g, header.inactiveTopRef);
  }

  lemma WarningMembers(header: RealmHeader, known: set<nat>, fileSize: nat)
    ensures var w := Warnings(header, known, fileSize);
            && (Unresolved(ActiveRoot) in w <==> header.activeTopRef !in known)
            && (Unresolved(InactiveRoot) in w <==> header.inactiveTopRef != 0 && header.inactiveTopRef !in known)
            && (ReservedByteSet in w <==> header.reserved != 0)
            && (forall root, reason :: Impossible(root, reason) in w ==>
                  TopReferenceWarning(root, if root.ActiveRoot? then header.activeTopRef else header.inactiveTopRef,
                                      fileSize)
                  == Some(Impossible(root, reason)))
  {}

  /** A reference with an impossible-root warning is not an array's offset. */
  lemma ImpossibleIsUnknown(data: seq<byte>, root: Root, reference: nat)
    ensures TopReferenceWarning(root, reference, |data|).Some? ==> reference != 0 && reference !in Candidates(data)
  {
    CandidateIs(data, reference);
  }

  lemma ImpossibleIsUnresolved(data: seq<byte>, header: RealmHeader, root: Root, reason: Reason)
    requires Impossible(root, reason) in Warnings(header, Candidates(data).Keys, |data|)
    ensures Unresolved(root) in Warnings(header, Candidates(data).Keys, |data|)
  {
    WarningMembers(header, Candidates(data).Keys, |data|);
    ImpossibleIsUnknown(data, root, if root.ActiveRoot? then header.activeTopRef else header.inactiveTopRef);
  }

  /**
   * The warnings agree with the structure: an impossible root is always also reported unresolved; the
   * active root is reported unresolved exactly when no array is labelled active or shared; the inactive
   * one exactly when it is set and no array is labelled inactive or shared.
   */
  lemma WarningsAgreeWithLabels(data: seq<byte>, header: RealmHeader)
    ensures var warnings, arrays := Warnings(header, Candidates(data).Keys, |data|), FileArrays(data, header);
            && (forall root, reason :: Impossible(root, reason) in warnings ==> Unresolved(root) in warnings)
            && (Unresolved(ActiveRoot) in warnings <==> !AnyLabelled(arrays, Active))
            && (Unresolved(InactiveRoot) in warnings
                <==> header.inactiveTopRef != 0 && !AnyLabelled(arrays, Inactive))
            && (header.inactiveTopRef == 0 ==> !AnyLabelled(arrays, Inactive))
  {
    WarningMembers(header, Candidates(data).Keys, |data|);
    LabelledIffRootKnown(data, header);
    CandidateIs(data, 0);
    forall root, reason | Impossible(root, reason) in Warnings(header, Candidates(data).Keys, |data|)
      ensures Unresolved(root) in Warnings(header, Candidates(data).Keys, |data|)
    {
      ImpossibleIsUnresolved(data, header, root, reason);
    }
  }

  /** The same for what is reported, where a streaming file never has an inactive root. */
  lemma ReportAgreesWithItself(data: seq<byte>)
    requires Report(data).Plaintext?
    ensures var report := Report(data);
            && (forall root, reason ::
                  Impossible(root, reason) in report.warnings ==> Unresolved(root) in report.warnings)
            && (Unresolved(ActiveRoot) in report.warnings <==> !AnyLabelled(report.arrays, Active))
            && (Unresolved(InactiveRoot) in report.warnings
                <==> report.header.inactiveTopRef != 0 && !AnyLabelled(report.arrays, Inactive))
            && (report.header.streaming ==> !AnyLabelled(report.arrays, Inactive))
  {
    WarningsAgreeWithLabels(data, Report(data).header);
    if Report(data).header.streaming {
      StreamingHasNoInactiveRoot(data);
    }
  }

  /** Without a warning about it, the active root is itself among the arrays, labelled active or shared. */
  lemma QuietRootIsPresent(data: seq<byte>) returns (i: nat)
    requires Report(data).Plaintext? && Unresolved(ActiveRoot) !in Report(data).warnings
    ensures var report := Report(data);
            && i < |report.arrays| && report.arrays[i].offset == report.header.activeTopRef
            && (report.arrays[i].reachability.Active? || report.arrays[i].reachability.Shared?)
  {
    var header := Report(data).header;
    WarningMembers(header, Candidates(data).Keys, |data|);
    CandidateIs(data, header.activeTopRef);
    i := ReportIndex(data, header, header.activeTopRef);
    ReportedAt(data, header, i);
    ReferencesAreClosed(data, Candidates(data));
    ReachSetIsLeast(FileGraph(data), header.activeTopRef);
    ReachesIsLeads(data, header.activeTopRef, header.activeTopRef);
  }

  /**
   * Provenance of every reported string: its bytes, in its stated encoding, stand at its file offset,
   * inside the payload of the plausible non-reference array it names, whose label it carries.
   */
  lemma ReportedStringsHaveProvenance(printable: nat -> bool, data: seq<byte>, minimum: nat, c: CarvedString)
      returns (node: ArrayNode)
    requires 1 <= minimum && c in ReportedStrings(printable, data, Some(minimum))
    ensures Report(data).Plaintext? && node in Report(data).arrays
    ensures PlausibleAt(data, c.arrayOffset) && CarvedFrom(data, node, c) && |c.value| >= minimum
    ensures node.offset + node.byteSize == node.offset + ARRAY_HEADER_SIZE + node.payloadSize <= |data|
  {
    var arrays, header := Report(data).arrays, Report(data).header;
    node := StringsHaveProvenance(printable, data, arrays, minimum, c);
    var i :| 0 <= i < |arrays| && arrays[i] == node;
    ReportedAt(data, header, i);
    CandidateIs(data, node.offset);
  }

  lemma ReportedOffsetsAreDistinct(data: seq<byte>, header: RealmHeader)
    ensures DistinctOffsets(FileArrays(data, header))
  {
    LabelsMeanChains(data, header);
  }

  lemma TextInArraysIsReported(printable: nat -> bool, data: seq<byte>, header: RealmHeader, minimum: nat,
                               node: ArrayNode, encoding: Encoding, from: nat, text: seq<nat>)
      returns (i: nat)
    requires node in FileArrays(data, header)
    requires 1 <= minimum <= |text| && TextAt(printable, data, node, encoding, from, text)
    ensures OnlyStringAround(AllStrings(printable, data, FileArrays(data, header), minimum), node, encoding, from,
                             text, i)
  {
    var arrays := FileArrays(data, header);
    ReportedOffsetsAreDistinct(data, header);
    var k :| 0 <= k < |arrays| && arrays[k] == node;
    i := TextIsReportedOnce(printable, data, arrays, k, minimum, encoding, from, text);
  }

  /**
   * Completeness over the file's bytes: text of at least `minimum` characters that either carver looks for,
   * anywhere in the payload of a reported non-reference array, lies inside exactly one reported string of
   * that array and encoding, and is part of it.
   */
  lemma TextInFileIsReported(printable: nat -> bool, data: seq<byte>, minimum: nat, node: ArrayNode,
                             encoding: Encoding, from: nat, text: seq<nat>) returns (i: nat)
    requires Report(data).Plaintext? && node in Report(data).arrays
    requires 1 <= minimum <= |text| && TextAt(printable, data, node, encoding, from, text)
    ensures OnlyStringAround(ReportedStrings(printable, data, Some(minimum)), node, encoding, from, text, i)
  {
    i := TextInArraysIsReported(printable, data, Report(data).header, minimum, node, encoding, from, text);
  }

  lemma FileStringsAscend(printable: nat -> bool, data: seq<byte>, header: RealmHeader, minimum: nat)
    ensures StrictlyAscending(AllStrings(printable, data, FileArrays(data, header), minimum))
  {
    LabelsMeanChains(data, header);
    StringsAscend(printable, data, FileArrays(data, header), minimum);
  }

  /** Reported strings ascend by array, encoding and offset, so none is reported twice. */
  lemma ReportedStringsAscend(printable: nat -> bool, data: seq<byte>, minimum: nat)
    ensures StrictlyAscending(ReportedStrings(printable, data, Some(minimum)))
    ensures ReportedStrings(printable, data, None) == []
  {
    if ParseHeader(data).Some? && data != [] {
      var header := ParseHeader(data).value;
      FileStringsAscend(printable, data, header, minimum);
      StringsOfRealm(printable, data, header, minimum);
    }
  }

  function SwapStrings(strings: seq<CarvedString>): seq<CarvedString> {
    if strings == [] then []
    else [strings[0].(reachability := Swap(strings[0].reachability))] + SwapStrings(strings[1..])
  }

  lemma {:induction false} SwapStringsConcat(a: seq<CarvedString>, b: seq<CarvedString>)
    ensures SwapStrings(a + b) == SwapStrings(a) + SwapStrings(b)
  {
    if a == [] {
      assert a + b == b;
    } else {
      assert (a + b)[1..] == a[1..] + b;
      SwapStringsConcat(a[1..], b);
    }
  }

  lemma {:induction false} SwapLocated(node: ArrayNode, encoding: Encoding, found: seq<Runs.Found>)
    ensures LocateAll(node.(reachability := Swap(node.reachability)), encoding, found)
         == SwapStrings(LocateAll(node, encoding, found))
  {
    if found != [] {
      SwapLocated(node, encoding, found[1..]);
    }
  }

  /** Relabelling the arrays relabels their strings and nothing else. */
  lemma {:induction false} SwappedArraysSwapStrings(printable: nat -> bool, data: seq<byte>, nodes: seq<ArrayNode>,
                                                    minimum: nat)
    ensures AllStrings(printable, data, SwapAll(nodes), minimum)
         == SwapStrings(AllStrings(printable, data, nodes, minimum))
  {
    if nodes != [] {
      assert SwapAll(nodes)[1..] == SwapAll(nodes[1..]);
      SwappedArraySwapsStrings(printable, data, nodes[0], minimum);
      SwappedArraysSwapStrings(printable, data, nodes[1..], minimum);
      SwapStringsConcat(StringsOf(printable, data, nodes[0], minimum),
                        AllStrings(printable, data, nodes[1..], minimum));
    }
  }

  lemma SwappedArraySwapsStrings(printable: nat -> bool, data: seq<byte>, node: ArrayNode, minimum: nat)
    ensures StringsOf(printable, data, node.(reachability := Swap(node.reachability)), minimum)
         == SwapStrings(StringsOf(printable, data, node, minimum))
  {
    if !node.hasRefs {
      var payload := PayloadOf(data, node);
      assert PayloadOf(data, node.(reachability := Swap(node.reachability))) == payload;
      var texts, pairs := CarveUtf8(printable, payload, minimum), Utf16Carver.CarveUtf16(payload, minimum);
      SwapLocated(node, Utf8Text, texts);
      SwapLocated(node, Utf16Le, pairs);
      SwapStringsConcat(LocateAll(node, Utf8Text, texts), LocateAll(node, Utf16Le, pairs));
    }
  }

  lemma ImpossibleListed(header: RealmHeader, known: set<nat>, fileSize: nat)
    ensures var w := Warnings(header, known, fileSize);
            && (forall why :: Impossible(ActiveRoot, why) in w
                         <==> TopReferenceWarning(ActiveRoot, header.activeTopRef, fileSize)
                              == Some(Impossible(ActiveRoot, why)))
            && (forall why :: Impossible(InactiveRoot, why) in w
                         <==> TopReferenceWarning(InactiveRoot, header.inactiveTopRef, fileSize)
                              == Some(Impossible(InactiveRoot, why)))
  {}

  /** The all-ones value is never an array's offset, and as a root it is misaligned. */
  lemma AllOnesIsImpossible(data: seq<byte>, root: Root, fileSize: nat)
    ensures TopReferenceWarning(root, ALL_ONES, fileSize) == Some(Impossible(root, Misaligned))
    ensures 0 !in Candidates(data) && ALL_ONES !in Candidates(data)
  {
    CandidateIs(data, 0);
    CandidateIs(data, ALL_ONES);
  }

  /** What the slot that is not in use holds. */
  function OtherSlot(h: RealmHeader): nat {
    if h.activeSlot == 0 then h.topRefs.1 else h.topRefs.0
  }

  /** The header with its roots the other way round; all ones in the slot that is not in use means no root. */
  function Exchanged(h: RealmHeader): RealmHeader {
    h.(activeTopRef := OtherSlot(h), inactiveTopRef := if h.activeTopRef == ALL_ONES then 0 else h.activeTopRef)
  }

  /**
   * What exchanging the roots of `h` does to the warnings: impossible roots change places, and so do
   * unresolved ones, but a zero or all-ones root is silent while it is inactive, and while it is active a
   * zero one is reported unresolved and an all-ones one unresolved and misaligned.
   */
  ghost predicate WarningsMove(h: RealmHeader, before: seq<Warning>, after: seq<Warning>) {
    && (forall why :: Impossible(ActiveRoot, why) in after
                 <==> Impossible(InactiveRoot, why) in before || (OtherSlot(h) == ALL_ONES && why.Misaligned?))
    && (forall why :: Impossible(InactiveRoot, why) in after
                 <==> Impossible(ActiveRoot, why) in before && h.activeTopRef != ALL_ONES)
    && (Unresolved(ActiveRoot) in after <==> Unresolved(InactiveRoot) in before || h.inactiveTopRef == 0)
    && (Unresolved(InactiveRoot) in after
        <==> Unresolved(ActiveRoot) in before && h.activeTopRef != 0 && h.activeTopRef != ALL_ONES)
    && (ReservedByteSet in after <==> ReservedByteSet in before)
  }

  lemma SwappedRootsMoveWarnings(h: RealmHeader, known: set<nat>, fileSize: nat)
    requires h.inactiveTopRef == if OtherSlot(h) == ALL_ONES then 0 else OtherSlot(h)
    requires 0 !in known && ALL_ONES !in known
    requires forall root :: TopReferenceWarning(root, ALL_ONES, fileSize) == Some(Impossible(root, Misaligned))
    ensures WarningsMove(h, Warnings(h, known, fileSize), Warnings(Exchanged(h), known, fileSize))
  {
    WarningMembers(h, known, fileSize);
    WarningMembers(Exchanged(h), known, fileSize);
    ImpossibleListed(h, known, fileSize);
    ImpossibleListed(Exchanged(h), known, fileSize);
  }

  /** The report of a file whose header is readable. */
  lemma ReportOfRealm(data: seq<byte>)
    requires ParseHeader(data).Some?
    ensures var h := ParseHeader(data).value;
            Report(data) == Plaintext(h, FileArrays(data, h), Warnings(h, Candidates(data).Keys, |data|))
  {}

  lemma StringsOfRealm(printable: nat -> bool, data: seq<byte>, header: RealmHeader, minimum: nat)
    requires ParseHeader(data) == Some(header)
    ensures ReportedStrings(printable, data, Some(minimum))
         == AllStrings(printable, data, FileArrays(data, header), minimum)
  {
    ReportOfRealm(data);
  }

  /** What the flipped header calls for. */
  lemma FlippedWarnings(data: seq<byte>)
    requires ParseHeader(data).Some? && ParseHeader(data).value.topRefs.0 != ALL_ONES
    ensures ParseHeader(Flip(data)).Some? && |Flip(data)| == |data|
    ensures var h, f, known := ParseHeader(data).value, ParseHeader(Flip(data)).value, Candidates(data).Keys;
            && Warnings(f, Candidates(Flip(data)).Keys, |data|) == Warnings(Exchanged(h), known, |data|)
            && WarningsMove(h, Warnings(h, known, |data|), Warnings(Exchanged(h), known, |data|))
  {
    FlippedHeader(data);
    GraphIgnoresHeader(data, Flip(data));
    var h, f := ParseHeader(data).value, ParseHeader(Flip(data)).value;
    AllOnesIsImpossible(data, ActiveRoot, |data|);
    ExchangedWarnings(h, f, Candidates(data).Keys, |data|);
    ExchangedWarningsMove(data, h);
  }

  lemma ExchangedWarnings(h: RealmHeader, f: RealmHeader, known: set<nat>, fileSize: nat)
    requires f.activeTopRef == Exchanged(h).activeTopRef && f.inactiveTopRef == Exchanged(h).inactiveTopRef
    requires f.reserved == h.reserved
    ensures Warnings(f, known, fileSize) == Warnings(Exchanged(h), known, fileSize)
  {}

  lemma ExchangedWarningsMove(data: seq<byte>, h: RealmHeader)
    requires h.inactiveTopRef == if OtherSlot(h) == ALL_ONES then 0 else OtherSlot(h)
    ensures var known := Candidates(data).Keys;
            WarningsMove(h, Warnings(h, known, |data|), Warnings(Exchanged(h), known, |data|))
  {
    forall root ensures TopReferenceWarning(root, ALL_ONES, |data|) == Some(Impossible(root, Misaligned)) {
      AllOnesIsImpossible(data, root, |data|);
    }
    AllOnesIsImpossible(data, ActiveRoot, |data|);
    SwappedRootsMoveWarnings(h, Candidates(data).Keys, |data|);
  }

  /**
   * The slot flip on the report's warnings, for every file whose slot 0 is in use: the list is the one that
   * the exchanged roots call for, and so each kind of warning moves as stated.
   */
  lemma FlipMovesWarnings(data: seq<byte>)
    requires ParseHeader(data).Some? && ParseHeader(data).value.topRefs.0 != ALL_ONES
    ensures Report(data).Plaintext? && Report(Flip(data)).Plaintext?
    ensures Report(Flip(data)).warnings
         == Warnings(Exchanged(ParseHeader(data).value), Candidates(data).Keys, |data|)
    ensures WarningsMove(ParseHeader(data).value, Report(data).warnings, Report(Flip(data)).warnings)
  {
    FlippedWarnings(data);
    ReportOfRealm(data);
    ReportOfRealm(Flip(data));
  }

  /** The slot flip on the whole report: the same strings in the same order, active and inactive exchanged. */
  lemma FlipSwapsStrings(printable: nat -> bool, data: seq<byte>, minimum: nat)
    requires ParseHeader(data).Some? && ParseHeader(data).value.topRefs.0 != ALL_ONES
    ensures ReportedStrings(printable, Flip(data), Some(minimum))
         == SwapStrings(ReportedStrings(printable, data, Some(minimum)))
  {
    FlipSwapsLabels(data);
    var h, f := ParseHeader(data).value, ParseHeader(Flip(data)).value;
    StringsOfRealm(printable, data, h, minimum);
    StringsOfRealm(printable, Flip(data), f, minimum);
    FlippedFileStrings(printable, data, h, f, minimum);
  }

  lemma FlippedFileStrings(printable: nat -> bool, data: seq<byte>, h: RealmHeader, f: RealmHeader, minimum: nat)
    requires FILE_HEADER_SIZE <= |data| && FileArrays(Flip(data), f) == SwapAll(FileArrays(data, h))
    ensures AllStrings(printable, Flip(data), FileArrays(Flip(data), f), minimum)
         == SwapStrings(AllStrings(printable, data, FileArrays(data, h), minimum))
  {
    var arrays := FileArrays(data, h);
    ArraysBehindHeader(data, h);
    SwappedOffsets(arrays);
    StringsIgnoreHeader(printable, data, Flip(data), SwapAll(arrays), minimum);
    SwappedArraysSwapStrings(printable, data, arrays, minimum);
  }

  lemma ArraysBehindHeader(data: seq<byte>, header: RealmHeader)
    ensures forall k :: 0 <= k < |FileArrays(data, header)| ==>
              FILE_HEADER_SIZE <= FileArrays(data, header)[k].offset
  {
    forall k | 0 <= k < |FileArrays(data, header)| ensures FILE_HEADER_SIZE <= FileArrays(data, header)[k].offset {
      ReportedAt(data, header, k);
    }
  }

  lemma SwappedOffsets(arrays: seq<ArrayNode>)
    requires forall k :: 0 <= k < |arrays| ==> FILE_HEADER_SIZE <= arrays[k].offset
    ensures forall k :: 0 <= k < |SwapAll(arrays)| ==> FILE_HEADER_SIZE <= SwapAll(arrays)[k].offset
  {}
}
