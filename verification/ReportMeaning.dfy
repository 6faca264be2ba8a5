// What a report says, in terms of the file's bytes: its kind, its warnings and their order.
module ReportMeaning {
  import opened Bytes
  import opened Layout
  import opened Scanner
  import opened Classification
  import opened WrittenFiles
  import opened Analysis

  ghost predicate HasRealmHeader(data: seq<byte>) {
    exists slots, formats, reserved, flags :: WrittenRealm(data, slots, formats, reserved, flags)
  }

  /** The empty file, the file without a written header and the Realm file are told apart, and nothing else is. */
  lemma KindExactlyWhen(data: seq<byte>)
    ensures Report(data).EmptyFile? <==> data == []
    ensures Report(data).Headerless? <==> data != [] && !HasRealmHeader(data)
    ensures Report(data).Plaintext? <==> HasRealmHeader(data)
  {
    ReadableExactlyWhenWritten(data);
    NoHeaderInNothing();
  }

  lemma NoHeaderInNothing()
    ensures ParseHeader([]).None?
  {}

  /** Which reason, if any, a top reference is impossible for. */
  ghost predicate ImpossibleFor(reference: nat, fileSize: nat, why: Reason) {
    match why
    case Misaligned => reference % 8 != 0
    case InsideHeader => reference % 8 == 0 && 0 < reference < 24
    case BeyondEnd => reference % 8 == 0 && 24 <= reference && fileSize <= reference
  }

  lemma ReasonExactlyWhen(root: Root, reference: nat, fileSize: nat, why: Reason)
    ensures TopReferenceWarning(root, reference, fileSize) == Some(Impossible(root, why))
       <==> ImpossibleFor(reference, fileSize, why)
  {}

  ghost predicate ListsArrayAt(arrays: seq<ArrayNode>, o: nat) {
    exists a :: a in arrays && a.offset == o
  }

  /** An offset is that of a reported array exactly when it was scanned. */
  lemma ListedExactlyWhen(data: seq<byte>, header: RealmHeader, o: nat)
    ensures ListsArrayAt(FileArrays(data, header), o) <==> o in Candidates(data)
  {
    LabelsMeanChains(data, header);
    CandidateIs(data, o);
  }

  /**
   * The warnings of a report, each exactly when the file calls for it: an impossible root for its reason, an
   * unresolved one when no array is listed there (an unused inactive root apart), the reserved byte when it is set.
   */
  ghost predicate WarnsExactly(header: RealmHeader, arrays: seq<ArrayNode>, warnings: seq<Warning>, fileSize: nat) {
    && (forall why :: Impossible(ActiveRoot, why) in warnings <==> ImpossibleFor(header.activeTopRef, fileSize, why))
    && (forall why ::
          Impossible(InactiveRoot, why) in warnings <==> ImpossibleFor(header.inactiveTopRef, fileSize, why))
    && (Unresolved(ActiveRoot) in warnings <==> !ListsArrayAt(arrays, header.activeTopRef))
    && (Unresolved(InactiveRoot) in warnings
        <==> header.inactiveTopRef != 0 && !ListsArrayAt(arrays, header.inactiveTopRef))
    && (ReservedByteSet in warnings <==> header.reserved != 0)
  }

  lemma ImpossibleExactly(header: RealmHeader, known: set<nat>, fileSize: nat)
    ensures var w := Warnings(header, known, fileSize);
            && (forall why :: Impossible(ActiveRoot, why) in w <==> ImpossibleFor(header.activeTopRef, fileSize, why))
            && (forall why ::
                  Impossible(InactiveRoot, why) in w <==> ImpossibleFor(header.inactiveTopRef, fileSize, why))
  {
    ImpossibleListed(header, known, fileSize);
    forall why
      ensures TopReferenceWarning(ActiveRoot, header.activeTopRef, fileSize) == Some(Impossible(ActiveRoot, why))
         <==> ImpossibleFor(header.activeTopRef, fileSize, why)
      ensures TopReferenceWarning(InactiveRoot, header.inactiveTopRef, fileSize) == Some(Impossible(InactiveRoot, why))
         <==> ImpossibleFor(header.inactiveTopRef, fileSize, why)
    {
      ReasonExactlyWhen(ActiveRoot, header.activeTopRef, fileSize, why);
      ReasonExactlyWhen(InactiveRoot, header.inactiveTopRef, fileSize, why);
    }
  }

  lemma WarningsFit(header: RealmHeader, known: set<nat>, arrays: seq<ArrayNode>, fileSize: nat)
    requires ListsArrayAt(arrays, header.activeTopRef) <==> header.activeTopRef in known
    requires ListsArrayAt(arrays, header.inactiveTopRef) <==> header.inactiveTopRef in known
    ensures WarnsExactly(header, arrays, Warnings(header, known, fileSize), fileSize)
  {
    WarningMembers(header, known, fileSize);
    ImpossibleExactly(header, known, fileSize);
  }

  lemma WarningsExactly(data: seq<byte>, header: RealmHeader)
    ensures WarnsExactly(header, FileArrays(data, header), Warnings(header, Candidates(data).Keys, |data|), |data|)
  {
    ListedExactlyWhen(data, header, header.activeTopRef);
    ListedExactlyWhen(data, header, header.inactiveTopRef);
    WarningsFit(header, Candidates(data).Keys, FileArrays(data, header), |data|);
  }

  /** Where a warning stands: impossible roots, then unresolved ones, active before inactive, then the reserved byte. */
  function Rank(w: Warning): nat {
    match w
    case Impossible(ActiveRoot, _) => 0
    case Impossible(InactiveRoot, _) => 1
    case Unresolved(ActiveRoot) => 2
    case Unresolved(InactiveRoot) => 3
    case ReservedByteSet => 4
  }

  predicate RanksAscend(warnings: seq<Warning>) {
    forall i, j :: 0 <= i < j < |warnings| ==> Rank(warnings[i]) < Rank(warnings[j])
  }

  lemma RanksJoin(a: seq<Warning>, b: seq<Warning>, bound: nat)
    requires RanksAscend(a) && RanksAscend(b)
    requires forall k :: 0 <= k < |a| ==> Rank(a[k]) < bound
    requires forall k :: 0 <= k < |b| ==> bound <= Rank(b[k])
    ensures RanksAscend(a + b)
  {}

  /** The list is in this order, and so holds no warning and no two reasons for one root twice. */
  lemma WarningsInOrder(header: RealmHeader, known: set<nat>, fileSize: nat)
    ensures RanksAscend(Warnings(header, known, fileSize))
  {
    var a := OneOrNone(TopReferenceWarning(ActiveRoot, header.activeTopRef, fileSize));
    var b := OneOrNone(TopReferenceWarning(InactiveRoot, header.inactiveTopRef, fileSize));
    var c := if header.activeTopRef !in known then [Unresolved(ActiveRoot)] else [];
    var d := if header.inactiveTopRef != 0 && header.inactiveTopRef !in known then [Unresolved(InactiveRoot)] else [];
    var e := if header.reserved != 0 then [ReservedByteSet] else [];
    RanksJoin(a, b, 1);
    RanksJoin(a + b, c, 2);
    RanksJoin(a + b + c, d, 3);
    RanksJoin(a + b + c + d, e, 4);
  }

  /** The same for what is reported. */
  lemma ReportWarnsExactly(data: seq<byte>)
    requires Report(data).Plaintext?
    ensures var r := Report(data);
            WarnsExactly(r.header, r.arrays, r.warnings, |data|) && RanksAscend(r.warnings)
  {
    var header := Report(data).header;
    WarningsExactly(data, header);
    WarningsInOrder(header, Candidates(data).Keys, |data|);
  }

  /** The reported header is spelled by the file's first 24 bytes, a streaming root by its last sixteen. */
  lemma ReportedHeaderIsWritten(data: seq<byte>)
    requires Report(data).Plaintext?
    ensures var h := Report(data).header;
            && HeaderBytes(h.topRefs, h.formatSlots, h.reserved, h.flags) <= data
            && (h.streaming <==> h.flags % 2 == 0 && h.topRefs.0 == ALL_ONES)
            && (if h.streaming
                then |data| >= 40 && data[|data| - 16..] == Footer(h.activeTopRef) && h.inactiveTopRef == 0
                else (h.activeTopRef, h.inactiveTopRef) == RootsOf(h.topRefs, h.flags))
  {
    HeaderIsWritten(data);
    RootsFromSlots(data);
  }

  lemma RootsFromSlots(data: seq<byte>)
    requires ParseHeader(data).Some?
    ensures var h := ParseHeader(data).value;
            if h.streaming then h.inactiveTopRef == 0
            else (h.activeTopRef, h.inactiveTopRef) == RootsOf(h.topRefs, h.flags)
  {}

  /** Bit 0 of the flags picks the active slot; all ones in the other means no inactive root. */
  function RootsOf(slots: (nat, nat), flags: byte): (nat, nat) {
    var (chosen, other) := if flags % 2 == 1 then (slots.1, slots.0) else slots;
    (chosen, if other == ALL_ONES then 0 else other)
  }
}
