// Switching the active slot: the effect of bit 0 of the header's flag byte.
module HeaderFlip {
  import opened Bytes
  import opened Layout
  import opened Scanner
  import opened References
  import opened Traversal
  import opened Classification
  import opened Locality

  /** data with bit 0 of the flag byte at offset 23 inverted. */
  function Flip(data: seq<byte>): seq<byte>
    requires FILE_HEADER_SIZE <= |data|
  {
    data[23 := if data[23] % 2 == 0 then data[23] + 1 else data[23] - 1]
  }

  function Swap(r: Reachability): Reachability {
    match r
    case Active => Inactive
    case Inactive => Active
    case Shared => Shared
    case Orphan => Orphan
  }

  function SwapAll(arrays: seq<ArrayNode>): seq<ArrayNode> {
    seq(|arrays|, i requires 0 <= i < |arrays| => arrays[i].(reachability := Swap(arrays[i].reachability)))
  }

  lemma FlippedHeader(data: seq<byte>)
    requires ParseHeader(data).Some? && ParseHeader(data).value.topRefs.0 != ALL_ONES
    ensures ParseHeader(Flip(data)).Some?
    ensures var h, f := ParseHeader(data).value, ParseHeader(Flip(data)).value;
            && f.topRefs == h.topRefs && f.activeSlot + h.activeSlot == 1 && !f.streaming && !h.streaming
            && (f.activeTopRef == h.inactiveTopRef || (f.activeTopRef == ALL_ONES && h.inactiveTopRef == 0))
            && (f.inactiveTopRef == h.activeTopRef || (f.inactiveTopRef == 0 && h.activeTopRef == ALL_ONES))
            && f.activeTopRef == (if h.activeSlot == 0 then h.topRefs.1 else h.topRefs.0)
            && h.inactiveTopRef != ALL_ONES && f.inactiveTopRef != ALL_ONES && f.reserved == h.reserved
  {
    var flipped := Flip(data);
    assert Agree(data, flipped, 0, 23);
    AgreeSlice(data, flipped, 0, 23, 16, 20);
    AgreeSlice(data, flipped, 0, 23, 0, 8);
    AgreeSlice(data, flipped, 0, 23, 8, 16);
  }

  /** Neither zero nor the all-ones value is ever an array's offset. */
  lemma SentinelsReachNothing(data: seq<byte>)
    ensures ReachSet(FileGraph(data), 0) == {}
    ensures ReachSet(FileGraph(data), ALL_ONES) == {}
  {
    CandidateIs(data, 0);
    CandidateIs(data, ALL_ONES);
    ReferencesAreClosed(data, Candidates(data));
    ReachSetIsLeast(FileGraph(data), 0);
    ReachSetIsLeast(FileGraph(data), ALL_ONES);
  }

  lemma SwappedSets(nodes: Graph, active: set<nat>, inactive: set<nat>)
    ensures LabelAll(nodes, inactive, active) == SwapAll(LabelAll(nodes, active, inactive))
  {}

  /**
   * Unless slot 0 holds the all-ones value, flipping the slot bit swaps active with inactive on every
   * array and changes nothing else about the arrays.
   */
  lemma FlipSwapsLabels(data: seq<byte>)
    requires ParseHeader(data).Some? && ParseHeader(data).value.topRefs.0 != ALL_ONES
    ensures ParseHeader(Flip(data)).Some?
    ensures FileArrays(Flip(data), ParseHeader(Flip(data)).value)
         == SwapAll(FileArrays(data, ParseHeader(data).value))
  {
    FlippedHeader(data);
    GraphIgnoresHeader(data, Flip(data));
    SentinelsReachNothing(data);
    var h, f, g := ParseHeader(data).value, ParseHeader(Flip(data)).value, FileGraph(data);
    assert ReachSet(g, f.activeTopRef) == ReachSet(g, h.inactiveTopRef);
    assert ReachSet(g, f.inactiveTopRef) == ReachSet(g, h.activeTopRef);
    SwappedSets(g, ReachSet(g, h.activeTopRef), ReachSet(g, h.inactiveTopRef));
  }

  /** With the all-ones value in slot 0, slot bit 0 means a streaming file: no array is ever inactive or shared. */
  lemma AllOnesSlotHasNoInactive(data: seq<byte>)
    requires ParseHeader(data).Some? && ParseHeader(data).value.topRefs.0 == ALL_ONES
    ensures var h := ParseHeader(data).value;
            && (h.streaming <==> data[23] % 2 == 0)
            && h.inactiveTopRef == 0
            && forall a :: a in FileArrays(data, h) ==> a.reachability.Active? || a.reachability.Orphan?
  {
    SentinelsReachNothing(data);
    NeverInactive(FileGraph(data), ReachSet(FileGraph(data), ParseHeader(data).value.activeTopRef));
  }

  lemma NeverInactive(nodes: Graph, active: set<nat>)
    ensures forall a :: a in LabelAll(nodes, active, {}) ==> a.reachability.Active? || a.reachability.Orphan?
  {}

  /**
   * The exact condition: with the all-ones value in slot 0, a flip that leaves a readable header swaps
   * the labels precisely when neither header's active root is the offset of an array.
   */
  lemma AllOnesFlipSwapsExactlyWhen(data: seq<byte>)
    requires ParseHeader(data).Some? && ParseHeader(data).value.topRefs.0 == ALL_ONES
    requires ParseHeader(Flip(data)).Some?
    ensures var h, f := ParseHeader(data).value, ParseHeader(Flip(data)).value;
            FileArrays(Flip(data), f) == SwapAll(FileArrays(data, h))
            <==> h.activeTopRef !in Candidates(data) && f.activeTopRef !in Candidates(data)
  {
    var flipped := Flip(data);
    assert Agree(data, flipped, 0, 23);
    AgreeSlice(data, flipped, 0, 23, 0, 8);
    GraphIgnoresHeader(data, flipped);
    AllOnesSlotHasNoInactive(data);
    AllOnesSlotHasNoInactive(flipped);
    SentinelsReachNothing(data);
    OneSidedSwap(data, ParseHeader(data).value.activeTopRef, ParseHeader(flipped).value.activeTopRef);
  }

  /** With no inactive root on either side, only reports without an active array are each other's swap. */
  lemma OneSidedSwap(data: seq<byte>, before: nat, after: nat)
    ensures var g := FileGraph(data);
            LabelAll(g, ReachSet(g, after), {}) == SwapAll(LabelAll(g, ReachSet(g, before), {}))
            <==> before !in Candidates(data) && after !in Candidates(data)
  {
    var g := FileGraph(data);
    ReferencesAreClosed(data, Candidates(data));
    ReachSetIsLeast(g, before);
    ReachSetIsLeast(g, after);
    LabelledIffNonempty(g, ReachSet(g, before), {});
    LabelledIffNonempty(g, ReachSet(g, after), {});
    NeverInactive(g, ReachSet(g, before));
    NeverInactive(g, ReachSet(g, after));
    SwapNeedsNoActive(LabelAll(g, ReachSet(g, before), {}), LabelAll(g, ReachSet(g, after), {}));
    SameButLabels(g, ReachSet(g, before), ReachSet(g, after));
  }

  lemma SameButLabels(nodes: Graph, before: set<nat>, after: set<nat>)
    ensures var b, a := LabelAll(nodes, before, {}), LabelAll(nodes, after, {});
            |a| == |b| && forall i :: 0 <= i < |a| ==> a[i] == b[i].(reachability := a[i].reachability)
  {}

  lemma SwapNeedsNoActive(b: seq<ArrayNode>, a: seq<ArrayNode>)
    requires forall x :: x in b ==> x.reachability.Active? || x.reachability.Orphan?
    requires forall x :: x in a ==> x.reachability.Active? || x.reachability.Orphan?
    ensures a == SwapAll(b) ==> !AnyLabelled(b, Active) && !AnyLabelled(a, Active)
    ensures (|a| == |b| && (forall i :: 0 <= i < |a| ==> a[i] == b[i].(reachability := a[i].reachability))
             && !AnyLabelled(b, Active) && !AnyLabelled(a, Active)) ==> a == SwapAll(b)
  {
    assert forall i :: 0 <= i < |b| ==> b[i] in b;
    assert forall i :: 0 <= i < |a| ==> a[i] in a;
    if a == SwapAll(b) {
      assert forall i :: 0 <= i < |b| ==> a[i].reachability == Swap(b[i].reachability);
    }
  }
}
