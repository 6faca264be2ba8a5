// Cutting the file short never invents structure.
module Truncation {
  import opened Bytes
  import opened Layout
  import opened Scanner
  import opened Sequences
  import opened References
  import opened Traversal
  import opened Classification
  import opened Locality

  /** The label order orphan < active, inactive < shared. */
  predicate AtMost(lower: Reachability, upper: Reachability) {
    lower == upper || lower.Orphan? || upper.Shared?
  }

  lemma CutHeader(data: seq<byte>, n: nat)
    requires FILE_HEADER_SIZE <= n <= |data|
    requires ParseHeader(data).Some? && !ParseHeader(data).value.streaming
    ensures ParseHeader(data[..n]) == ParseHeader(data)
  {
    var cut := data[..n];
    assert Agree(cut, data, 0, 24);
    AgreeSlice(cut, data, 0, 24, 16, 20);
    AgreeSlice(cut, data, 0, 24, 0, 8);
    AgreeSlice(cut, data, 0, 24, 8, 16);
  }

  /** The arrays that survive a cut are exactly those whose extent still fits, unchanged. */
  lemma CutCandidates(data: seq<byte>, n: nat, o: nat)
    requires n <= |data|
    ensures o in Candidates(data[..n])
       <==> o in Candidates(data) && o + Candidates(data)[o].byteSize <= n
    ensures o in Candidates(data[..n]) ==> Candidates(data[..n])[o] == Candidates(data)[o]
  {
    var cut := data[..n];
    CandidateIs(cut, o);
    CandidateIs(data, o);
    if o + ARRAY_HEADER_SIZE <= n {
      assert Agree(cut, data, o, o + ARRAY_HEADER_SIZE) && Agree(data, cut, o, o + ARRAY_HEADER_SIZE);
      SameArrayHeader(cut, data, o);
      SameArrayHeader(data, cut, o);
    }
  }

  lemma CutKeys(data: seq<byte>, n: nat)
    requires n <= |data|
    ensures Candidates(data[..n]).Keys <= Candidates(data).Keys
  {
    forall x | x in Candidates(data[..n]).Keys ensures x in Candidates(data).Keys {
      CutCandidates(data, n, x);
    }
  }

  lemma CutElements(data: seq<byte>, n: nat, o: nat, node: ArrayNode)
    requires n <= |data| && o in Candidates(data[..n]) && Candidates(data[..n])[o] == node && DecodesRefs(node)
    ensures Elements(data[..n], o, node) == Elements(data, o, node)
  {
    CutCandidates(data, n, o);
    CandidateIs(data[..n], o);
    CandidateIs(data, o);
    SameElements(data[..n], data, o, node);
  }

  /** A surviving array keeps, in order, exactly the children that survive. */
  lemma CutChildren(data: seq<byte>, n: nat, o: nat)
    requires n <= |data| && o in Candidates(data[..n])
    ensures o in Candidates(data)
    ensures FileGraph(data[..n])[o].childRefs == Select(FileGraph(data)[o].childRefs, Candidates(data[..n]).Keys)
  {
    CutCandidates(data, n, o);
    var cut, node := data[..n], Candidates(data)[o];
    var small, big := Candidates(cut).Keys, Candidates(data).Keys;
    ChildrenMeaning(cut, o);
    ChildrenMeaning(data, o);
    if DecodesRefs(node) {
      CutKeys(data, n);
      CutElements(data, n, o, node);
      var elements := Elements(data, o, node);
      SelectDistinct(Select(elements, big), small);
      SelectSelect(elements, big, small);
    }
  }

  /** A chain of references in the whole file that visits only arrays that survive the cut. */
  ghost predicate SurvivingChain(data: seq<byte>, n: nat, path: seq<nat>, root: nat, target: nat)
    requires n <= |data|
  {
    ByteChain(data, path, root, target) && forall i :: 0 <= i < |path| ==> path[i] in Candidates(data[..n])
  }

  ghost predicate LeadsWithin(data: seq<byte>, n: nat, root: nat, target: nat)
    requires n <= |data|
  {
    exists path :: SurvivingChain(data, n, path, root, target)
  }

  /** `small` is `big` without some nodes and the edges at them. */
  ghost predicate Restricts(small: Graph, big: Graph) {
    small.Keys <= big.Keys
    && forall x, y :: x in small && y in small ==> (y in small[x].childRefs <==> y in big[x].childRefs)
  }

  lemma RestrictedPath(small: Graph, big: Graph, path: seq<nat>, root: nat, target: nat)
    requires Restricts(small, big)
    ensures PathFromTo(small, path, root, target)
       <==> PathFromTo(big, path, root, target) && forall i :: 0 <= i < |path| ==> path[i] in small
  {}

  lemma CutEdge(data: seq<byte>, n: nat, x: nat, y: nat)
    requires n <= |data| && x in Candidates(data[..n]) && y in Candidates(data[..n])
    ensures x in Candidates(data)
    ensures y in FileGraph(data[..n])[x].childRefs <==> y in FileGraph(data)[x].childRefs
  {
    CutChildren(data, n, x);
    SelectMembers(FileGraph(data)[x].childRefs, Candidates(data[..n]).Keys);
  }

  lemma CutRestricts(data: seq<byte>, n: nat)
    requires n <= |data|
    ensures Restricts(FileGraph(data[..n]), FileGraph(data))
  {
    CutKeys(data, n);
    var small, big := FileGraph(data[..n]), FileGraph(data);
    forall x, y | x in small && y in small ensures y in small[x].childRefs <==> y in big[x].childRefs {
      CutEdge(data, n, x, y);
    }
  }

  /** The cut file's chains are exactly those of the whole file that visit only surviving arrays. */
  lemma CutChain(data: seq<byte>, n: nat, path: seq<nat>, root: nat, target: nat)
    requires n <= |data|
    ensures ByteChain(data[..n], path, root, target) <==> SurvivingChain(data, n, path, root, target)
  {
    PathIsChain(data[..n], path, root, target);
    PathIsChain(data, path, root, target);
    CutRestricts(data, n);
    RestrictedPath(FileGraph(data[..n]), FileGraph(data), path, root, target);
  }

  /** So a root leads to an array of the cut file exactly when such a chain does, and then also in the whole file. */
  lemma CutLeadsExactly(data: seq<byte>, n: nat, root: nat, target: nat)
    requires n <= |data|
    ensures Leads(data[..n], root, target) <==> LeadsWithin(data, n, root, target)
    ensures LeadsWithin(data, n, root, target) ==> Leads(data, root, target)
  {
    forall path: seq<nat>
      ensures ByteChain(data[..n], path, root, target) <==> SurvivingChain(data, n, path, root, target)
    {
      CutChain(data, n, path, root, target);
    }
  }

  /**
   * What the array `small` of a cut file keeps of the array `big` of the whole file: everything but the
   * children that are gone and the roots that led to it only through arrays that are gone.
   */
  ghost predicate CutOf(data: seq<byte>, n: nat, header: RealmHeader, small: ArrayNode, big: ArrayNode)
    requires n <= |data|
  {
    && small == big.(childRefs := small.childRefs, reachability := small.reachability)
    && small.childRefs == Select(big.childRefs, Candidates(data[..n]).Keys)
    && small.reachability == LabelOf(LeadsWithin(data, n, header.activeTopRef, big.offset),
                                     LeadsWithin(data, n, header.inactiveTopRef, big.offset))
    && AtMost(small.reachability, big.reachability)
  }

  lemma CutArray(data: seq<byte>, n: nat, header: RealmHeader, i: nat) returns (j: nat)
    requires n <= |data|
    requires i < |FileArrays(data[..n], header)|
    ensures j < |FileArrays(data, header)|
    ensures CutOf(data, n, header, FileArrays(data[..n], header)[i], FileArrays(data, header)[j])
  {
    var cut := data[..n];
    ReportedAt(cut, header, i);
    var o := FileArrays(cut, header)[i].offset;
    CandidateIs(cut, o);
    CutCandidates(data, n, o);
    CandidateIs(data, o);
    j := ReportIndex(data, header, o);
    ReportedAt(data, header, j);
    CutChildren(data, n, o);
    CutLeadsExactly(data, n, header.activeTopRef, o);
    CutLeadsExactly(data, n, header.inactiveTopRef, o);
  }

  lemma FittingArraySurvives(data: seq<byte>, n: nat, header: RealmHeader, j: nat) returns (i: nat)
    requires n <= |data| && j < |FileArrays(data, header)|
    requires var big := FileArrays(data, header)[j]; big.offset + big.byteSize <= n
    ensures i < |FileArrays(data[..n], header)|
    ensures FileArrays(data[..n], header)[i].offset == FileArrays(data, header)[j].offset
  {
    ReportedAt(data, header, j);
    var o := FileArrays(data, header)[j].offset;
    CandidateIs(data, o);
    CutCandidates(data, n, o);
    CandidateIs(data[..n], o);
    i := ReportIndex(data[..n], header, o);
  }

  lemma CutArraysComeFromWhole(data: seq<byte>, n: nat, header: RealmHeader)
    requires n <= |data|
    ensures forall small :: small in FileArrays(data[..n], header) ==>
              exists big :: big in FileArrays(data, header) && CutOf(data, n, header, small, big)
  {
    var whole, cut := FileArrays(data, header), FileArrays(data[..n], header);
    forall small | small in cut ensures exists big :: big in whole && CutOf(data, n, header, small, big) {
      var i :| 0 <= i < |cut| && cut[i] == small;
      var j := CutArray(data, n, header, i);
      assert whole[j] in whole;
    }
  }

  lemma FittingArraysSurvive(data: seq<byte>, n: nat, header: RealmHeader)
    requires n <= |data|
    ensures forall big :: big in FileArrays(data, header) && big.offset + big.byteSize <= n ==>
              exists small :: small in FileArrays(data[..n], header) && small.offset == big.offset
  {
    var whole, cut := FileArrays(data, header), FileArrays(data[..n], header);
    forall big | big in whole && big.offset + big.byteSize <= n
      ensures exists small :: small in cut && small.offset == big.offset
    {
      var j :| 0 <= j < |whole| && whole[j] == big;
      var i := FittingArraySurvives(data, n, header, j);
      assert cut[i] in cut;
    }
  }

  /**
   * Truncation never invents structure: cutting a non-streaming file anywhere past its header keeps the
   * header, keeps exactly the arrays that still fit, keeps of each child list exactly the surviving
   * children in order, and labels an array by the chains that visit only surviving arrays, so that labels
   * only move down.
   */
  lemma TruncationNeverInvents(data: seq<byte>, n: nat)
    requires FILE_HEADER_SIZE <= n <= |data|
    requires ParseHeader(data).Some? && !ParseHeader(data).value.streaming
    ensures ParseHeader(data[..n]) == ParseHeader(data)
    ensures var header := ParseHeader(data).value;
            && (forall small :: small in FileArrays(data[..n], header) ==>
                  exists big :: big in FileArrays(data, header) && CutOf(data, n, header, small, big))
            && (forall big :: big in FileArrays(data, header) && big.offset + big.byteSize <= n ==>
                  exists small :: small in FileArrays(data[..n], header) && small.offset == big.offset)
  {
    CutHeader(data, n);
    CutArraysComeFromWhole(data, n, ParseHeader(data).value);
    FittingArraysSurvive(data, n, ParseHeader(data).value);
  }
}
