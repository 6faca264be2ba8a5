// Labelling arrays by which transaction roots reach them, and what the labels mean for the file's bytes.
module Classification {
  import opened Bytes
  import opened Layout
  import opened Scanner
  import opened References
  import opened Traversal

  predicate Ascending(s: seq<nat>) {
    forall i, j :: 0 <= i < j < |s| ==> s[i] < s[j]
  }

  predicate IsLeast(s: set<nat>, m: nat) {
    m in s && forall x :: x in s ==> m <= x
  }

  lemma {:induction false} LeastExists(s: set<nat>) returns (m: nat)
    requires s != {}
    ensures IsLeast(s, m)
    decreases |s|
  {
    var y :| y in s;
    var rest := s - {y};
    if rest == {} {
      assert s == {y};
      m := y;
    } else {
      var r := LeastExists(rest);
      m := if r < y then r else y;
      assert forall x :: x in s ==> x == y || x in rest;
    }
  }

  function Least(s: set<nat>): (m: nat)
    requires s != {}
    ensures IsLeast(s, m)
  {
    assert exists m :: IsLeast(s, m) by { var m := LeastExists(s); }
    var m :| IsLeast(s, m);
    m
  }

  /** sorted(keys). */
  function Sorted(s: set<nat>): (r: seq<nat>)
    ensures Ascending(r) && |r| == |s|
    ensures forall x :: x in r <==> x in s
  {
    if s == {} then []
    else
      var m := Least(s);
      var rest := Sorted(s - {m});
      var r := [m] + rest;
      assert forall x :: x in r <==> x == m || x in rest;
      r
  }

  function LabelOf(inActive: bool, inInactive: bool): Reachability {
    if inActive && inInactive then Shared
    else if inActive then Active
    else if inInactive then Inactive
    else Orphan
  }

  /** One array with the label its membership in the two reachable sets gives it. */
  function Labelled(node: ArrayNode, offset: nat, active: set<nat>, inactive: set<nat>): ArrayNode {
    node.(reachability := LabelOf(offset in active, offset in inactive))
  }

  /** All arrays, labelled, in offset order. */
  function LabelAll(nodes: Graph, active: set<nat>, inactive: set<nat>): seq<ArrayNode> {
    var offsets := Sorted(nodes.Keys);
    seq(|offsets|, i requires 0 <= i < |offsets| => Labelled(nodes[offsets[i]], offsets[i], active, inactive))
  }

  ghost function Classified(nodes: Graph, header: RealmHeader): seq<ArrayNode> {
    LabelAll(nodes, ReachSet(nodes, header.activeTopRef), ReachSet(nodes, header.inactiveTopRef))
  }

  lemma TakeNext<T>(s: seq<T>, k: nat, x: T)
    requires k < |s| && s[k] == x
    ensures s[..k + 1] == s[..k] + [x]
  {}

  /** The labelling loop over sorted(nodes). */
  method LabelInOrder(nodes: Graph, active: set<nat>, inactive: set<nat>) returns (classified: seq<ArrayNode>)
    ensures classified == LabelAll(nodes, active, inactive)
  {
    classified := [];
    var offsets := Sorted(nodes.Keys);
    ghost var all := LabelAll(nodes, active, inactive);
    for k := 0 to |offsets|
      invariant classified == all[..k]
    {
      var offset := offsets[k];
      assert offset in nodes.Keys;
      var reachability;
      if offset in active && offset in inactive {
        reachability := Shared;
      } else if offset in active {
        reachability := Active;
      } else if offset in inactive {
        reachability := Inactive;
      } else {
        reachability := Orphan;
      }
      var labelled := nodes[offset].(reachability := reachability);
      TakeNext(all, k, labelled);
      classified := classified + [labelled];
    }
  }

  method ClassifyNodes(nodes: Graph, header: RealmHeader) returns (classified: seq<ArrayNode>)
    requires Closed(nodes)
    ensures classified == Classified(nodes, header)
  {
    var active, _ := Reachable(nodes, header.activeTopRef);
    var inactive, _ := Reachable(nodes, header.inactiveTopRef);
    classified := LabelInOrder(nodes, active, inactive);
  }

  /** Some array carries the given label, or shared, which implies both. */
  predicate AnyLabelled(arrays: seq<ArrayNode>, wanted: Reachability) {
    exists i :: 0 <= i < |arrays| && (arrays[i].reachability == wanted || arrays[i].reachability.Shared?)
  }

  lemma LabelPosition(nodes: Graph, active: set<nat>, inactive: set<nat>, x: nat) returns (i: nat)
    requires x in nodes
    ensures i < |LabelAll(nodes, active, inactive)|
    ensures LabelAll(nodes, active, inactive)[i].reachability == LabelOf(x in active, x in inactive)
  {
    var offsets := Sorted(nodes.Keys);
    assert x in offsets;
    i :| 0 <= i < |offsets| && offsets[i] == x;
  }

  /** Labels by offset: arrays[i] is labelled by the membership of offsets[i]. */
  predicate LabelledBy(arrays: seq<ArrayNode>, offsets: seq<nat>, active: set<nat>, inactive: set<nat>) {
    |arrays| == |offsets| &&
    forall i :: 0 <= i < |arrays| ==>
      arrays[i].reachability == LabelOf(offsets[i] in active, offsets[i] in inactive)
  }

  lemma LabelledIffNonempty(nodes: Graph, active: set<nat>, inactive: set<nat>)
    requires active <= nodes.Keys && inactive <= nodes.Keys
    ensures AnyLabelled(LabelAll(nodes, active, inactive), Active) <==> active != {}
    ensures AnyLabelled(LabelAll(nodes, active, inactive), Inactive) <==> inactive != {}
  {
    assert LabelledBy(LabelAll(nodes, active, inactive), Sorted(nodes.Keys), active, inactive);
    SomeLabelled(LabelAll(nodes, active, inactive), Sorted(nodes.Keys), active, inactive);
    if active != {} {
      var x :| x in active;
      var i := LabelPosition(nodes, active, inactive, x);
    }
    if inactive != {} {
      var x :| x in inactive;
      var i := LabelPosition(nodes, active, inactive, x);
    }
  }

  lemma SomeLabelled(arrays: seq<ArrayNode>, offsets: seq<nat>, active: set<nat>, inactive: set<nat>)
    requires LabelledBy(arrays, offsets, active, inactive)
    ensures AnyLabelled(arrays, Active) ==> active != {}
    ensures AnyLabelled(arrays, Inactive) ==> inactive != {}
  {}

  /** The arrays reported for a file with the given header. */
  ghost function FileArrays(data: seq<byte>, header: RealmHeader): seq<ArrayNode> {
    Classified(FileGraph(data), header)
  }

  /** One decoded reference, read straight off the file's bytes. */
  predicate RefersTo(data: seq<byte>, from: nat, to: nat) {
    && PlausibleAt(data, from) && PlausibleAt(data, to)
    && DecodesRefs(NodeAt(data, from))
    && exists index :: 0 <= index < CountAt(data, from) && ElementAt(data, from, NodeAt(data, from), index) == to
  }

  /** A chain of decoded references from one plausible array to another. */
  ghost predicate ByteChain(data: seq<byte>, path: seq<nat>, root: nat, target: nat) {
    && path != [] && path[0] == root && path[|path| - 1] == target
    && (forall i :: 0 <= i < |path| ==> PlausibleAt(data, path[i]))
    && (forall i :: 0 <= i < |path| - 1 ==> RefersTo(data, path[i], path[i + 1]))
  }

  ghost predicate Leads(data: seq<byte>, root: nat, target: nat) {
    exists path :: ByteChain(data, path, root, target)
  }

  /** A value occurs among the decoded elements exactly when some index decodes to it. */
  lemma ElementIndex(data: seq<byte>, from: nat, node: ArrayNode, to: nat)
    ensures to in Elements(data, from, node)
       <==> exists index :: 0 <= index < node.elementCount && ElementAt(data, from, node, index) == to
  {
    var elements := Elements(data, from, node);
    assert forall k :: 0 <= k < |elements| ==> elements[k] == ElementAt(data, from, node, k);
    if to in elements {
      var k :| 0 <= k < |elements| && elements[k] == to;
      assert ElementAt(data, from, node, k) == to;
    }
    if index :| 0 <= index < node.elementCount && ElementAt(data, from, node, index) == to {
      assert elements[index] == to;
    }
  }

  lemma EdgeIsReference(data: seq<byte>, from: nat, to: nat)
    requires from in FileGraph(data)
    ensures to in FileGraph(data)[from].childRefs <==> RefersTo(data, from, to)
  {
    CandidateIs(data, from);
    CandidateIs(data, to);
    ChildrenMeaning(data, from);
    ElementIndex(data, from, NodeAt(data, from), to);
  }

  lemma PathIsChain(data: seq<byte>, path: seq<nat>, root: nat, target: nat)
    ensures PathFromTo(FileGraph(data), path, root, target) <==> ByteChain(data, path, root, target)
  {
    var g := FileGraph(data);
    forall i | 0 <= i < |path| ensures path[i] in g <==> PlausibleAt(data, path[i]) {
      CandidateIs(data, path[i]);
    }
    forall i | 0 <= i < |path| - 1 && path[i] in g
      ensures path[i + 1] in g[path[i]].childRefs <==> RefersTo(data, path[i], path[i + 1])
    {
      EdgeIsReference(data, path[i], path[i + 1]);
    }
  }

  lemma ReachesIsLeads(data: seq<byte>, root: nat, target: nat)
    ensures target in ReachSet(FileGraph(data), root) <==> Leads(data, root, target)
  {
    var g := FileGraph(data);
    forall path: seq<nat> ensures PathFromTo(g, path, root, target) <==> ByteChain(data, path, root, target) {
      PathIsChain(data, path, root, target);
    }
    if Leads(data, root, target) {
      var path :| ByteChain(data, path, root, target);
      assert PathFromTo(g, path, root, target);
      assert path[|path| - 1] in g;
    }
  }

  /** The array at position i of the report. */
  lemma ReportedAt(data: seq<byte>, header: RealmHeader, i: nat)
    requires i < |FileArrays(data, header)|
    ensures var arrays, o := FileArrays(data, header), Sorted(FileGraph(data).Keys)[i];
            && |arrays| == |Sorted(FileGraph(data).Keys)|
            && PlausibleAt(data, o)
            && arrays[i] == NodeAt(data, o).(
                 childRefs := FileGraph(data)[o].childRefs,
                 reachability := LabelOf(Leads(data, header.activeTopRef, o), Leads(data, header.inactiveTopRef, o)))
            && arrays[i].offset == o
  {
    var o := Sorted(FileGraph(data).Keys)[i];
    assert o in FileGraph(data).Keys;
    CandidateIs(data, o);
    ReachesIsLeads(data, header.activeTopRef, o);
    ReachesIsLeads(data, header.inactiveTopRef, o);
  }

  /** Every plausible offset has a position in the report. */
  lemma ReportIndex(data: seq<byte>, header: RealmHeader, o: nat) returns (i: nat)
    requires PlausibleAt(data, o)
    ensures i < |FileArrays(data, header)| && FileArrays(data, header)[i].offset == o
  {
    CandidateIs(data, o);
    var offsets := Sorted(FileGraph(data).Keys);
    assert o in offsets;
    i :| 0 <= i < |offsets| && offsets[i] == o;
    ReportedAt(data, header, i);
  }

  /**
   * What the report says about the file's bytes: it lists every plausible offset once, in increasing
   * order, and an array's label tells exactly which roots a chain of decoded references joins to it.
   */
  lemma LabelsMeanChains(data: seq<byte>, header: RealmHeader)
    ensures var arrays := FileArrays(data, header);
            && (forall i, j :: 0 <= i < j < |arrays| ==> arrays[i].offset < arrays[j].offset)
            && (forall o: nat :: (exists a :: a in arrays && a.offset == o) <==> PlausibleAt(data, o))
            && (forall a :: a in arrays ==>
                  var fromActive := Leads(data, header.activeTopRef, a.offset);
                  var fromInactive := Leads(data, header.inactiveTopRef, a.offset);
                  && (a.reachability.Shared? <==> fromActive && fromInactive)
                  && (a.reachability.Active? <==> fromActive && !fromInactive)
                  && (a.reachability.Inactive? <==> !fromActive && fromInactive)
                  && (a.reachability.Orphan? <==> !fromActive && !fromInactive))
  {
    var arrays := FileArrays(data, header);
    forall i | 0 <= i < |arrays|
      ensures arrays[i].offset == Sorted(FileGraph(data).Keys)[i] && PlausibleAt(data, arrays[i].offset)
      ensures arrays[i].reachability == LabelOf(Leads(data, header.activeTopRef, arrays[i].offset),
                                                Leads(data, header.inactiveTopRef, arrays[i].offset))
    {
      ReportedAt(data, header, i);
    }
    forall o: nat | PlausibleAt(data, o) ensures exists a :: a in arrays && a.offset == o {
      var i := ReportIndex(data, header, o);
      assert arrays[i] in arrays;
    }
  }
}
