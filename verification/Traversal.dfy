// The worklist traversal and its meaning as paths.
module Traversal {
  import opened References

  /** A nonempty chain of nodes, each listed among the children of the one before. */
  predicate IsPath(nodes: Graph, path: seq<nat>) {
    && path != []
    && (forall i :: 0 <= i < |path| ==> path[i] in nodes)
    && (forall i :: 0 <= i < |path| - 1 ==> path[i + 1] in nodes[path[i]].childRefs)
  }

  predicate PathFromTo(nodes: Graph, path: seq<nat>, root: nat, target: nat) {
    IsPath(nodes, path) && path[0] == root && path[|path| - 1] == target
  }

  ghost predicate Reaches(nodes: Graph, root: nat, target: nat) {
    exists path :: PathFromTo(nodes, path, root, target)
  }

  /** Everything a chain of references leads to; empty when the root is not a node. */
  ghost function ReachSet(nodes: Graph, root: nat): set<nat> {
    set x | x in nodes && Reaches(nodes, root, x)
  }

  predicate ClosedUnder(nodes: Graph, s: set<nat>) {
    forall x, c :: x in s && x in nodes && c in nodes[x].childRefs ==> c in s
  }

  lemma ReachesRoot(nodes: Graph, root: nat)
    requires root in nodes
    ensures Reaches(nodes, root, root)
  {
    assert PathFromTo(nodes, [root], root, root);
  }

  lemma ReachesChild(nodes: Graph, root: nat, x: nat, c: nat)
    requires Reaches(nodes, root, x) && x in nodes && c in nodes && c in nodes[x].childRefs
    ensures Reaches(nodes, root, c)
  {
    var path :| PathFromTo(nodes, path, root, x);
    assert PathFromTo(nodes, path + [c], root, c);
  }

  lemma {:induction false} PathStaysInside(nodes: Graph, s: set<nat>, path: seq<nat>)
    requires IsPath(nodes, path) && path[0] in s && ClosedUnder(nodes, s)
    ensures path[|path| - 1] in s
  {
    if |path| > 1 {
      var p := path[..|path| - 1];
      assert IsPath(nodes, p);
      PathStaysInside(nodes, s, p);
      assert path[|p| - 1 + 1] in nodes[path[|p| - 1]].childRefs;
    }
  }

  /** ReachSet is the least set of nodes that holds the root and is closed under child references. */
  lemma ReachSetIsLeast(nodes: Graph, root: nat)
    requires Closed(nodes)
    ensures root !in nodes ==> ReachSet(nodes, root) == {}
    ensures root in nodes ==> root in ReachSet(nodes, root)
    ensures ClosedUnder(nodes, ReachSet(nodes, root))
    ensures forall s: set<nat> :: root in s && ClosedUnder(nodes, s) ==> ReachSet(nodes, root) <= s
  {
    if root in nodes {
      ReachesRoot(nodes, root);
    }
    forall x, c | x in ReachSet(nodes, root) && c in nodes[x].childRefs ensures c in ReachSet(nodes, root) {
      ReachesChild(nodes, root, x, c);
    }
    forall s: set<nat>, x | root in s && ClosedUnder(nodes, s) && x in ReachSet(nodes, root) ensures x in s {
      var path :| PathFromTo(nodes, path, root, x);
      PathStaysInside(nodes, s, path);
    }
  }

  /** The total number of child references held by the nodes in `s`. */
  ghost function TotalRefs(nodes: Graph, s: set<nat>): nat
    requires s <= nodes.Keys
  {
    if s == {} then 0
    else
      var x :| x in s;
      |nodes[x].childRefs| + TotalRefs(nodes, s - {x})
  }

  lemma {:induction false} TotalRefsRemove(nodes: Graph, s: set<nat>, y: nat)
    requires s <= nodes.Keys && y in s
    ensures TotalRefs(nodes, s) == |nodes[y].childRefs| + TotalRefs(nodes, s - {y})
    decreases |s|
  {
    var x :| x in s && TotalRefs(nodes, s) == |nodes[x].childRefs| + TotalRefs(nodes, s - {x});
    if x != y {
      TotalRefsRemove(nodes, s - {x}, y);
      TotalRefsRemove(nodes, s - {y}, x);
      assert s - {x} - {y} == s - {y} - {x};
    }
  }

  /** [ref for ref in refs if ref not in seen]. */
  function Unseen(refs: seq<nat>, seen: set<nat>): (r: seq<nat>)
    ensures |r| <= |refs|
    ensures forall x :: x in r <==> x in refs && x !in seen
  {
    if refs == [] then []
    else if refs[0] in seen then Unseen(refs[1..], seen)
    else [refs[0]] + Unseen(refs[1..], seen)
  }

  ghost function Elems(s: seq<nat>): set<nat> {
    set x | x in s
  }

  /** Everything known so far is reachable. */
  ghost predicate Sound(nodes: Graph, root: nat, known: set<nat>) {
    forall x :: x in known ==> x in nodes && Reaches(nodes, root, x)
  }

  /** Every child of a visited node is known. */
  ghost predicate Frontier(nodes: Graph, seen: set<nat>, known: set<nat>) {
    forall x, c :: x in seen && x in nodes && c in nodes[x].childRefs ==> c in known
  }

  /** Visiting a pending node and adding its unseen children keeps the worklist sound and complete. */
  lemma Visit(nodes: Graph, root: nat, seen: set<nat>, rest: set<nat>, current: nat, added: set<nat>)
    requires Closed(nodes)
    requires Sound(nodes, root, seen + (rest + {current})) && Frontier(nodes, seen, seen + (rest + {current}))
    requires forall c :: c in added <==> c in nodes && c in nodes[current].childRefs && c !in seen + {current}
    ensures Sound(nodes, root, seen + {current} + (rest + added))
    ensures Frontier(nodes, seen + {current}, seen + {current} + (rest + added))
  {
    assert current in seen + (rest + {current});
    forall c | c in added ensures Reaches(nodes, root, c) {
      ReachesChild(nodes, root, current, c);
    }
    forall x, c | x in seen + {current} && x in nodes && c in nodes[x].childRefs
      ensures c in seen + {current} + (rest + added)
    {
      if x in seen {
        assert c in seen + (rest + {current});
      } else {
        assert c in nodes;
      }
    }
  }

  /**
   * The traversal visits exactly the reachable nodes. Its lookups never miss, because the graph is
   * closed, and it pops at most one entry more than the visited nodes hold child references.
   */
  method Reachable(nodes: Graph, root: nat) returns (seen: set<nat>, ghost pops: nat)
    requires Closed(nodes)
    ensures seen == ReachSet(nodes, root)
    ensures seen <= nodes.Keys && pops <= 1 + TotalRefs(nodes, seen)
  {
    seen, pops := {}, 0;
    if root !in nodes {
      assert ReachSet(nodes, root) == {};
      return;
    }
    var pending := [root];
    ReachesRoot(nodes, root);
    while pending != []
      invariant seen <= nodes.Keys && root in seen + Elems(pending)
      invariant Sound(nodes, root, seen + Elems(pending))
      invariant Frontier(nodes, seen, seen + Elems(pending))
      invariant pops + |pending| <= 1 + TotalRefs(nodes, seen)
      decreases nodes.Keys - seen, |pending|
    {
      var current := pending[|pending| - 1];
      assert Elems(pending) == Elems(pending[..|pending| - 1]) + {current} by {
        assert pending == pending[..|pending| - 1] + [current];
      }
      pending := pending[..|pending| - 1];
      pops := pops + 1;
      if current in seen {
        assert seen + (Elems(pending) + {current}) == seen + Elems(pending);
        continue;
      }
      ghost var was, rest := seen, Elems(pending);
      seen := seen + {current};
      assert seen - {current} == was;
      TotalRefsRemove(nodes, seen, current);
      var added := Unseen(nodes[current].childRefs, seen);
      Visit(nodes, root, was, rest, current, Elems(added));
      pending := pending + added;
      assert Elems(pending) == rest + Elems(added);
    }
    ReachSetIsLeast(nodes, root);
    assert ReachSet(nodes, root) <= seen;
  }
}
