// First-occurrence de-duplication and selection by membership, as used for child references.
module Sequences {

  /** The elements of s that belong to `allowed`, in order. */
  function Select(s: seq<nat>, allowed: set<nat>): seq<nat> {
    if s == [] then []
    else if s[|s| - 1] in allowed then Select(s[..|s| - 1], allowed) + [s[|s| - 1]]
    else Select(s[..|s| - 1], allowed)
  }

  /** tuple(dict.fromkeys(s)): each value once, where it first occurs. */
  function Distinct(s: seq<nat>): seq<nat> {
    if s == [] then []
    else if s[|s| - 1] in s[..|s| - 1] then Distinct(s[..|s| - 1])
    else Distinct(s[..|s| - 1]) + [s[|s| - 1]]
  }

  /** The position of the first x in s. */
  function FirstIndex(s: seq<nat>, x: nat): (k: nat)
    requires x in s
    ensures k < |s| && s[k] == x && x !in s[..k]
  {
    if s[0] == x then 0
    else
      assert s == [s[0]] + s[1..];
      var k := FirstIndex(s[1..], x) + 1;
      assert s[..k] == [s[0]] + s[1..][..k - 1];
      k
  }

  lemma SelectAppend(p: seq<nat>, l: nat, allowed: set<nat>)
    ensures Select(p + [l], allowed) == if l in allowed then Select(p, allowed) + [l] else Select(p, allowed)
  {
    assert (p + [l])[..|p|] == p;
  }

  lemma DistinctAppend(p: seq<nat>, l: nat)
    ensures Distinct(p + [l]) == if l in p then Distinct(p) else Distinct(p) + [l]
  {
    assert (p + [l])[..|p|] == p;
  }

  lemma {:induction false} SelectMembers(s: seq<nat>, allowed: set<nat>)
    ensures forall x :: x in Select(s, allowed) <==> x in s && x in allowed
  {
    if s != [] {
      var p := s[..|s| - 1];
      assert s == p + [s[|s| - 1]];
      SelectMembers(p, allowed);
    }
  }

  /** De-duplication keeps the elements, keeps each once, and orders them by first occurrence. */
  lemma {:induction false} DistinctMeaning(s: seq<nat>)
    ensures forall x :: x in Distinct(s) <==> x in s
    ensures forall i, j :: 0 <= i < j < |Distinct(s)| ==>
              Distinct(s)[i] in s && Distinct(s)[j] in s
              && FirstIndex(s, Distinct(s)[i]) < FirstIndex(s, Distinct(s)[j])
  {
    if s != [] {
      var p, l := s[..|s| - 1], s[|s| - 1];
      assert s == p + [l];
      DistinctMeaning(p);
      forall x | x in p ensures FirstIndex(s, x) == FirstIndex(p, x) < |p| {
        FirstIndexAppend(p, l, x);
      }
      if l !in p {
        assert FirstIndex(s, l) == |p|;
      }
      var d := Distinct(s);
      forall i, j | 0 <= i < j < |d|
        ensures d[i] in s && d[j] in s && FirstIndex(s, d[i]) < FirstIndex(s, d[j])
      {
        assert d[i] in p;
        assert FirstIndex(s, d[i]) == FirstIndex(p, d[i]);
        if j < |Distinct(p)| {
          assert d[i] == Distinct(p)[i] && d[j] == Distinct(p)[j];
          assert d[j] in p;
        }
      }
    }
  }

  lemma NewIsLast(q: seq<nat>, l: nat)
    requires l !in q
    ensures FirstIndex(q + [l], l) == |q|
  {
    FirstIndexUnique(q + [l], l, |q|);
  }

  /** Selecting keeps the order of first occurrences. */
  lemma {:induction false} SelectInOrder(s: seq<nat>, allowed: set<nat>, x: nat, y: nat)
    requires NamedBefore(Select(s, allowed), x, y)
    ensures NamedBefore(s, x, y)
  {
    SelectMembers(s, allowed);
    var p, l := s[..|s| - 1], s[|s| - 1];
    assert s == p + [l];
    var q := Select(p, allowed);
    SelectMembers(p, allowed);
    if x !in q {
      NewIsLast(q, l);
      assert false;
    }
    FirstIndexAppend(p, l, x);
    if l in allowed {
      FirstIndexAppend(q, l, x);
    }
    if y in q {
      FirstIndexAppend(p, l, y);
      if l in allowed {
        FirstIndexAppend(q, l, y);
      }
      SelectInOrder(p, allowed, x, y);
    } else {
      NewIsLast(p, l);
    }
  }

  lemma FirstIndexUnique(s: seq<nat>, x: nat, k: nat)
    requires k < |s| && s[k] == x && x !in s[..k]
    ensures x in s && FirstIndex(s, x) == k
  {}

  predicate NamedBefore(s: seq<nat>, x: nat, y: nat) {
    x in s && y in s && FirstIndex(s, x) < FirstIndex(s, y)
  }

  /** The values of d stand in the order in which s first names them. */
  predicate FirstNamedInOrder(d: seq<nat>, s: seq<nat>) {
    forall i, j :: 0 <= i < j < |d| ==> NamedBefore(s, d[i], d[j])
  }

  lemma StillInOrder(s: seq<nat>, allowed: set<nat>, d: seq<nat>)
    requires FirstNamedInOrder(d, Select(s, allowed))
    ensures FirstNamedInOrder(d, s)
  {
    forall i, j | 0 <= i < j < |d| ensures NamedBefore(s, d[i], d[j]) {
      assert NamedBefore(Select(s, allowed), d[i], d[j]);
      SelectInOrder(s, allowed, d[i], d[j]);
    }
  }

  lemma DistinctSelectInOrder(s: seq<nat>, allowed: set<nat>)
    ensures FirstNamedInOrder(Distinct(Select(s, allowed)), s)
  {
    var selected := Select(s, allowed);
    DistinctMeaning(selected);
    StillInOrder(s, allowed, Distinct(selected));
  }

  lemma FirstIndexAppend(p: seq<nat>, l: nat, x: nat)
    requires x in p
    ensures x in p + [l] && FirstIndex(p + [l], x) == FirstIndex(p, x)
  {
    var s := p + [l];
    var k, m := FirstIndex(p, x), FirstIndex(s, x);
    assert s[..k] == p[..k];
    assert s[k] == x;
    FirstIndexUnique(s, x, k);
  }

  /** Selecting after de-duplicating is the same as de-duplicating after selecting. */
  lemma {:induction false} SelectDistinct(s: seq<nat>, allowed: set<nat>)
    ensures Select(Distinct(s), allowed) == Distinct(Select(s, allowed))
  {
    if s != [] {
      var p, l := s[..|s| - 1], s[|s| - 1];
      SelectDistinct(p, allowed);
      SelectMembers(p, allowed);
      SelectAppend(Distinct(p), l, allowed);
      DistinctAppend(Select(p, allowed), l);
    }
  }

  /** Selecting twice is selecting by the smaller set. */
  lemma {:induction false} SelectSelect(s: seq<nat>, outer: set<nat>, inner: set<nat>)
    requires inner <= outer
    ensures Select(Select(s, outer), inner) == Select(s, inner)
  {
    if s != [] {
      var p, l := s[..|s| - 1], s[|s| - 1];
      SelectSelect(p, outer, inner);
      SelectAppend(Select(p, outer), l, inner);
    }
  }
}
