// Maximal runs of acceptable characters over a byte range. A grid says, for every byte, which acceptable
// character (if any) begins there; both carvers are instances.
module Runs {

  /** What begins at one byte: nothing acceptable, or a character of `width` bytes. */
  datatype Cell = Gap | Char(code: nat, width: nat)

  type Grid = seq<Cell>

  /** Characters fit, and none begins inside another: the encoding is self-synchronising. */
  ghost predicate Synchronised(g: Grid) {
    forall i :: 0 <= i < |g| && g[i].Char? ==>
      0 < g[i].width && i + g[i].width <= |g| && forall j :: i < j < i + g[i].width ==> g[j].Gap?
  }

  /** Characters fill [a, b) end to end. */
  predicate Chain(g: Grid, a: nat, b: nat)
    decreases b - a
  {
    a <= b <= |g| &&
    (a == b || (g[a].Char? && 0 < g[a].width && a + g[a].width <= b && Chain(g, a + g[a].width, b)))
  }

  /** The characters that fill [a, b). */
  function Text(g: Grid, a: nat, b: nat): seq<nat>
    requires Chain(g, a, b)
    decreases b - a
  {
    if a == b then [] else [g[a].code] + Text(g, a + g[a].width, b)
  }

  datatype Run = Run(start: nat, end: nat, text: seq<nat>)

  /** A nonempty chain that no character extends on either side. */
  ghost predicate Maximal(g: Grid, r: Run) {
    && r.start < r.end && Chain(g, r.start, r.end) && r.text == Text(g, r.start, r.end)
    && (r.end == |g| || g[r.end].Gap?)
    && (forall j :: 0 <= j < r.start && g[j].Char? ==> j + g[j].width != r.start)
  }

  /** Where the chain starting at a stops. */
  ghost function RunEnd(g: Grid, a: nat): (e: nat)
    requires Synchronised(g) && a <= |g|
    ensures Chain(g, a, e)
    ensures e == |g| || g[e].Gap?
    ensures a < |g| && g[a].Char? ==> a < e
    decreases |g| - a
  {
    if a < |g| && g[a].Char? then RunEnd(g, a + g[a].width) else a
  }

  /** The runs met from left to right, starting at byte i. */
  ghost function RunsFrom(g: Grid, i: nat): seq<Run>
    requires Synchronised(g) && i <= |g|
    decreases |g| - i
  {
    if i == |g| then []
    else if g[i].Gap? then RunsFrom(g, i + 1)
    else
      var e := RunEnd(g, i);
      [Run(i, e, Text(g, i, e))] + RunsFrom(g, e)
  }

  ghost function AllRuns(g: Grid): seq<Run>
    requires Synchronised(g)
  {
    RunsFrom(g, 0)
  }

  /** A nonempty chain is its first character and the chain after it. */
  lemma FirstLink(g: Grid, a: nat, b: nat) returns (code: nat, next: nat)
    requires Chain(g, a, b) && a < b
    ensures a < next <= b && g[a] == Char(code, next - a) && Chain(g, next, b)
    ensures Text(g, a, b) == [code] + Text(g, next, b)
  {
    code, next := g[a].code, a + g[a].width;
  }

  lemma ChainPrepend(g: Grid, a: nat, next: nat, b: nat, text: seq<nat>)
    requires text != [] && a < |g| && a < next && g[a] == Char(text[0], next - a)
    requires Chain(g, next, b) && Text(g, next, b) == text[1..]
    ensures Chain(g, a, b) && Text(g, a, b) == text
  {
    assert [text[0]] + text[1..] == text;
  }

  lemma {:induction false} ChainJoin(g: Grid, a: nat, b: nat, c: nat)
    requires Chain(g, a, b) && Chain(g, b, c)
    ensures Chain(g, a, c) && Text(g, a, c) == Text(g, a, b) + Text(g, b, c)
    decreases b - a
  {
    if a == b {
      assert [] + Text(g, b, c) == Text(g, b, c);
    } else {
      var next := a + g[a].width;
      ChainJoin(g, next, b, c);
      assert [g[a].code] + (Text(g, next, b) + Text(g, b, c)) == [g[a].code] + Text(g, next, b) + Text(g, b, c);
    }
  }

  /** Every chain from a stops at or before RunEnd(a), and RunEnd is the same from there. */
  lemma {:induction false} ChainBelowRunEnd(g: Grid, a: nat, b: nat)
    requires Synchronised(g) && Chain(g, a, b)
    ensures b <= RunEnd(g, b) == RunEnd(g, a)
    decreases b - a
  {
    if a < b {
      ChainBelowRunEnd(g, a + g[a].width, b);
    }
  }

  /** A character that begins inside a chain is a link of that chain. */
  lemma {:induction false} CharIsLink(g: Grid, a: nat, b: nat, c: nat)
    requires Synchronised(g) && Chain(g, a, b) && a <= c < b && g[c].Char?
    ensures Chain(g, a, c) && Chain(g, c, b)
    decreases b - a
  {
    if a < c {
      assert a + g[a].width <= c;
      CharIsLink(g, a + g[a].width, b, c);
    }
  }

  /** A nonempty chain has a last character, which ends where the chain ends. */
  lemma {:induction false} LastLink(g: Grid, a: nat, b: nat) returns (j: nat)
    requires Chain(g, a, b) && a < b
    ensures a <= j < b && g[j].Char? && j + g[j].width == b
    decreases b - a
  {
    var next := a + g[a].width;
    if next == b {
      j := a;
    } else {
      j := LastLink(g, next, b);
    }
  }

  /** No character reaches across byte i, and none that starts at i continues an earlier one. */
  ghost predicate Fresh(g: Grid, i: nat) {
    && i <= |g|
    && (forall j :: 0 <= j < i && g[j].Char? ==> j + g[j].width <= i)
    && (i < |g| && g[i].Char? ==> forall j :: 0 <= j < i && g[j].Char? ==> j + g[j].width != i)
  }

  lemma FreshAfterGap(g: Grid, i: nat)
    requires Synchronised(g) && Fresh(g, i) && i < |g| && g[i].Gap?
    ensures Fresh(g, i + 1)
  {
    forall j | 0 <= j < i && g[j].Char? ensures j + g[j].width < i + 1 {}
  }

  lemma FreshAfterRun(g: Grid, i: nat)
    requires Synchronised(g) && Fresh(g, i) && i < |g| && g[i].Char?
    ensures Fresh(g, RunEnd(g, i))
  {
    var e := RunEnd(g, i);
    forall j | 0 <= j < e && g[j].Char? ensures j + g[j].width <= e {
      if i <= j {
        CharIsLink(g, i, e, j);
        assert Chain(g, j, e);
      }
    }
  }

  /** A maximal run that starts inside the run at i is that run. */
  lemma NoOtherRunWithin(g: Grid, i: nat, r: Run)
    requires Synchronised(g) && i < |g| && g[i].Char? && Maximal(g, r) && i <= r.start < RunEnd(g, i)
    ensures r == Run(i, RunEnd(g, i), Text(g, i, RunEnd(g, i)))
  {
    CharIsLink(g, i, RunEnd(g, i), r.start);
    if i < r.start {
      var j := LastLink(g, i, r.start);
      assert false;
    }
    ChainBelowRunEnd(g, i, r.end);
  }

  /** From a fresh byte the scan yields exactly the maximal runs that start there or later, in order, apart. */
  lemma {:induction false} RunsFromAreMaximal(g: Grid, i: nat)
    requires Synchronised(g) && Fresh(g, i)
    ensures forall r :: r in RunsFrom(g, i) <==> i <= r.start && Maximal(g, r)
    ensures forall k, l :: 0 <= k < l < |RunsFrom(g, i)| ==> RunsFrom(g, i)[k].end < RunsFrom(g, i)[l].start
    decreases |g| - i
  {
    if i < |g| && g[i].Gap? {
      FreshAfterGap(g, i);
      RunsFromAreMaximal(g, i + 1);
    } else if i < |g| {
      var e := RunEnd(g, i);
      var first, rest := Run(i, e, Text(g, i, e)), RunsFrom(g, e);
      FreshAfterRun(g, i);
      RunsFromAreMaximal(g, e);
      assert Maximal(g, first);
      forall r | Maximal(g, r) && i <= r.start < e ensures r == first {
        NoOtherRunWithin(g, i, r);
      }
      forall r | r in rest ensures e < r.start {
        assert g[r.start].Char?;
      }
    }
  }

  /** The scan's runs are exactly the maximal ones. */
  lemma AllRunsAreMaximal(g: Grid)
    requires Synchronised(g)
    ensures forall r :: r in AllRuns(g) <==> Maximal(g, r)
    ensures forall k, l :: 0 <= k < l < |AllRuns(g)| ==> AllRuns(g)[k].end < AllRuns(g)[l].start
  {
    RunsFromAreMaximal(g, 0);
  }

  /** The run around a nonempty chain. */
  lemma {:induction false} RunAround(g: Grid, i: nat, a: nat, b: nat) returns (r: Run)
    requires Synchronised(g) && Fresh(g, i) && i <= a < b && Chain(g, a, b)
    ensures r in RunsFrom(g, i) && r.start <= a && b <= r.end
    ensures Chain(g, r.start, a) && Chain(g, b, r.end) && Chain(g, r.start, r.end)
    ensures r.text == Text(g, r.start, a) + Text(g, a, b) + Text(g, b, r.end)
    decreases |g| - i
  {
    if g[i].Gap? {
      FreshAfterGap(g, i);
      r := RunAround(g, i + 1, a, b);
    } else {
      var e := RunEnd(g, i);
      if a < e {
        r := Run(i, e, Text(g, i, e));
        CharIsLink(g, i, e, a);
        ChainBelowRunEnd(g, a, b);
        ChainBelowRunEnd(g, i, a);
        ChainJoin(g, i, a, b);
        ChainJoin(g, i, b, e);
      } else {
        FreshAfterRun(g, i);
        r := RunAround(g, e, a, b);
      }
    }
  }

  /** Completeness: a nonempty chain lies inside exactly one run, and its characters are part of that run's. */
  lemma ChainInsideOneRun(g: Grid, a: nat, b: nat) returns (r: Run)
    requires Synchronised(g) && a < b && Chain(g, a, b)
    ensures r in AllRuns(g) && r.start <= a && b <= r.end
    ensures |Text(g, a, b)| <= |r.text|
    ensures forall q :: q in AllRuns(g) && q.start <= a && b <= q.end ==> q == r
    ensures exists before, after :: r.text == before + Text(g, a, b) + after
  {
    r := RunAround(g, 0, a, b);
    var before, after := Text(g, r.start, a), Text(g, b, r.end);
    assert r.text == before + Text(g, a, b) + after;
    RunsAreApart(g, r, a);
  }

  /** Runs share no byte. */
  lemma RunsAreApart(g: Grid, r: Run, a: nat)
    requires Synchronised(g) && r in AllRuns(g) && r.start <= a < r.end
    ensures forall q :: q in AllRuns(g) && q.start <= a < q.end ==> q == r
  {
    AllRunsAreMaximal(g);
    var runs := AllRuns(g);
    var k :| 0 <= k < |runs| && runs[k] == r;
    forall q | q in runs && q.start <= a < q.end ensures q == r {
      var l :| 0 <= l < |runs| && runs[l] == q;
    }
  }

  /** A carved string: where it begins and its characters. */
  datatype Found = Found(offset: nat, value: seq<nat>)

  /** The runs with at least `minimum` characters, as carved strings. */
  function AtLeast(runs: seq<Run>, minimum: int): seq<Found> {
    if runs == [] then []
    else if |runs[0].text| >= minimum then [Found(runs[0].start, runs[0].text)] + AtLeast(runs[1..], minimum)
    else AtLeast(runs[1..], minimum)
  }

  lemma AtLeastCons(r: Run, rest: seq<Run>, minimum: int)
    ensures AtLeast([r] + rest, minimum)
         == if |r.text| >= minimum then [Found(r.start, r.text)] + AtLeast(rest, minimum) else AtLeast(rest, minimum)
  {
    assert ([r] + rest)[1..] == rest;
  }

  /** A chain that stops at a gap or at the end is the next run the scan meets. */
  lemma ScanMeetsRun(g: Grid, i: nat, e: nat, minimum: int)
    requires Synchronised(g) && i < e && Chain(g, i, e) && (e == |g| || g[e].Gap?)
    ensures RunEnd(g, i) == e
    ensures AtLeast(RunsFrom(g, i), minimum)
         == (if |Text(g, i, e)| >= minimum then [Found(i, Text(g, i, e))] else [])
            + AtLeast(RunsFrom(g, if e == |g| then e else e + 1), minimum)
  {
    ChainBelowRunEnd(g, i, e);
    AtLeastCons(Run(i, e, Text(g, i, e)), RunsFrom(g, e), minimum);
  }

  lemma ScanMeetsText(g: Grid, i: nat, e: nat, text: seq<nat>, minimum: int)
    requires Synchronised(g) && i < e && Chain(g, i, e) && (e == |g| || g[e].Gap?)
    requires text == Text(g, i, e) && |text| >= minimum
    ensures AtLeast(RunsFrom(g, i), minimum)
         == [Found(i, text)] + AtLeast(RunsFrom(g, if e == |g| then e else e + 1), minimum)
  {
    ScanMeetsRun(g, i, e, minimum);
  }

  lemma {:induction false} GapsAreSkipped(g: Grid, i: nat, j: nat)
    requires Synchronised(g) && i <= j <= |g| && (forall k :: i <= k < j ==> g[k].Gap?)
    ensures RunsFrom(g, i) == RunsFrom(g, j)
    decreases j - i
  {
    if i < j {
      GapsAreSkipped(g, i + 1, j);
    }
  }

  /** A run that is too short can be given up one byte at a time. */
  lemma ShortRunIsSkipped(g: Grid, i: nat, minimum: int)
    requires Synchronised(g) && i < |g| && g[i].Char? && |Text(g, i, RunEnd(g, i))| < minimum
    ensures AtLeast(RunsFrom(g, i), minimum) == AtLeast(RunsFrom(g, i + 1), minimum)
  {
    var e, next := RunEnd(g, i), i + g[i].width;
    GapsAreSkipped(g, i + 1, next);
    AtLeastCons(Run(i, e, Text(g, i, e)), RunsFrom(g, e), minimum);
    if next < |g| && g[next].Char? {
      AtLeastCons(Run(next, e, Text(g, next, e)), RunsFrom(g, e), minimum);
    }
  }

  /** The carved strings with at least `minimum` characters. */
  function LongEnough(found: seq<Found>, minimum: int): seq<Found> {
    if found == [] then []
    else if |found[0].value| >= minimum then [found[0]] + LongEnough(found[1..], minimum)
    else LongEnough(found[1..], minimum)
  }

  lemma {:induction false} AtLeastMembers(runs: seq<Run>, minimum: int)
    ensures forall f :: f in AtLeast(runs, minimum)
                   <==> exists r :: r in runs && |r.text| >= minimum && f == Found(r.start, r.text)
  {
    if runs != [] {
      AtLeastMembers(runs[1..], minimum);
    }
  }

  predicate OffsetsAscend(found: seq<Found>) {
    forall k, l :: 0 <= k < l < |found| ==> found[k].offset < found[l].offset
  }

  /** Carving keeps the order of the runs. */
  lemma {:induction false} AtLeastInOrder(runs: seq<Run>, minimum: int)
    requires forall k, l :: 0 <= k < l < |runs| ==> runs[k].start < runs[l].start
    ensures OffsetsAscend(AtLeast(runs, minimum))
  {
    if runs != [] {
      AtLeastInOrder(runs[1..], minimum);
      AtLeastMembers(runs[1..], minimum);
      var rest := AtLeast(runs[1..], minimum);
      forall k | 0 <= k < |rest| ensures runs[0].start < rest[k].offset {
        assert rest[k] in rest;
      }
    }
  }

  lemma {:induction false} AllTooShort(runs: seq<Run>, minimum: int)
    requires forall k :: 0 <= k < |runs| ==> |runs[k].text| < minimum
    ensures AtLeast(runs, minimum) == []
  {
    if runs != [] {
      AllTooShort(runs[1..], minimum);
    }
  }

  /** Raising the minimum only filters. */
  lemma {:induction false} RaisingFilters(runs: seq<Run>, low: int, high: int)
    requires low <= high
    ensures AtLeast(runs, high) == LongEnough(AtLeast(runs, low), high)
  {
    if runs != [] {
      RaisingFilters(runs[1..], low, high);
    }
  }

  /** The run behind a carved string. */
  lemma FoundRun(g: Grid, minimum: int, f: Found) returns (r: Run)
    requires Synchronised(g) && f in AtLeast(AllRuns(g), minimum)
    ensures Maximal(g, r) && |r.text| >= minimum && f == Found(r.start, r.text)
  {
    AtLeastMembers(AllRuns(g), minimum);
    AllRunsAreMaximal(g);
    r :| r in AllRuns(g) && |r.text| >= minimum && f == Found(r.start, r.text);
  }

  /**
   * What carving means, whichever encoding the grid stands for: the strings reported are exactly the
   * maximal runs of at least `minimum` characters, each once, from left to right.
   */
  lemma CarvedAreMaximalRuns(g: Grid, minimum: int)
    requires Synchronised(g)
    ensures forall f :: f in AtLeast(AllRuns(g), minimum)
                   <==> exists r :: Maximal(g, r) && |r.text| >= minimum && f == Found(r.start, r.text)
    ensures OffsetsAscend(AtLeast(AllRuns(g), minimum))
  {
    AllRunsAreMaximal(g);
    AtLeastMembers(AllRuns(g), minimum);
    var runs := AllRuns(g);
    forall k, l | 0 <= k < l < |runs| ensures runs[k].start < runs[l].start {
      assert runs[k] in runs && runs[k].end < runs[l].start;
    }
    AtLeastInOrder(runs, minimum);
  }
}
