// Beyond a certain depth more depth changes nothing, on any cyclic graph; and the bound is exact.
module Saturation {
  import opened Records
  import opened Expansion

  /** The identities a raw value links to. */
  function RawLinks(raw: Raw): set<Identity>
    decreases raw
  {
    match raw
    case RawLink(target) => {target}
    case RawItems(_, items) => RawLinksOfAll(items)
    case RawDict(_, values) => RawLinksOfAll(values)
    case _ => {}
  }

  function RawLinksOfAll(raws: seq<Raw>): set<Identity>
    decreases raws
  {
    if raws == [] then {} else RawLinks(raws[0]) + RawLinksOfAll(raws[1..])
  }

  function Links(v: Value): set<Identity>
    decreases v
  {
    match v
    case Link(target) => {target}
    case Items(_, items) => LinksOfAll(items)
    case Dict(_, values) => LinksOfAll(values)
    case _ => {}
  }

  function LinksOfAll(vs: seq<Value>): set<Identity>
    decreases vs
  {
    if vs == [] then {} else Links(vs[0]) + LinksOfAll(vs[1..])
  }

  function FieldLinks(fields: seq<Entry>): set<Identity> {
    if fields == [] then {} else RawLinks(fields[0].value) + FieldLinks(fields[1..])
  }

  /** Converting a value keeps its links. */
  lemma {:induction false} ConvertKeepsLinks(native: Native, raw: Raw)
    ensures var r := Convert(native, raw); r.Ok? ==> Links(r.value) == RawLinks(raw)
    decreases raw
  {
    match raw
    case RawItems(_, items) => ConvertAllKeepsLinks(native, items);
    case RawDict(_, values) => ConvertAllKeepsLinks(native, values);
    case _ =>
  }

  lemma {:induction false} ConvertAllKeepsLinks(native: Native, raws: seq<Raw>)
    ensures var r := ConvertAll(native, raws); r.Ok? ==> LinksOfAll(r.value) == RawLinksOfAll(raws)
    decreases raws
  {
    if raws != [] {
      ConvertKeepsLinks(native, raws[0]);
      ConvertAllKeepsLinks(native, raws[1..]);
      var first, rest := Convert(native, raws[0]), ConvertAll(native, raws[1..]);
      if first.Ok? && rest.Ok? {
        assert ([first.value] + rest.value)[1..] == rest.value;
      }
    }
  }

  /** The identities a readable record links to. */
  function LinksFrom(native: Native, id: Identity): set<Identity>
    requires id in native.rows
  {
    FieldLinks(Fields(native.rows[id]))
  }

  function Elements(chain: seq<Identity>): set<Identity> {
    set id | id in chain
  }

  /** Distinct readable records, each linking to the next. */
  ghost predicate LinkChain(native: Native, chain: seq<Identity>) {
    && chain != []
    && (forall i :: 0 <= i < |chain| ==> chain[i] in native.rows)
    && (forall i, j :: 0 <= i < j < |chain| ==> chain[i] != chain[j])
    && (forall i :: 0 <= i < |chain| - 1 ==> chain[i + 1] in LinksFrom(native, chain[i]))
  }

  /** The last record of the chain links to `target`, which is not on the chain, readable or not. */
  ghost predicate LeadsOn(native: Native, chain: seq<Identity>, target: Identity)
    requires LinkChain(native, chain)
  {
    target in LinksFrom(native, chain[|chain| - 1]) && target !in chain
  }

  /** A chain of n records from the root whose last record links outside it. */
  ghost predicate OpenChain(native: Native, root: Identity, n: nat, chain: seq<Identity>) {
    LinkChain(native, chain) && |chain| == n && chain[0] == root && exists t :: LeadsOn(native, chain, t)
  }

  ghost predicate HasOpenChain(native: Native, root: Identity, n: nat) {
    exists chain :: OpenChain(native, root, n, chain)
  }

  lemma ElementsAppend(chain: seq<Identity>, id: Identity)
    ensures Elements(chain + [id]) == Elements(chain) + {id}
  {}

  lemma ChainAppend(native: Native, chain: seq<Identity>, id: Identity)
    requires LinkChain(native, chain) && LeadsOn(native, chain, id) && id in native.rows
    ensures LinkChain(native, chain + [id])
  {
    var longer := chain + [id];
    forall i | 0 <= i < |longer| - 1 ensures longer[i] in native.rows && longer[i + 1] in LinksFrom(native, longer[i]) {
      assert longer[i] == chain[i];
      assert i + 1 < |chain| ==> longer[i + 1] == chain[i + 1];
    }
  }

  // ---- Two depths that differ leave an open chain behind

  /** A link that comes out differently leads to no ancestor, and with depth left to a readable record. */
  lemma LinkDiffersMeans(native: Native, target: Identity, d: nat, e: nat, path: set<Identity>)
    requires d < e && (target in path ==> target in native.rows)
    requires PlainOf(native, Link(target), true, d, path) != PlainOf(native, Link(target), true, e, path)
    ensures target !in path
    ensures d > 0 ==> target in native.rows
                      && RecordOf(native, target, true, d - 1, path) != RecordOf(native, target, true, e - 1, path)
  {}

  lemma {:induction false} PlainDiffers(native: Native, v: Value, d: nat, e: nat, chain: seq<Identity>)
      returns (longer: seq<Identity>)
    requires d < e && LinkChain(native, chain) && Links(v) <= LinksFrom(native, chain[|chain| - 1])
    requires PlainOf(native, v, true, d, Elements(chain)) != PlainOf(native, v, true, e, Elements(chain))
    ensures OpenChain(native, chain[0], |chain| + d, longer)
    decreases d, 1, v
  {
    match v
    case Link(target) =>
      longer := LinkDiffers(native, target, d, e, chain);
    case Items(_, items) => longer := ItemsDiffer(native, items, d, e, chain);
    case Dict(_, values) => longer := ItemsDiffer(native, values, d, e, chain);
  }

  lemma {:induction false} LinkDiffers(native: Native, target: Identity, d: nat, e: nat, chain: seq<Identity>)
      returns (longer: seq<Identity>)
    requires d < e && LinkChain(native, chain) && target in LinksFrom(native, chain[|chain| - 1])
    requires PlainOf(native, Link(target), true, d, Elements(chain))
          != PlainOf(native, Link(target), true, e, Elements(chain))
    ensures OpenChain(native, chain[0], |chain| + d, longer)
    decreases d, 0
  {
    LinkDiffersMeans(native, target, d, e, Elements(chain));
    assert LeadsOn(native, chain, target);
    if d == 0 {
      longer := chain;
    } else {
      ChainAppend(native, chain, target);
      longer := RecordDiffers(native, target, d - 1, e - 1, chain);
    }
  }

  lemma {:induction false} ItemsDiffer(native: Native, items: seq<Value>, d: nat, e: nat, chain: seq<Identity>)
      returns (longer: seq<Identity>)
    requires d < e && LinkChain(native, chain) && LinksOfAll(items) <= LinksFrom(native, chain[|chain| - 1])
    requires ItemsOf(native, items, true, d, Elements(chain)) != ItemsOf(native, items, true, e, Elements(chain))
    ensures OpenChain(native, chain[0], |chain| + d, longer)
    decreases d, 1, items
  {
    if PlainOf(native, items[0], true, d, Elements(chain)) != PlainOf(native, items[0], true, e, Elements(chain)) {
      longer := PlainDiffers(native, items[0], d, e, chain);
    } else {
      longer := ItemsDiffer(native, items[1..], d, e, chain);
    }
  }

  lemma {:induction false} FieldsDiffer(native: Native, fields: seq<Entry>, d: nat, e: nat, chain: seq<Identity>)
      returns (longer: seq<Identity>)
    requires d < e && LinkChain(native, chain) && FieldLinks(fields) <= LinksFrom(native, chain[|chain| - 1])
    requires FieldsOf(native, fields, true, d, Elements(chain)) != FieldsOf(native, fields, true, e, Elements(chain))
    ensures OpenChain(native, chain[0], |chain| + d, longer)
    decreases d, 2, |fields|
  {
    ConvertKeepsLinks(native, fields[0].value);
    var v := Convert(native, fields[0].value).value;
    if PlainOf(native, v, true, d, Elements(chain)) != PlainOf(native, v, true, e, Elements(chain)) {
      longer := PlainDiffers(native, v, d, e, chain);
    } else {
      longer := FieldsDiffer(native, fields[1..], d, e, chain);
    }
  }

  /** The record `id`, reached along `chain`. */
  lemma {:induction false} RecordDiffers(native: Native, id: Identity, d: nat, e: nat, chain: seq<Identity>)
      returns (longer: seq<Identity>)
    requires d < e && id in native.rows && LinkChain(native, chain + [id])
    requires RecordOf(native, id, true, d, Elements(chain)) != RecordOf(native, id, true, e, Elements(chain))
    ensures OpenChain(native, (chain + [id])[0], |chain| + 1 + d, longer)
    decreases d, 3
  {
    ElementsAppend(chain, id);
    longer := FieldsDiffer(native, Fields(native.rows[id]), d, e, chain + [id]);
  }

  // ---- An open chain makes two depths differ

  /** Values that come out alike at two depths have links that come out alike. */
  lemma {:induction false} EqualLinks(native: Native, v: Value, d: nat, e: nat, path: set<Identity>, t: Identity)
    requires PlainOf(native, v, true, d, path).Ok?
    requires PlainOf(native, v, true, d, path) == PlainOf(native, v, true, e, path) && t in Links(v)
    ensures PlainOf(native, Link(t), true, d, path).Ok?
    ensures PlainOf(native, Link(t), true, d, path) == PlainOf(native, Link(t), true, e, path)
    decreases v
  {
    match v
    case Link(_) =>
    case Items(_, items) => EqualLinksInside(native, items, d, e, path, t);
    case Dict(_, values) => EqualLinksInside(native, values, d, e, path, t);
  }

  lemma {:induction false} EqualLinksInside(native: Native, items: seq<Value>, d: nat, e: nat, path: set<Identity>,
                                            t: Identity)
    requires ItemsOf(native, items, true, d, path).Ok?
    requires ItemsOf(native, items, true, d, path) == ItemsOf(native, items, true, e, path) && t in LinksOfAll(items)
    ensures PlainOf(native, Link(t), true, d, path).Ok?
    ensures PlainOf(native, Link(t), true, d, path) == PlainOf(native, Link(t), true, e, path)
    decreases items
  {
    ItemsPointwise(native, items, true, d, path);
    ItemsPointwise(native, items, true, e, path);
    var k := LinkPosition(items, t);
    EqualLinks(native, items[k], d, e, path, t);
  }

  lemma {:induction false} LinkPosition(items: seq<Value>, t: Identity) returns (k: nat)
    requires t in LinksOfAll(items)
    ensures k < |items| && t in Links(items[k])
  {
    if t in Links(items[0]) {
      k := 0;
    } else {
      k := LinkPosition(items[1..], t);
      k := k + 1;
    }
  }

  lemma {:induction false} FieldLinkPosition(fields: seq<Entry>, t: Identity) returns (k: nat)
    requires t in FieldLinks(fields)
    ensures k < |fields| && t in RawLinks(fields[k].value)
  {
    if t in RawLinks(fields[0].value) {
      k := 0;
    } else {
      k := FieldLinkPosition(fields[1..], t);
      k := k + 1;
    }
  }

  lemma EqualFieldLinks(native: Native, fields: seq<Entry>, d: nat, e: nat, path: set<Identity>, t: Identity)
    requires FieldsOf(native, fields, true, d, path).Ok?
    requires FieldsOf(native, fields, true, d, path) == FieldsOf(native, fields, true, e, path)
    requires t in FieldLinks(fields)
    ensures PlainOf(native, Link(t), true, d, path).Ok?
    ensures PlainOf(native, Link(t), true, d, path) == PlainOf(native, Link(t), true, e, path)
  {
    FieldsPointwise(native, fields, true, d, path);
    FieldsPointwise(native, fields, true, e, path);
    var k := FieldLinkPosition(fields, t);
    ConvertKeepsLinks(native, fields[k].value);
    EqualLinks(native, Convert(native, fields[k].value).value, d, e, path, t);
  }

  lemma EqualRecordLinks(native: Native, id: Identity, d: nat, e: nat, path: set<Identity>, t: Identity)
    requires id in native.rows && id !in path && t in LinksFrom(native, id)
    requires RecordOf(native, id, true, d, path).Ok?
    requires RecordOf(native, id, true, d, path) == RecordOf(native, id, true, e, path)
    ensures PlainOf(native, Link(t), true, d, path + {id}).Ok?
    ensures PlainOf(native, Link(t), true, d, path + {id}) == PlainOf(native, Link(t), true, e, path + {id})
  {
    EqualFieldLinks(native, Fields(native.rows[id]), d, e, path + {id}, t);
  }

  /** A spent depth leaves a $ref, any other depth an expansion or an error, so the two differ. */
  lemma SpentDepthDiffers(native: Native, t: Identity, e: nat, path: set<Identity>)
    requires t !in path && e > 0 && PlainOf(native, Link(t), true, 0, path).Ok?
    ensures PlainOf(native, Link(t), true, 0, path) != PlainOf(native, Link(t), true, e, path)
  {}

  lemma FollowedLink(native: Native, t: Identity, d: nat, path: set<Identity>)
    requires t in native.rows
    ensures PlainOf(native, Link(t), true, d + 1, path) == RecordOf(native, t, true, d, path)
  {}

  /** The two outcomes of a record exist and are equal. */
  ghost predicate SameOutput(native: Native, id: Identity, d: nat, e: nat, path: set<Identity>)
    requires id in native.rows
  {
    && RecordOf(native, id, true, d, path).Ok?
    && RecordOf(native, id, true, d, path) == RecordOf(native, id, true, e, path)
  }

  /** What differs behind a link differs before it. */
  lemma DiffersBeforeLink(native: Native, id: Identity, next: Identity, d: nat, e: nat, path: set<Identity>)
    requires id in native.rows && id !in path && next in LinksFrom(native, id) && next in native.rows
    requires d > 0 && e > 0 && !SameOutput(native, next, d - 1, e - 1, path + {id})
    ensures !SameOutput(native, id, d, e, path)
  {
    FollowedLink(native, next, d - 1, path + {id});
    FollowedLink(native, next, e - 1, path + {id});
    if SameOutput(native, id, d, e, path) {
      EqualRecordLinks(native, id, d, e, path, next);
    }
  }

  /** A record with a link out of its ancestors shows whether the depth was spent. */
  lemma SpentAtEnd(native: Native, id: Identity, t: Identity, e: nat, path: set<Identity>)
    requires id in native.rows && id !in path && t in LinksFrom(native, id) && t !in path + {id} && e > 0
    ensures !SameOutput(native, id, 0, e, path)
  {
    if SameOutput(native, id, 0, e, path) {
      EqualRecordLinks(native, id, 0, e, path, t);
      SpentDepthDiffers(native, t, e, path + {id});
    }
  }

  /** Nothing on the chain, nor what it leads on to, is in `path`. */
  ghost predicate Outside(path: set<Identity>, chain: seq<Identity>, t: Identity) {
    t !in path && forall id :: id in chain ==> id !in path
  }

  lemma ChainRest(native: Native, chain: seq<Identity>, path: set<Identity>, t: Identity)
    requires LinkChain(native, chain) && LeadsOn(native, chain, t) && |chain| > 1 && Outside(path, chain, t)
    ensures LinkChain(native, chain[1..]) && LeadsOn(native, chain[1..], t)
    ensures chain[1..][0] in LinksFrom(native, chain[0]) && chain[0] !in chain[1..]
    ensures Outside(path + {chain[0]}, chain[1..], t)
  {
    var rest := chain[1..];
    assert forall i :: 0 <= i < |rest| ==> rest[i] == chain[i + 1];
    assert chain[0 + 1] in LinksFrom(native, chain[0]);
  }

  /** Along an open chain the outputs cannot stay equal: at its end one depth is spent and the other is not. */
  lemma {:induction false} OpenChainDiffers(native: Native, chain: seq<Identity>, path: set<Identity>,
                                            d: nat, e: nat, t: Identity)
    requires LinkChain(native, chain) && LeadsOn(native, chain, t) && |chain| == d + 1 && d < e
    requires Outside(path, chain, t)
    ensures !SameOutput(native, chain[0], d, e, path)
    decreases d
  {
    if d == 0 {
      SpentAtEnd(native, chain[0], t, e, path);
    } else {
      ChainRest(native, chain, path, t);
      var rest := chain[1..];
      OpenChainDiffers(native, rest, path + {chain[0]}, d - 1, e - 1, t);
      DiffersBeforeLink(native, chain[0], rest[0], d, e, path);
    }
  }

  /**
   * Which depths matter, exactly: unless both end in errors, depth d and a greater one differ precisely when
   * some chain of d + 1 distinct readable records starts at the root and its last record links outside the
   * chain. Two errors can only differ if there is such a chain.
   */
  lemma DepthMattersExactlyWhen(native: Native, root: Identity, d: nat, e: nat)
    requires root in native.rows && d < e
    ensures ToDict(native, root, true, d) != ToDict(native, root, true, e) ==> HasOpenChain(native, root, d + 1)
    ensures (ToDict(native, root, true, d).Ok? || ToDict(native, root, true, e).Ok?)
            && HasOpenChain(native, root, d + 1)
            ==> ToDict(native, root, true, d) != ToDict(native, root, true, e)
  {
    assert Elements([]) == {};
    if ToDict(native, root, true, d) != ToDict(native, root, true, e) {
      assert [] + [root] == [root];
      var chain := RecordDiffers(native, root, d, e, []);
    } else if ToDict(native, root, true, d).Ok? && HasOpenChain(native, root, d + 1) {
      var chain :| OpenChain(native, root, d + 1, chain);
      var t :| LeadsOn(native, chain, t);
      OpenChainDiffers(native, chain, {}, d, e, t);
      assert false;
    }
  }

  // ---- Enough depth

  /** `ids` holds every identity the records in it link to, readable or not. */
  ghost predicate ClosedUnderLinks(native: Native, ids: set<Identity>) {
    forall id :: id in ids && id in native.rows ==> LinksFrom(native, id) <= ids
  }

  /** The records in `ids` that can be read. */
  function ReadableIn(native: Native, ids: set<Identity>): set<Identity> {
    ids * native.rows.Keys
  }

  /** No readable record in `ids` links to an unreadable one. */
  ghost predicate NothingDangles(native: Native, ids: set<Identity>) {
    forall id :: id in ids && id in native.rows ==> LinksFrom(native, id) <= native.rows.Keys
  }

  lemma {:induction false} SubsetSize<T>(a: set<T>, b: set<T>)
    requires a <= b
    ensures |a| <= |b| && (|a| == |b| ==> a == b)
    decreases |b|
  {
    if a != {} {
      var x :| x in a;
      SubsetSize(a - {x}, b - {x});
      assert a == (a - {x}) + {x} && b == (b - {x}) + {x};
    }
  }

  lemma {:induction false} DistinctCount(chain: seq<Identity>)
    requires forall i, j :: 0 <= i < j < |chain| ==> chain[i] != chain[j]
    ensures |Elements(chain)| == |chain|
  {
    if chain != [] {
      var init, last := chain[..|chain| - 1], chain[|chain| - 1];
      DistinctCount(init);
      ElementsAppend(init, last);
      assert chain == init + [last];
    }
  }

  /** A chain that starts inside a closed set visits only readable records of it, each once. */
  lemma ChainStaysInside(native: Native, ids: set<Identity>, chain: seq<Identity>)
    requires ClosedUnderLinks(native, ids) && LinkChain(native, chain) && chain[0] in ids
    ensures Elements(chain) <= ReadableIn(native, ids)
    ensures |chain| <= |ReadableIn(native, ids)|
    ensures |chain| == |ReadableIn(native, ids)| ==> Elements(chain) == ReadableIn(native, ids)
  {
    forall i | 0 <= i < |chain| ensures chain[i] in ids {
      LinkInside(native, ids, chain, i);
    }
    DistinctCount(chain);
    SubsetSize(Elements(chain), ReadableIn(native, ids));
  }

  lemma {:induction false} LinkInside(native: Native, ids: set<Identity>, chain: seq<Identity>, i: nat)
    requires ClosedUnderLinks(native, ids) && LinkChain(native, chain) && chain[0] in ids && i < |chain|
    ensures chain[i] in ids
  {
    if i > 0 {
      LinkInside(native, ids, chain, i - 1);
      assert chain[i - 1 + 1] in LinksFrom(native, chain[i - 1]);
    }
  }

  /** A chain through all readable records can only lead on to an unreadable one. */
  lemma OpenChainEndsUnreadable(native: Native, ids: set<Identity>, chain: seq<Identity>)
    requires ClosedUnderLinks(native, ids) && LinkChain(native, chain) && chain[0] in ids
    requires |chain| >= |ReadableIn(native, ids)|
    ensures Elements(chain) == ReadableIn(native, ids)
    ensures forall t :: LeadsOn(native, chain, t) <==> t in LinksFrom(native, chain[|chain| - 1]) && t !in native.rows
    ensures chain[|chain| - 1] in ids
  {
    ChainStaysInside(native, ids, chain);
    assert chain[|chain| - 1] in Elements(chain);
    assert forall t :: t in chain <==> t in Elements(chain);
  }

  /** A closed set leaves no room for an open chain longer than it, or as long when nothing in it dangles. */
  lemma NoChainSoLong(native: Native, root: Identity, ids: set<Identity>, n: nat)
    requires root in ids && ClosedUnderLinks(native, ids)
    ensures n > |ReadableIn(native, ids)| ==> !HasOpenChain(native, root, n)
    ensures n == |ReadableIn(native, ids)| && NothingDangles(native, ids) ==> !HasOpenChain(native, root, n)
  {
    forall chain | OpenChain(native, root, n, chain)
      ensures n <= |ReadableIn(native, ids)| && (NothingDangles(native, ids) ==> n < |ReadableIn(native, ids)|)
    {
      ChainStaysInside(native, ids, chain);
      if n == |ReadableIn(native, ids)| {
        OpenChainEndsUnreadable(native, ids, chain);
        var t :| LeadsOn(native, chain, t);
      }
    }
  }

  /**
   * Depth saturation: if R readable records, the root among them, and any number of unreadable ones are
   * closed under links, then all depths of at least R give the same outcome, however cyclic the graph.
   */
  lemma DepthSaturates(native: Native, root: Identity, ids: set<Identity>, d: nat, e: nat)
    requires root in native.rows && root in ids && ClosedUnderLinks(native, ids)
    requires |ReadableIn(native, ids)| <= d && |ReadableIn(native, ids)| <= e
    ensures ToDict(native, root, true, d) == ToDict(native, root, true, e)
  {
    if d > e {
      DepthSaturates(native, root, ids, e, d);
    } else if d < e {
      DepthMattersExactlyWhen(native, root, d, e);
      NoChainSoLong(native, root, ids, d + 1);
    }
  }

  /** When no link dangles, one level less is enough: all depths of at least R - 1 agree. */
  lemma DepthSaturatesSooner(native: Native, root: Identity, ids: set<Identity>, d: nat, e: nat)
    requires root in native.rows && root in ids && ClosedUnderLinks(native, ids) && NothingDangles(native, ids)
    requires |ReadableIn(native, ids)| - 1 <= d && |ReadableIn(native, ids)| - 1 <= e
    ensures ToDict(native, root, true, d) == ToDict(native, root, true, e)
  {
    if d > e {
      DepthSaturatesSooner(native, root, ids, e, d);
    } else if d < e {
      DepthMattersExactlyWhen(native, root, d, e);
      NoChainSoLong(native, root, ids, d + 1);
    }
  }

  /** A chain from the root through every readable record of `ids` whose last record has a dangling link. */
  ghost predicate CoversAndDangles(native: Native, root: Identity, ids: set<Identity>, chain: seq<Identity>) {
    && LinkChain(native, chain) && chain[0] == root && Elements(chain) == ReadableIn(native, ids)
    && !(LinksFrom(native, chain[|chain| - 1]) <= native.rows.Keys)
  }

  ghost predicate CanBeCoveredAndDangles(native: Native, root: Identity, ids: set<Identity>) {
    exists chain :: CoversAndDangles(native, root, ids, chain)
  }

  /**
   * The exact condition for depth R - 1: its output differs from the deeper ones precisely when some chain
   * of links from the root visits every readable record once and ends in one with a dangling link.
   */
  lemma OneLevelShortExactlyWhen(native: Native, root: Identity, ids: set<Identity>, d: nat, e: nat)
    requires root in native.rows && root in ids && ClosedUnderLinks(native, ids)
    requires |ReadableIn(native, ids)| == d + 1 <= e
    ensures ToDict(native, root, true, d) != ToDict(native, root, true, e)
            ==> CanBeCoveredAndDangles(native, root, ids)
    ensures (ToDict(native, root, true, d).Ok? || ToDict(native, root, true, e).Ok?)
            && CanBeCoveredAndDangles(native, root, ids)
            ==> ToDict(native, root, true, d) != ToDict(native, root, true, e)
  {
    DepthMattersExactlyWhen(native, root, d, e);
    if HasOpenChain(native, root, d + 1) {
      var chain :| OpenChain(native, root, d + 1, chain);
      OpenAtFullLength(native, root, ids, d + 1, chain);
    }
    if CanBeCoveredAndDangles(native, root, ids) {
      var chain :| CoversAndDangles(native, root, ids, chain);
      OpenAtFullLength(native, root, ids, d + 1, chain);
    }
  }

  lemma OpenAtFullLength(native: Native, root: Identity, ids: set<Identity>, n: nat, chain: seq<Identity>)
    requires root in ids && ClosedUnderLinks(native, ids) && n == |ReadableIn(native, ids)|
    ensures OpenChain(native, root, n, chain) <==> CoversAndDangles(native, root, ids, chain)
  {
    if LinkChain(native, chain) && chain[0] == root {
      DistinctCount(chain);
      if |chain| == n {
        OpenChainEndsUnreadable(native, ids, chain);
      }
    }
  }

  // ---- The bounds are exact

  function Node(i: int): Identity { Identity(0, i) }

  function ChainTail(n: nat, i: nat): seq<Entry> {
    if i + 1 < n then [Entry("next", RawLink(Node(i + 1)))] else []
  }

  /** The row of node i in a chain of n records, each linking to the next. */
  function ChainRow(n: nat, i: nat): Row {
    [Entry(TABLE_KEY, RawInt(0)), Entry(OBJECT_KEY, RawInt(i))] + ChainTail(n, i)
  }

  /** n records in one table, linked in a line. */
  function ChainOf(n: nat): Native {
    Native(map id: Identity | id in (set i: nat | i < n :: Node(i)) && 0 <= id.objectKey :: ChainRow(n, id.objectKey),
           map[0 := "chain"], _ => true)
  }

  function ChainIds(n: nat): set<Identity> {
    set i: nat | i < n :: Node(i)
  }

  lemma ChainRows(n: nat, i: nat)
    requires i < n
    ensures Node(i) in ChainOf(n).rows && ChainOf(n).rows[Node(i)] == ChainRow(n, i)
    ensures Fields(ChainRow(n, i)) == ChainTail(n, i)
    ensures RowIdentity(ChainRow(n, i)) == Ok(Node(i))
  {
    assert Node(i) in ChainIds(n);
    LookupEntry(ChainRow(n, i), 0);
    LookupEntry(ChainRow(n, i), 1);
    WithoutMetadata(Entry(TABLE_KEY, RawInt(0)), Entry(OBJECT_KEY, RawInt(i)), ChainTail(n, i));
  }

  lemma WithoutMetadata(table: Entry, key: Entry, rest: seq<Entry>)
    requires table.name == TABLE_KEY && key.name == OBJECT_KEY
    requires rest == [] || (|rest| == 1 && rest[0].name == "next")
    ensures Without(Without([table, key] + rest, TABLE_KEY), OBJECT_KEY) == rest
  {
    assert |TABLE_KEY| == 13 && |OBJECT_KEY| == 14;
    assert ([table, key] + rest)[1..] == [key] + rest;
    WithoutFirst(key, rest, TABLE_KEY);
    WithoutFirst(key, rest, OBJECT_KEY);
  }

  lemma WithoutFirst(first: Entry, rest: seq<Entry>, name: string)
    requires rest == [] || (|rest| == 1 && rest[0].name != name)
    ensures Without([first] + rest, name) == if first.name == name then rest else [first] + rest
  {
    assert ([first] + rest)[1..] == rest;
    assert Without(rest, name) == rest;
  }

  lemma FreshNode(i: nat)
    ensures Node(i) !in ChainIds(i) && ChainIds(i) + {Node(i)} == ChainIds(i + 1)
  {}

  lemma FieldsOfOne(native: Native, field: Entry, v: Value, d: nat, path: set<Identity>)
    requires Convert(native, field.value) == Ok(v)
    ensures FieldsOf(native, [field], true, d, path)
         == match PlainOf(native, v, true, d, path) case Err(e) => Err(e) case Ok(p) => Ok([p])
  {
    assert [field][1..] == [];
    assert FieldsOf(native, [], true, d, path) == Ok([]);
    assert forall p: Plain :: [p] + [] == [p];
  }

  function Wrapped(i: nat, p: Plain): Plain { Expanded(Node(i), ["next"], [p]) }

  /** At depth d the chain's node i gives p, inside the nodes before it. */
  ghost predicate Gives(n: nat, i: nat, d: nat, p: Plain) {
    Node(i) in ChainOf(n).rows && RecordOf(ChainOf(n), Node(i), true, d, ChainIds(i)) == Ok(p)
  }

  /** What node i of the chain comes to at depth d. */
  function ChainPlain(n: nat, i: nat, d: nat): Plain
    requires i < n
    decreases d
  {
    if i + 1 == n then Expanded(Node(i), [], [])
    else Wrapped(i, if d == 0 then Ref("chain", i + 1) else ChainPlain(n, i + 1, d - 1))
  }

  lemma ChainEnds(n: nat, i: nat, d: nat)
    requires i + 1 == n
    ensures Gives(n, i, d, Expanded(Node(i), [], []))
  {
    ChainRows(n, i);
    FreshNode(i);
    assert FieldsOf(ChainOf(n), [], true, d, ChainIds(n)) == Ok([]) && Names([]) == [];
  }

  lemma ChainStops(n: nat, i: nat)
    requires i + 1 < n
    ensures Gives(n, i, 0, Wrapped(i, Ref("chain", i + 1)))
  {
    ChainRows(n, i);
    FreshNode(i);
    FieldsOfOne(ChainOf(n), Entry("next", RawLink(Node(i + 1))), Link(Node(i + 1)), 0, ChainIds(i + 1));
    assert Names([Entry("next", RawLink(Node(i + 1)))]) == ["next"];
  }

  lemma ChainGoesOn(n: nat, i: nat, d: nat, inner: Plain)
    requires i + 1 < n && Gives(n, i + 1, d, inner)
    ensures Gives(n, i, d + 1, Wrapped(i, inner))
  {
    ChainRows(n, i);
    ChainRows(n, i + 1);
    FreshNode(i);
    FieldsOfOne(ChainOf(n), Entry("next", RawLink(Node(i + 1))), Link(Node(i + 1)), d + 1, ChainIds(i + 1));
    assert Names([Entry("next", RawLink(Node(i + 1)))]) == ["next"];
  }

  lemma {:induction false} ChainGives(n: nat, i: nat, d: nat)
    requires i < n
    ensures Gives(n, i, d, ChainPlain(n, i, d))
    decreases d
  {
    if i + 1 == n {
      ChainEnds(n, i, d);
    } else if d == 0 {
      ChainStops(n, i);
    } else {
      ChainGives(n, i + 1, d - 1);
      ChainGoesOn(n, i, d - 1, ChainPlain(n, i + 1, d - 1));
    }
  }

  /** With d records after the next one still to come, depths d and d + 1 give different outputs at node i. */
  lemma {:induction false} ChainNeedsEveryLevel(n: nat, i: nat, d: nat)
    requires i + 2 + d == n
    ensures ChainPlain(n, i, d) != ChainPlain(n, i, d + 1)
    decreases d
  {
    if d > 0 {
      ChainNeedsEveryLevel(n, i + 1, d - 1);
    }
    assert ChainPlain(n, i, d).values[0] != ChainPlain(n, i, d + 1).values[0];
  }

  lemma ChainIsClosed(n: nat)
    ensures ChainOf(n).Valid() && ClosedUnderLinks(ChainOf(n), ChainIds(n))
  {
    var c := ChainOf(n);
    forall id | id in c.rows
      ensures RowIdentity(c.rows[id]) == Ok(id) && FieldLinks(Fields(c.rows[id])) <= ChainIds(n)
    {
      var i: nat :| i < n && id == Node(i);
      ChainRows(n, i);
      ChainLinks(n, i);
    }
  }

  lemma ChainReadable(n: nat)
    ensures ChainOf(n).rows.Keys == ChainIds(n) && (n > 0 ==> Node(0) in ChainIds(n))
  {
    forall id ensures id in ChainOf(n).rows <==> id in ChainIds(n) {
      if id in ChainIds(n) {
        var i: nat :| i < n && id == Node(i);
        ChainRows(n, i);
      }
    }
  }

  lemma ChainLinks(n: nat, i: nat)
    requires i < n
    ensures FieldLinks(ChainTail(n, i)) <= ChainIds(n)
  {
    if i + 1 < n {
      assert Node(i + 1) in ChainIds(n);
      assert [Entry("next", RawLink(Node(i + 1)))][1..] == [];
    }
  }

  /** For every N above one some graph of N identities needs depth N - 1: no smaller bound would do. */
  lemma SaturationBoundIsExact(n: nat)
    requires n >= 2
    ensures var c := ChainOf(n);
            && c.Valid() && Node(0) in c.rows && |ChainIds(n)| == n
            && Node(0) in ChainIds(n) && ClosedUnderLinks(c, ChainIds(n)) && NothingDangles(c, ChainIds(n))
            && ReadableIn(c, ChainIds(n)) == ChainIds(n)
            && ToDict(c, Node(0), true, n - 2) != ToDict(c, Node(0), true, n - 1)
  {
    ChainIsClosed(n);
    ChainIdsCount(n);
    ChainReadable(n);
    ChainRootDiffers(n);
  }

  lemma ChainRootDiffers(n: nat)
    requires n >= 2
    ensures Node(0) in ChainOf(n).rows
    ensures ToDict(ChainOf(n), Node(0), true, n - 2) != ToDict(ChainOf(n), Node(0), true, n - 1)
  {
    ChainRows(n, 0);
    assert ChainIds(0) == {};
    ChainGives(n, 0, n - 2);
    ChainGives(n, 0, n - 1);
    ChainNeedsEveryLevel(n, 0, n - 2);
  }

  lemma {:induction false} ChainIdsCount(n: nat)
    ensures |ChainIds(n)| == n
  {
    if n > 0 {
      ChainIdsCount(n - 1);
      assert ChainIds(n) == ChainIds(n - 1) + {Node(n - 1)};
    }
  }

  /** A link target that cannot be read still counts: one readable record is not enough for depth 0 to do. */
  lemma UnreadableTargetsCount()
    ensures var c := Native(map[Node(0) := ChainRow(2, 0)], map[0 := "chain"], _ => true);
            && c.Valid()
            && ToDict(c, Node(0), true, 0) == Ok(Wrapped(0, Ref("chain", 1)))
            && ToDict(c, Node(0), true, 1) == Err(Unreadable(Node(1)))
  {
    var c := Native(map[Node(0) := ChainRow(2, 0)], map[0 := "chain"], _ => true);
    var next := Entry("next", RawLink(Node(1)));
    ChainRows(2, 0);
    assert {} + {Node(0)} == {Node(0)};
    FieldsOfOne(c, next, Link(Node(1)), 0, {Node(0)});
    assert Names([next]) == ["next"];
    assert [next][1..] == [];
  }
}
