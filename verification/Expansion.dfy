// What to_dict means: a pure expansion over the immutable set of ancestors.
module Expansion {
  import opened Records

  /** {"$ref": …}: needs the table's name, not the record. */
  function RefTo(native: Native, target: Identity): Result<Plain> {
    if target.tableKey in native.tables
    then Ok(Ref(native.tables[target.tableKey], target.objectKey))
    else Err(UnknownTable(target.tableKey))
  }

  /** A value with nothing inside it. */
  function LeafOf(v: Value): Plain
    requires !v.Link? && !v.Items? && !v.Dict?
  {
    match v
    case Timestamp(s, n) => PlainTimestamp(s, n)
    case ObjectId(text) => PlainObjectId(text)
    case Decimal(text) => PlainDecimal(text)
    case Int(n) => PlainInt(n)
    case Binary(text) => PlainBinary(text)
    case Uuid(text) => PlainUuid(text)
    case Scalar(text) => PlainScalar(text)
  }

  /** One value, `depth` link expansions to go, inside the records `path`. */
  function PlainOf(native: Native, v: Value, expand: bool, depth: nat, path: set<Identity>): Result<Plain>
    decreases depth, 0, v
  {
    match v
    case Link(target) =>
      if expand && depth > 0 then
        if target in native.rows then RecordOf(native, target, expand, depth - 1, path) else Err(Unreadable(target))
      else RefTo(native, target)
    case Items(_, items) =>
      var plain :- ItemsOf(native, items, expand, depth, path);
      Ok(PlainList(plain))
    case Dict(keys, values) =>
      var plain :- ItemsOf(native, values, expand, depth, path);
      Ok(PlainDict(keys, plain))
    case _ => Ok(LeafOf(v))
  }

  function ItemsOf(native: Native, items: seq<Value>, expand: bool, depth: nat, path: set<Identity>): Result<seq<Plain>>
    decreases depth, 0, items
  {
    if items == [] then Ok([])
    else
      var first :- PlainOf(native, items[0], expand, depth, path);
      var rest :- ItemsOf(native, items[1..], expand, depth, path);
      Ok([first] + rest)
  }

  /** The fields of one record, each converted and then expanded before the next is touched. */
  function FieldsOf(native: Native, fields: seq<Entry>, expand: bool, depth: nat, path: set<Identity>)
    : Result<seq<Plain>>
    decreases depth, 1, |fields|
  {
    if fields == [] then Ok([])
    else
      match Convert(native, fields[0].value)
      case Err(e) => Err(BadField(fields[0].name, e))
      case Ok(v) =>
        var first :- PlainOf(native, v, expand, depth, path);
        var rest :- FieldsOf(native, fields[1..], expand, depth, path);
        Ok([first] + rest)
  }

  function RecordOf(native: Native, id: Identity, expand: bool, depth: nat, path: set<Identity>): Result<Plain>
    requires id in native.rows
    decreases depth, 2
  {
    if id in path then RefTo(native, id)
    else
      var fields := Fields(native.rows[id]);
      var values :- FieldsOf(native, fields, expand, depth, path + {id});
      Ok(Expanded(id, Names(fields), values))
  }

  lemma LinkOpened(native: Native, target: Identity, expand: bool, depth: nat, path: set<Identity>)
    ensures !expand || depth == 0 ==> PlainOf(native, Link(target), expand, depth, path) == RefTo(native, target)
    ensures expand && depth > 0 && target !in native.rows
            ==> PlainOf(native, Link(target), expand, depth, path) == Err(Unreadable(target))
    ensures expand && depth > 0 && target in native.rows
            ==> PlainOf(native, Link(target), expand, depth, path)
                == RecordOf(native, target, expand, depth - 1, path)
  {}

  /** to_dict on the record `id`. */
  function ToDict(native: Native, id: Identity, expand: bool, maxDepth: nat): Result<Plain>
    requires id in native.rows
  {
    RecordOf(native, id, expand, maxDepth, {})
  }

  /** The same for any requested depth: a negative one is refused. */
  function CheckedToDict(native: Native, id: Identity, expand: bool, maxDepth: int): Result<Plain>
    requires id in native.rows
  {
    if maxDepth < 0 then Err(NegativeDepth) else ToDict(native, id, expand, maxDepth)
  }

  // ---- Fields and items one by one

  /** What one field comes to on its own. */
  function FieldOf(native: Native, field: Entry, expand: bool, depth: nat, path: set<Identity>): Result<Plain> {
    match Convert(native, field.value)
    case Err(e) => Err(BadField(field.name, e))
    case Ok(v) => PlainOf(native, v, expand, depth, path)
  }

  /** The fields succeed together exactly when each does alone; otherwise the first to fail decides the error. */
  lemma {:induction false} FieldsPointwise(native: Native, fields: seq<Entry>, expand: bool, depth: nat,
                                           path: set<Identity>)
    ensures var r := FieldsOf(native, fields, expand, depth, path);
            match r
            case Ok(values) =>
              |values| == |fields| &&
              forall k :: 0 <= k < |fields| ==> FieldOf(native, fields[k], expand, depth, path) == Ok(values[k])
            case Err(e) =>
              exists k :: 0 <= k < |fields| && FieldOf(native, fields[k], expand, depth, path) == Err(e)
                          && forall j :: 0 <= j < k ==> FieldOf(native, fields[j], expand, depth, path).Ok?
    decreases |fields|
  {
    if fields != [] {
      var rest := fields[1..];
      FieldsPointwise(native, rest, expand, depth, path);
      assert forall k :: 0 < k < |fields| ==> fields[k] == rest[k - 1];
      var one, r := FieldOf(native, fields[0], expand, depth, path), FieldsOf(native, rest, expand, depth, path);
      if one.Ok? && r.Err? {
        var k :| 0 <= k < |rest| && FieldOf(native, rest[k], expand, depth, path) == Err(r.error)
                 && forall j :: 0 <= j < k ==> FieldOf(native, rest[j], expand, depth, path).Ok?;
        assert FieldOf(native, fields[k + 1], expand, depth, path) == Err(r.error);
      }
    }
  }

  lemma {:induction false} ItemsPointwise(native: Native, items: seq<Value>, expand: bool, depth: nat,
                                          path: set<Identity>)
    ensures var r := ItemsOf(native, items, expand, depth, path);
            match r
            case Ok(values) =>
              |values| == |items| &&
              forall k :: 0 <= k < |items| ==> PlainOf(native, items[k], expand, depth, path) == Ok(values[k])
            case Err(e) =>
              exists k :: 0 <= k < |items| && PlainOf(native, items[k], expand, depth, path) == Err(e)
                          && forall j :: 0 <= j < k ==> PlainOf(native, items[j], expand, depth, path).Ok?
    decreases |items|
  {
    if items != [] {
      var rest := items[1..];
      ItemsPointwise(native, rest, expand, depth, path);
      assert forall k :: 0 < k < |items| ==> items[k] == rest[k - 1];
      var one, r := PlainOf(native, items[0], expand, depth, path), ItemsOf(native, rest, expand, depth, path);
      if one.Ok? && r.Err? {
        var k :| 0 <= k < |rest| && PlainOf(native, rest[k], expand, depth, path) == Err(r.error)
                 && forall j :: 0 <= j < k ==> PlainOf(native, rest[j], expand, depth, path).Ok?;
        assert PlainOf(native, items[k + 1], expand, depth, path) == Err(r.error);
      }
    }
  }

  // ---- No record is expanded inside its own expansion

  /** Every record expanded in p is new to `path` and to the expansions around it. */
  predicate Acyclic(p: Plain, path: set<Identity>)
    decreases p
  {
    match p
    case Expanded(id, _, values) => id !in path && AllAcyclic(values, path + {id})
    case PlainList(items) => AllAcyclic(items, path)
    case PlainDict(_, values) => AllAcyclic(values, path)
    case _ => true
  }

  predicate AllAcyclic(ps: seq<Plain>, path: set<Identity>)
    decreases ps
  {
    ps == [] || (Acyclic(ps[0], path) && AllAcyclic(ps[1..], path))
  }

  lemma AllAcyclicCons(p: Plain, ps: seq<Plain>, path: set<Identity>)
    requires Acyclic(p, path) && AllAcyclic(ps, path)
    ensures AllAcyclic([p] + ps, path)
  {
    assert ([p] + ps)[1..] == ps;
  }

  lemma {:induction false} PlainIsAcyclic(native: Native, v: Value, expand: bool, depth: nat, path: set<Identity>)
    ensures var r := PlainOf(native, v, expand, depth, path); r.Ok? ==> Acyclic(r.value, path)
    decreases depth, 0, v
  {
    match v
    case Link(target) =>
      if expand && depth > 0 && target in native.rows {
        RecordIsAcyclic(native, target, expand, depth - 1, path);
      }
    case Items(_, items) => ItemsAreAcyclic(native, items, expand, depth, path);
    case Dict(_, values) => ItemsAreAcyclic(native, values, expand, depth, path);
    case _ =>
  }

  lemma {:induction false} ItemsAreAcyclic(native: Native, items: seq<Value>, expand: bool, depth: nat,
                                           path: set<Identity>)
    ensures var r := ItemsOf(native, items, expand, depth, path); r.Ok? ==> AllAcyclic(r.value, path)
    decreases depth, 0, items
  {
    if items != [] {
      PlainIsAcyclic(native, items[0], expand, depth, path);
      ItemsAreAcyclic(native, items[1..], expand, depth, path);
      var first, rest := PlainOf(native, items[0], expand, depth, path),
                         ItemsOf(native, items[1..], expand, depth, path);
      if first.Ok? && rest.Ok? {
        AllAcyclicCons(first.value, rest.value, path);
      }
    }
  }

  lemma {:induction false} FieldsAreAcyclic(native: Native, fields: seq<Entry>, expand: bool, depth: nat,
                                            path: set<Identity>)
    ensures var r := FieldsOf(native, fields, expand, depth, path); r.Ok? ==> AllAcyclic(r.value, path)
    decreases depth, 1, |fields|
  {
    if fields != [] {
      var v := Convert(native, fields[0].value);
      if v.Ok? {
        PlainIsAcyclic(native, v.value, expand, depth, path);
        FieldsAreAcyclic(native, fields[1..], expand, depth, path);
        var first, rest := PlainOf(native, v.value, expand, depth, path),
                           FieldsOf(native, fields[1..], expand, depth, path);
        if first.Ok? && rest.Ok? {
          AllAcyclicCons(first.value, rest.value, path);
        }
      }
    }
  }

  /** However cyclic the links, no identity is expanded inside its own expansion. */
  lemma {:induction false} RecordIsAcyclic(native: Native, id: Identity, expand: bool, depth: nat, path: set<Identity>)
    requires id in native.rows
    ensures var r := RecordOf(native, id, expand, depth, path); r.Ok? ==> Acyclic(r.value, path)
    decreases depth, 2
  {
    if id !in path {
      FieldsAreAcyclic(native, Fields(native.rows[id]), expand, depth, path + {id});
    }
  }

  /** One link: a $ref when expansion is off, the depth is spent or it closes a cycle, else its record. */
  lemma LinkIsRefExactlyWhen(native: Native, target: Identity, expand: bool, depth: nat, path: set<Identity>)
    requires PlainOf(native, Link(target), expand, depth, path).Ok?
    ensures var p := PlainOf(native, Link(target), expand, depth, path).value;
            if !expand || depth == 0 || target in path
            then target.tableKey in native.tables
                 && p == Ref(native.tables[target.tableKey], target.objectKey)
            else p.Expanded? && p.id == target
  {}

  // ---- Every $ref in an output has its reason, and so has every expansion

  /** The $ref is that of some record in `path`. */
  ghost predicate NamesAncestor(native: Native, table: string, key: int, path: set<Identity>) {
    exists id :: id in path && RefTo(native, id) == Ok(Ref(table, key))
  }

  /**
   * With `depth` expansions to go inside the records `path`, at every nesting of p: a $ref stands only where
   * expansion is off, the depth is spent or an ancestor is named; a record is expanded only where none of
   * these holds, and what it contains is judged one level deeper, inside it as well.
   */
  ghost predicate Justified(native: Native, p: Plain, expand: bool, depth: nat, path: set<Identity>)
    decreases p
  {
    match p
    case Ref(table, key) => !expand || depth == 0 || NamesAncestor(native, table, key, path)
    case Expanded(id, _, values) =>
      expand && depth > 0 && id !in path && AllJustified(native, values, expand, depth - 1, path + {id})
    case PlainList(items) => AllJustified(native, items, expand, depth, path)
    case PlainDict(_, values) => AllJustified(native, values, expand, depth, path)
    case _ => true
  }

  ghost predicate AllJustified(native: Native, ps: seq<Plain>, expand: bool, depth: nat, path: set<Identity>)
    decreases ps
  {
    ps == [] || (Justified(native, ps[0], expand, depth, path) && AllJustified(native, ps[1..], expand, depth, path))
  }

  lemma AllJustifiedCons(native: Native, p: Plain, ps: seq<Plain>, expand: bool, depth: nat, path: set<Identity>)
    requires Justified(native, p, expand, depth, path) && AllJustified(native, ps, expand, depth, path)
    ensures AllJustified(native, [p] + ps, expand, depth, path)
  {
    assert ([p] + ps)[1..] == ps;
  }

  lemma {:induction false} PlainIsJustified(native: Native, v: Value, expand: bool, depth: nat, path: set<Identity>)
    ensures var r := PlainOf(native, v, expand, depth, path); r.Ok? ==> Justified(native, r.value, expand, depth, path)
    decreases depth, 0, v
  {
    match v
    case Link(target) =>
      if PlainOf(native, v, expand, depth, path).Ok? {
        LinkIsRefExactlyWhen(native, target, expand, depth, path);
        if expand && depth > 0 && target !in path {
          FieldsAreJustified(native, Fields(native.rows[target]), expand, depth - 1, path + {target});
        }
      }
    case Items(_, items) => ItemsAreJustified(native, items, expand, depth, path);
    case Dict(_, values) => ItemsAreJustified(native, values, expand, depth, path);
    case _ =>
  }

  lemma {:induction false} ItemsAreJustified(native: Native, items: seq<Value>, expand: bool, depth: nat,
                                             path: set<Identity>)
    ensures var r := ItemsOf(native, items, expand, depth, path);
            r.Ok? ==> AllJustified(native, r.value, expand, depth, path)
    decreases depth, 0, items
  {
    if items != [] {
      PlainIsJustified(native, items[0], expand, depth, path);
      ItemsAreJustified(native, items[1..], expand, depth, path);
      var first, rest := PlainOf(native, items[0], expand, depth, path),
                         ItemsOf(native, items[1..], expand, depth, path);
      if first.Ok? && rest.Ok? {
        AllJustifiedCons(native, first.value, rest.value, expand, depth, path);
      }
    }
  }

  lemma {:induction false} FieldsAreJustified(native: Native, fields: seq<Entry>, expand: bool, depth: nat,
                                              path: set<Identity>)
    ensures var r := FieldsOf(native, fields, expand, depth, path);
            r.Ok? ==> AllJustified(native, r.value, expand, depth, path)
    decreases depth, 1, |fields|
  {
    if fields != [] {
      var v := Convert(native, fields[0].value);
      if v.Ok? {
        PlainIsJustified(native, v.value, expand, depth, path);
        FieldsAreJustified(native, fields[1..], expand, depth, path);
        var first, rest := PlainOf(native, v.value, expand, depth, path),
                           FieldsOf(native, fields[1..], expand, depth, path);
        if first.Ok? && rest.Ok? {
          AllJustifiedCons(native, first.value, rest.value, expand, depth, path);
        }
      }
    }
  }

  /** A whole output: the root is expanded, and everything inside it is justified at every nesting. */
  lemma OutputIsJustified(native: Native, id: Identity, expand: bool, maxDepth: nat)
    requires id in native.rows && ToDict(native, id, expand, maxDepth).Ok?
    ensures var p := ToDict(native, id, expand, maxDepth).value;
            && p.Expanded? && p.id == id && |p.names| == |p.values| == |Fields(native.rows[id])|
            && (forall k :: 0 <= k < |p.names| ==> p.names[k] == Fields(native.rows[id])[k].name)
            && AllJustified(native, p.values, expand, maxDepth, {id})
  {
    assert {} + {id} == {id};
    FieldsPointwise(native, Fields(native.rows[id]), expand, maxDepth, {id});
    FieldsAreJustified(native, Fields(native.rows[id]), expand, maxDepth, {id});
  }

  // ---- One level less

  /** p with every record expanded at link depth k + 1 replaced by its $ref. */
  function Cut(native: Native, p: Plain, k: nat): Result<Plain>
    decreases p
  {
    match p
    case Expanded(id, names, values) =>
      if k == 0 then RefTo(native, id)
      else
        var cut :- CutAll(native, values, k - 1);
        Ok(Expanded(id, names, cut))
    case PlainList(items) =>
      var cut :- CutAll(native, items, k);
      Ok(PlainList(cut))
    case PlainDict(keys, values) =>
      var cut :- CutAll(native, values, k);
      Ok(PlainDict(keys, cut))
    case _ => Ok(p)
  }

  function CutAll(native: Native, ps: seq<Plain>, k: nat): Result<seq<Plain>>
    decreases ps
  {
    if ps == [] then Ok([])
    else
      var first :- Cut(native, ps[0], k);
      var rest :- CutAll(native, ps[1..], k);
      Ok([first] + rest)
  }

  /** The root itself stays: its fields are at link depth 0. */
  function CutRecord(native: Native, p: Plain, k: nat): Result<Plain> {
    match p
    case Expanded(id, names, values) =>
      var cut :- CutAll(native, values, k);
      Ok(Expanded(id, names, cut))
    case _ => Ok(p)
  }

  lemma CutAllCons(native: Native, p: Plain, ps: seq<Plain>, k: nat)
    ensures CutAll(native, [p] + ps, k)
         == match Cut(native, p, k)
            case Err(e) => Err(e)
            case Ok(q) => match CutAll(native, ps, k) case Err(e) => Err(e) case Ok(qs) => Ok([q] + qs)
  {
    assert ([p] + ps)[1..] == ps;
  }

  lemma {:induction false} PlainOneLess(native: Native, v: Value, depth: nat, path: set<Identity>)
    requires PlainOf(native, v, true, depth + 1, path).Ok?
    ensures PlainOf(native, v, true, depth, path) == Cut(native, PlainOf(native, v, true, depth + 1, path).value, depth)
    decreases depth, 0, v
  {
    match v
    case Link(target) =>
      if depth > 0 {
        RecordOneLess(native, target, depth - 1, path);
      }
    case Items(_, items) => ItemsOneLess(native, items, depth, path);
    case Dict(_, values) => ItemsOneLess(native, values, depth, path);
    case _ =>
  }

  lemma {:induction false} ItemsOneLess(native: Native, items: seq<Value>, depth: nat, path: set<Identity>)
    requires ItemsOf(native, items, true, depth + 1, path).Ok?
    ensures ItemsOf(native, items, true, depth, path)
         == CutAll(native, ItemsOf(native, items, true, depth + 1, path).value, depth)
    decreases depth, 0, items
  {
    if items != [] {
      PlainOneLess(native, items[0], depth, path);
      ItemsOneLess(native, items[1..], depth, path);
      CutAllCons(native, PlainOf(native, items[0], true, depth + 1, path).value,
                 ItemsOf(native, items[1..], true, depth + 1, path).value, depth);
    }
  }

  lemma {:induction false} FieldsOneLess(native: Native, fields: seq<Entry>, depth: nat, path: set<Identity>)
    requires FieldsOf(native, fields, true, depth + 1, path).Ok?
    ensures FieldsOf(native, fields, true, depth, path)
         == CutAll(native, FieldsOf(native, fields, true, depth + 1, path).value, depth)
    decreases depth, 1, |fields|
  {
    if fields != [] {
      var v := Convert(native, fields[0].value).value;
      PlainOneLess(native, v, depth, path);
      FieldsOneLess(native, fields[1..], depth, path);
      CutAllCons(native, PlainOf(native, v, true, depth + 1, path).value,
                 FieldsOf(native, fields[1..], true, depth + 1, path).value, depth);
    }
  }

  lemma {:induction false} RecordOneLess(native: Native, id: Identity, depth: nat, path: set<Identity>)
    requires id in native.rows && RecordOf(native, id, true, depth + 1, path).Ok?
    ensures RecordOf(native, id, true, depth, path)
         == CutRecord(native, RecordOf(native, id, true, depth + 1, path).value, depth)
    decreases depth, 2
  {
    if id !in path {
      FieldsOneLess(native, Fields(native.rows[id]), depth, path + {id});
    }
  }

  /**
   * Depth truncation: whenever the output at depth d + 1 exists, the output at depth d is that output with
   * every record expanded at link depth d + 1 replaced by its $ref, through any nesting of containers.
   */
  lemma OneLevelLess(native: Native, id: Identity, depth: nat)
    requires id in native.rows && ToDict(native, id, true, depth + 1).Ok?
    ensures ToDict(native, id, true, depth) == CutRecord(native, ToDict(native, id, true, depth + 1).value, depth)
  {
    RecordOneLess(native, id, depth, {});
  }

  // ---- Without expansion the depth does not matter

  lemma {:induction false} DepthIsIdle(native: Native, v: Value, d: nat, e: nat, path: set<Identity>,
                                       other: set<Identity>)
    ensures PlainOf(native, v, false, d, path) == PlainOf(native, v, false, e, other)
    decreases v
  {
    match v
    case Items(_, items) => DepthIsIdleAll(native, items, d, e, path, other);
    case Dict(_, values) => DepthIsIdleAll(native, values, d, e, path, other);
    case _ =>
  }

  lemma {:induction false} DepthIsIdleAll(native: Native, items: seq<Value>, d: nat, e: nat, path: set<Identity>,
                                          other: set<Identity>)
    ensures ItemsOf(native, items, false, d, path) == ItemsOf(native, items, false, e, other)
    decreases items
  {
    if items != [] {
      DepthIsIdle(native, items[0], d, e, path, other);
      DepthIsIdleAll(native, items[1..], d, e, path, other);
    }
  }

  lemma {:induction false} DepthIsIdleFields(native: Native, fields: seq<Entry>, d: nat, e: nat, path: set<Identity>)
    ensures FieldsOf(native, fields, false, d, path) == FieldsOf(native, fields, false, e, path)
    decreases |fields|
  {
    if fields != [] {
      var v := Convert(native, fields[0].value);
      if v.Ok? {
        DepthIsIdle(native, v.value, d, e, path, path);
        DepthIsIdleFields(native, fields[1..], d, e, path);
      }
    }
  }

  /** With link expansion off every depth gives the same output. */
  lemma WithoutExpansionDepthIsIdle(native: Native, id: Identity, d: nat, e: nat)
    requires id in native.rows
    ensures ToDict(native, id, false, d) == ToDict(native, id, false, e)
  {
    DepthIsIdleFields(native, Fields(native.rows[id]), d, e, {} + {id});
  }
}
