// What an output shows, read from the output's side: the converse of to_dict.
module Rendering {
  import opened Records
  import opened Expansion

  /**
   * The output p shows the value v, with `depth` expansions to go inside the records `path`. A $ref names a
   * link's table and key where expansion is off, the depth is spent or the target is an ancestor; an expanded
   * record shows its fields one for one, each under its own name, one level deeper and inside itself; containers
   * show their items one for one; any other output shows the one value it was made from.
   */
  ghost predicate Shows(native: Native, p: Plain, v: Value, expand: bool, depth: nat, path: set<Identity>)
    decreases p
  {
    match p
    case Ref(table, key) =>
      && v.Link? && v.target.objectKey == key
      && v.target.tableKey in native.tables && native.tables[v.target.tableKey] == table
      && (!expand || depth == 0 || (v.target in path && v.target in native.rows))
    case Expanded(id, names, values) =>
      && v == Link(id) && expand && depth > 0 && id in native.rows && id !in path
      && var fields := Fields(native.rows[id]);
         && |names| == |fields| && |values| == |fields|
         && forall k :: 0 <= k < |fields| ==>
              && names[k] == fields[k].name
              && Convert(native, fields[k].value).Ok?
              && Shows(native, values[k], Convert(native, fields[k].value).value, expand, depth - 1, path + {id})
    case PlainList(items) =>
      && v.Items? && |items| == |v.items|
      && forall k :: 0 <= k < |items| ==> Shows(native, items[k], v.items[k], expand, depth, path)
    case PlainDict(keys, values) =>
      && v.Dict? && keys == v.keys && |values| == |v.values|
      && forall k :: 0 <= k < |values| ==> Shows(native, values[k], v.values[k], expand, depth, path)
    case PlainTimestamp(seconds, nanoseconds) =>
      v.Timestamp? && seconds == v.seconds && nanoseconds == v.nanoseconds
    case PlainObjectId(text) => v.ObjectId? && text == v.text
    case PlainDecimal(text) => v.Decimal? && text == v.text
    case PlainInt(n) => v.Int? && n == v.n
    case PlainBinary(text) => v.Binary? && text == v.text
    case PlainUuid(text) => v.Uuid? && text == v.text
    case PlainScalar(text) => v.Scalar? && text == v.text
  }

  /** The names and values are those of the record's fields, in order, at the given depth inside `path`. */
  ghost predicate ShowsFields(native: Native, names: seq<string>, values: seq<Plain>, fields: seq<Entry>, expand: bool,
                              depth: nat, path: set<Identity>)
  {
    && |names| == |fields| && |values| == |fields|
    && forall k :: 0 <= k < |fields| ==>
         && names[k] == fields[k].name
         && Convert(native, fields[k].value).Ok?
         && Shows(native, values[k], Convert(native, fields[k].value).value, expand, depth, path)
  }

  lemma ItemsExactly(native: Native, items: seq<Value>, ps: seq<Plain>, expand: bool, depth: nat, path: set<Identity>)
    ensures ItemsOf(native, items, expand, depth, path) == Ok(ps)
       <==> |ps| == |items|
            && forall k :: 0 <= k < |items| ==> PlainOf(native, items[k], expand, depth, path) == Ok(ps[k])
  {
    ItemsPointwise(native, items, expand, depth, path);
    var r := ItemsOf(native, items, expand, depth, path);
    if |ps| == |items| && forall k :: 0 <= k < |items| ==> PlainOf(native, items[k], expand, depth, path) == Ok(ps[k]) {
      assert r.Ok? && forall k :: 0 <= k < |ps| ==> Ok(ps[k]) == Ok(r.value[k]);
      assert ps == r.value;
    }
  }

  lemma FieldsExactly(native: Native, fields: seq<Entry>, ps: seq<Plain>, expand: bool, depth: nat,
                      path: set<Identity>)
    ensures FieldsOf(native, fields, expand, depth, path) == Ok(ps)
       <==> |ps| == |fields|
            && forall k :: 0 <= k < |fields| ==> FieldOf(native, fields[k], expand, depth, path) == Ok(ps[k])
  {
    FieldsPointwise(native, fields, expand, depth, path);
    var r := FieldsOf(native, fields, expand, depth, path);
    if |ps| == |fields|
       && forall k :: 0 <= k < |fields| ==> FieldOf(native, fields[k], expand, depth, path) == Ok(ps[k])
    {
      assert r.Ok? && forall k :: 0 <= k < |ps| ==> Ok(ps[k]) == Ok(r.value[k]);
      assert ps == r.value;
    }
  }

  /** One value comes to p exactly when p shows it. */
  lemma {:induction false} PlainExactly(native: Native, v: Value, p: Plain, expand: bool, depth: nat,
                                        path: set<Identity>)
    ensures PlainOf(native, v, expand, depth, path) == Ok(p) <==> Shows(native, p, v, expand, depth, path)
    decreases depth, 1, v
  {
    match v
    case Link(target) => LinkExactly(native, target, p, expand, depth, path);
    case Items(_, items) =>
      if p.PlainList? {
        ItemsShow(native, items, p.items, expand, depth, path);
      }
    case Dict(_, values) =>
      if p.PlainDict? {
        ItemsShow(native, values, p.values, expand, depth, path);
      }
    case _ => LeafExactly(native, v, p, expand, depth, path);
  }

  lemma {:induction false} LinkExactly(native: Native, target: Identity, p: Plain, expand: bool, depth: nat,
                                       path: set<Identity>)
    ensures PlainOf(native, Link(target), expand, depth, path) == Ok(p)
       <==> Shows(native, p, Link(target), expand, depth, path)
    decreases depth, 0
  {
    if expand && depth > 0 && target in native.rows {
      RecordExactly(native, target, p, expand, depth - 1, path);
    }
  }

  /** A $ref fails exactly for a table without a name, by its key; a link to follow for an unreadable target. */
  lemma LinkErrorExactly(native: Native, target: Identity, expand: bool, depth: nat, path: set<Identity>)
    ensures !expand || depth == 0 ==>
              (PlainOf(native, Link(target), expand, depth, path) == Err(UnknownTable(target.tableKey))
               <==> target.tableKey !in native.tables)
    ensures expand && depth > 0 && target !in native.rows ==>
              PlainOf(native, Link(target), expand, depth, path) == Err(Unreadable(target))
  {}

  lemma LeafExactly(native: Native, v: Value, p: Plain, expand: bool, depth: nat, path: set<Identity>)
    requires !v.Link? && !v.Items? && !v.Dict?
    ensures LeafOf(v) == p <==> Shows(native, p, v, expand, depth, path)
  {}

  lemma {:induction false} ItemsShow(native: Native, items: seq<Value>, ps: seq<Plain>, expand: bool, depth: nat,
                                     path: set<Identity>)
    ensures ItemsOf(native, items, expand, depth, path) == Ok(ps)
       <==> |ps| == |items|
            && forall k :: 0 <= k < |items| ==> Shows(native, ps[k], items[k], expand, depth, path)
    decreases depth, 1, items
  {
    ItemsExactly(native, items, ps, expand, depth, path);
    forall k | 0 <= k < |items| && k < |ps|
      ensures PlainOf(native, items[k], expand, depth, path) == Ok(ps[k])
         <==> Shows(native, ps[k], items[k], expand, depth, path)
    {
      PlainExactly(native, items[k], ps[k], expand, depth, path);
    }
  }

  lemma {:induction false} FieldsShow(native: Native, fields: seq<Entry>, names: seq<string>, ps: seq<Plain>,
                                      expand: bool, depth: nat, path: set<Identity>)
    requires |names| == |fields| && forall k :: 0 <= k < |fields| ==> names[k] == fields[k].name
    ensures FieldsOf(native, fields, expand, depth, path) == Ok(ps)
       <==> ShowsFields(native, names, ps, fields, expand, depth, path)
    decreases depth, 2
  {
    FieldsExactly(native, fields, ps, expand, depth, path);
    forall k | 0 <= k < |fields| && k < |ps|
      ensures FieldOf(native, fields[k], expand, depth, path) == Ok(ps[k])
         <==> Convert(native, fields[k].value).Ok?
              && Shows(native, ps[k], Convert(native, fields[k].value).value, expand, depth, path)
    {
      var v := Convert(native, fields[k].value);
      if v.Ok? {
        PlainExactly(native, v.value, ps[k], expand, depth, path);
      }
    }
  }

  /** A record comes to its $ref inside itself, and else to exactly what shows its fields. */
  lemma {:induction false} RecordExactly(native: Native, id: Identity, p: Plain, expand: bool, depth: nat,
                                         path: set<Identity>)
    requires id in native.rows
    ensures id in path ==> RecordOf(native, id, expand, depth, path) == RefTo(native, id)
    ensures id !in path ==>
              (RecordOf(native, id, expand, depth, path) == Ok(p)
               <==> p.Expanded? && p.id == id
                    && ShowsFields(native, p.names, p.values, Fields(native.rows[id]), expand, depth, path + {id}))
    decreases depth, 3
  {
    if id !in path && p.Expanded? {
      var fields := Fields(native.rows[id]);
      if |p.names| == |fields| && forall k :: 0 <= k < |fields| ==> p.names[k] == fields[k].name {
        FieldsShow(native, fields, p.names, p.values, expand, depth, path + {id});
        assert p.names == Names(fields);
      }
    }
  }

  /**
   * The whole meaning of to_dict, both ways: the output of a record is the one expansion of it in which every
   * value stands under its own field's name and shows that field's value, at every nesting.
   */
  lemma OutputShowsRecord(native: Native, id: Identity, expand: bool, maxDepth: nat, p: Plain)
    requires id in native.rows
    ensures ToDict(native, id, expand, maxDepth) == Ok(p)
       <==> p.Expanded? && p.id == id
            && ShowsFields(native, p.names, p.values, Fields(native.rows[id]), expand, maxDepth, {id})
  {
    RecordExactly(native, id, p, expand, maxDepth, {});
    assert {} + {id} == {id};
  }
}
