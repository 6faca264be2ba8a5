// Lazy records behind an identity-mapped cache with weak values, and to_dict as the reader runs it.
module Reader {
  import opened Records
  import opened Expansion

  /** One field read without any cache. */
  function FreshField(native: Native, fields: Row, name: string): Result<Value> {
    match Lookup(fields, name)
    case Err(e) => Err(e)
    case Ok(raw) =>
      match Convert(native, raw)
      case Err(e) => Err(BadField(name, e))
      case Ok(v) => Ok(v)
  }

  /** What a read comes to: no such field, the field's conversion error under its name, or the converted value. */
  lemma FreshFieldExactly(native: Native, fields: Row, name: string)
    ensures FreshField(native, fields, name) == Err(NoSuchField(name)) <==> forall e :: e in fields ==> e.name != name
    ensures forall e | e in fields && e.name == name ::
              FreshField(native, fields, name)
              == match Convert(native, e.value) case Ok(v) => Ok(v) case Err(why) => Err(BadField(name, why))
  {
    forall e | e in fields && e.name == name ensures Lookup(fields, name) == Ok(e.value) {
      LookupExactly(fields, name, e.value);
    }
  }

  class Record {
    const id: Identity
    const fields: Row
    var converted: map<string, Value>

    /** Takes the metadata entries out of the row and starts with an empty memo. */
    constructor (raw: Row)
      requires RowIdentity(raw).Ok?
      ensures id == RowIdentity(raw).value && fields == Fields(raw) && converted == map[]
    {
      id := RowIdentity(raw).value;
      fields := Fields(raw);
      converted := map[];
    }

    /** The memo holds nothing but what a fresh conversion of the native value gives. */
    ghost predicate Agrees(native: Native)
      reads this
    {
      forall name :: name in converted ==> FreshField(native, fields, name) == Ok(converted[name])
    }

    /** record[name]: converted once, then remembered; a failed conversion is not remembered. */
    method GetItem(realm: Realm, name: string) returns (v: Result<Value>)
      requires realm.Valid() && this in realm.live
      modifies this`converted
      ensures realm.Valid()
      ensures v == FreshField(realm.native, fields, name)
      ensures converted == if v.Ok? then old(converted)[name := v.value] else old(converted)
    {
      if name in converted {
        v := Ok(converted[name]);
        return;
      }
      v := ConvertField(realm.native, name);
      if v.Ok? {
        Remember(realm, name, v.value);
      }
    }

    /** self._converted[name] = value: the memo still agrees with the native side. */
    method Remember(realm: Realm, name: string, value: Value)
      requires realm.Valid() && this in realm.live && FreshField(realm.native, fields, name) == Ok(value)
      modifies this`converted
      ensures realm.Valid() && converted == old(converted)[name := value]
    {
      converted := converted[name := value];
      assert Agrees(realm.native);
      assert forall r :: r in realm.live && r != this ==> unchanged(r);
    }

    /** The raw lookup and the conversion, with the field named in a conversion error. */
    method ConvertField(native: Native, name: string) returns (v: Result<Value>)
      ensures v == FreshField(native, fields, name)
    {
      var raw := Lookup(fields, name);
      if raw.Err? {
        return Err(raw.error);
      }
      v := Convert(native, raw.value);
      if v.Err? {
        v := Err(BadField(name, v.error));
      }
    }
  }

  /** No held record is cached under an identity in `gone`. */
  predicate Collectable(cache: map<Identity, Record>, gone: set<Identity>, held: set<Record>) {
    forall id :: id in gone && id in cache ==> cache[id] !in held
  }

  /** The collector's choice, which the reader cannot foresee. */
  method PickGarbage(cache: map<Identity, Record>, held: set<Record>) returns (gone: set<Identity>)
    ensures gone <= cache.Keys && Collectable(cache, gone, held)
  {
    assert {} <= cache.Keys && Collectable(cache, {}, held);
    gone :| gone <= cache.Keys && Collectable(cache, gone, held);
  }

  class Realm {
    const native: FaithfulNative
    var cache: map<Identity, Record>
    /** The records created and not yet collected. */
    ghost var live: set<Record>

    /**
     * The identity map: live records and cache entries are the same, each entry under its record's own
     * identity, and every live record agrees with the native side.
     */
    ghost predicate Valid()
      reads this, live
    {
      && (forall r :: r in live ==>
            && r.id in cache && cache[r.id] == r
            && r.id in native.rows && r.fields == Fields(native.rows[r.id]) && r.Agrees(native))
      && (forall id :: id in cache ==> cache[id] in live && cache[id].id == id)
    }

    constructor (native: FaithfulNative)
      ensures Valid() && this.native == native && cache == map[] && live == {}
    {
      this.native := native;
      cache := map[];
      live := {};
    }

    /** The row stands on the native side under the identity it carries. */
    ghost predicate Genuine(raw: Row) {
      RowIdentity(raw).Ok? ==> RowIdentity(raw).value in native.rows && native.rows[RowIdentity(raw).value] == raw
    }

    method RecordFromRaw(raw: Row) returns (r: Result<Record>)
      requires Valid() && Genuine(raw)
      modifies this
      ensures Valid()
      ensures r.Err? ==> RowIdentity(raw) == Err(r.error) && cache == old(cache) && live == old(live)
      ensures r.Ok? ==> RowIdentity(raw) == Ok(r.value.id) && live == old(live) + {r.value}
      ensures r.Ok? && r.value.id in old(cache) ==> r.value == old(cache)[r.value.id] && cache == old(cache)
      ensures r.Ok? && r.value.id !in old(cache) ==> fresh(r.value) && cache == old(cache)[r.value.id := r.value]
    {
      var identity := RowIdentity(raw);
      if identity.Err? {
        return Err(identity.error);
      }
      if identity.value in cache {
        return Ok(cache[identity.value]);
      }
      var record := Enter(raw);
      r := Ok(record);
    }

    /** A new record, cached under its identity. */
    method Enter(raw: Row) returns (record: Record)
      requires Valid() && Genuine(raw) && RowIdentity(raw).Ok? && RowIdentity(raw).value !in cache
      modifies this
      ensures Valid() && fresh(record) && record.id == RowIdentity(raw).value
      ensures cache == old(cache)[record.id := record] && live == old(live) + {record}
    {
      record := new Record(raw);
      cache := cache[record.id := record];
      live := live + {record};
    }

    /** The record with the given keys: the live one if there is one, else a new one from a native read. */
    method Resolve(id: Identity) returns (r: Result<Record>)
      requires Valid()
      modifies this
      ensures Valid()
      ensures r.Err? ==> id !in native.rows && r.error == Unreadable(id) && cache == old(cache) && live == old(live)
      ensures r.Ok? ==> id in native.rows && r.value.id == id && live == old(live) + {r.value}
      ensures r.Ok? && id in old(cache) ==> r.value == old(cache)[id] && cache == old(cache)
      ensures r.Ok? && id !in old(cache) ==> fresh(r.value) && cache == old(cache)[id := r.value]
    {
      if id in cache {
        return Ok(cache[id]);
      }
      var raw := native.Read(id);
      if raw.Err? {
        return Err(raw.error);
      }
      r := RecordFromRaw(raw.value);
    }

    /** Weak values: any entry whose record nobody holds may vanish, together with the record. */
    method CollectGarbage(held: set<Record>)
      requires Valid()
      modifies this
      ensures Valid()
      ensures live <= old(live) && held * old(live) <= live
    {
      var gone := PickGarbage(cache, held);
      ghost var before := live;
      live := set r | r in live && r.id !in gone;
      cache := cache - gone;
      assert forall r :: r in live <==> r in before && r.id !in gone;
    }
  }

  /** Two live records of one identity are the same object. */
  lemma OneLiveRecordPerIdentity(realm: Realm, a: Record, b: Record)
    requires realm.Valid() && a in realm.live && b in realm.live && a.id == b.id
    ensures a == b
  {}

  /** The mutable set of identities being expanded, shared by the whole recursion. */
  class Seen {
    var ids: set<Identity>

    constructor ()
      ensures ids == {}
    {
      ids := {};
    }
  }

  /** `values` followed by what is still to come. */
  ghost function Prepend(values: seq<Plain>, rest: Result<seq<Plain>>): Result<seq<Plain>> {
    match rest
    case Err(e) => Err(e)
    case Ok(vs) => Ok(values + vs)
  }

  lemma PrependNothing(rest: Result<seq<Plain>>)
    ensures Prepend([], rest) == rest
  {
    if rest.Ok? {
      assert [] + rest.value == rest.value;
    }
  }

  /** Once nothing is to come, what there is is the whole. */
  lemma AllDone(p: Result<seq<Plain>>)
    ensures p.Ok? ==> Prepend(p.value, Ok([])) == p
  {
    if p.Ok? {
      assert p.value + [] == p.value;
    }
  }

  lemma PrependOne(values: seq<Plain>, one: Plain, rest: Result<seq<Plain>>)
    ensures Prepend(values, Prepend([one], rest)) == Prepend(values + [one], rest)
  {
    if rest.Ok? {
      assert values + ([one] + rest.value) == values + [one] + rest.value;
    }
  }

  /** All fields come to what the first `i` of them came to, followed by the rest. */
  ghost predicate FieldsFrom(native: Native, fields: seq<Entry>, i: nat, p: Result<seq<Plain>>, expand: bool,
                             depth: nat, path: set<Identity>)
    requires i <= |fields|
  {
    FieldsOf(native, fields, expand, depth, path)
    == if p.Ok? then Prepend(p.value, FieldsOf(native, fields[i..], expand, depth, path)) else p
  }

  lemma FieldsFromStart(native: Native, fields: seq<Entry>, expand: bool, depth: nat, path: set<Identity>)
    ensures FieldsFrom(native, fields, 0, Ok([]), expand, depth, path)
  {
    assert fields[0..] == fields;
    PrependNothing(FieldsOf(native, fields, expand, depth, path));
  }

  lemma FieldsToEnd(native: Native, fields: seq<Entry>, p: Result<seq<Plain>>, expand: bool, depth: nat,
                    path: set<Identity>)
    ensures FieldsFrom(native, fields, |fields|, p, expand, depth, path)
            ==> p == FieldsOf(native, fields, expand, depth, path)
  {
    AllDone(p);
  }

  lemma NextField(native: Native, fields: seq<Entry>, i: nat, expand: bool, depth: nat, path: set<Identity>,
                  values: seq<Plain>)
    requires i < |fields|
    ensures var one := FieldOf(native, fields[i], expand, depth, path);
            Prepend(values, FieldsOf(native, fields[i..], expand, depth, path))
            == if one.Err? then Err(one.error)
               else Prepend(values + [one.value], FieldsOf(native, fields[i + 1..], expand, depth, path))
  {
    assert fields[i..][0] == fields[i] && fields[i..][1..] == fields[i + 1..];
    var one := FieldOf(native, fields[i], expand, depth, path);
    if one.Ok? {
      PrependOne(values, one.value, FieldsOf(native, fields[i + 1..], expand, depth, path));
    }
  }

  lemma NextItem(native: Native, items: seq<Value>, i: nat, expand: bool, depth: nat, path: set<Identity>,
                 values: seq<Plain>)
    requires i < |items|
    ensures var one := PlainOf(native, items[i], expand, depth, path);
            Prepend(values, ItemsOf(native, items[i..], expand, depth, path))
            == if one.Err? then Err(one.error)
               else Prepend(values + [one.value], ItemsOf(native, items[i + 1..], expand, depth, path))
  {
    assert items[i..][0] == items[i] && items[i..][1..] == items[i + 1..];
    var one := PlainOf(native, items[i], expand, depth, path);
    if one.Ok? {
      PrependOne(values, one.value, ItemsOf(native, items[i + 1..], expand, depth, path));
    }
  }

  /** record._to_dict(expand_links, remaining_depth, seen), run by frames that keep `held` alive. */
  method RecordToDict(realm: Realm, record: Record, expand: bool, depth: nat, seen: Seen, held: set<Record>)
      returns (p: Result<Plain>)
    requires realm.Valid() && record in held && held <= realm.live
    modifies realm, realm.live, seen
    ensures realm.Valid() && held <= realm.live && fresh(realm.live - old(realm.live))
    ensures p == RecordOf(realm.native, record.id, expand, depth, old(seen.ids))
    ensures p.Ok? ==> seen.ids == old(seen.ids)
    decreases depth, 2
  {
    var identity := record.id;
    if identity in seen.ids {
      p := RefTo(realm.native, identity);
      return;
    }
    ghost var path := seen.ids;
    seen.ids := seen.ids + {identity};
    var values := FieldsToPlain(realm, record, expand, depth, seen, held);
    if values.Err? {
      return Err(values.error);
    }
    seen.ids := seen.ids - {identity};
    assert seen.ids == path;
    p := Ok(Expanded(identity, Names(record.fields), values.value));
  }

  /** The comprehension over a record's fields. */
  method FieldsToPlain(realm: Realm, record: Record, expand: bool, depth: nat, seen: Seen, held: set<Record>)
      returns (p: Result<seq<Plain>>)
    requires realm.Valid() && record in held && held <= realm.live
    modifies realm, realm.live, seen
    ensures realm.Valid() && held <= realm.live && fresh(realm.live - old(realm.live))
    ensures p == FieldsOf(realm.native, record.fields, expand, depth, old(seen.ids))
    ensures p.Ok? ==> seen.ids == old(seen.ids)
    decreases depth, 1, 2
  {
    FieldsFromStart(realm.native, record.fields, expand, depth, seen.ids);
    p := FieldsFromIndex(realm, record, 0, [], expand, depth, seen, held);
    FieldsToEnd(realm.native, record.fields, p, expand, depth, old(seen.ids));
  }

  /** The comprehension from the field at index i on. */
  method FieldsFromIndex(realm: Realm, record: Record, i: nat, values: seq<Plain>, expand: bool, depth: nat,
                         seen: Seen, held: set<Record>)
      returns (p: Result<seq<Plain>>)
    requires realm.Valid() && record in held && held <= realm.live && i <= |record.fields|
    modifies realm, realm.live, seen
    ensures realm.Valid() && held <= realm.live && fresh(realm.live - old(realm.live))
    ensures FieldsFrom(realm.native, record.fields, i, Ok(values), expand, depth, old(seen.ids))
            ==> FieldsFrom(realm.native, record.fields, |record.fields|, p, expand, depth, old(seen.ids))
    ensures p.Ok? ==> seen.ids == old(seen.ids)
    decreases depth, 1, 1, |record.fields| - i
  {
    if i == |record.fields| {
      return Ok(values);
    }
    p := AppendField(realm, record, i, values, expand, depth, seen, held);
    if p.Ok? {
      p := FieldsFromIndex(realm, record, i + 1, p.value, expand, depth, seen, held);
    }
  }

  /** Reads one field through the memo, expands its value and appends it. */
  method AppendField(realm: Realm, record: Record, i: nat, values: seq<Plain>, expand: bool, depth: nat, seen: Seen,
                     held: set<Record>)
      returns (p: Result<seq<Plain>>)
    requires realm.Valid() && record in held && held <= realm.live && i < |record.fields|
    modifies realm, realm.live, seen
    ensures realm.Valid() && held <= realm.live && fresh(realm.live - old(realm.live))
    ensures FieldsFrom(realm.native, record.fields, i, Ok(values), expand, depth, old(seen.ids))
            ==> FieldsFrom(realm.native, record.fields, i + 1, p, expand, depth, old(seen.ids))
    ensures p.Ok? ==> seen.ids == old(seen.ids)
    decreases depth, 1, 0
  {
    NextField(realm.native, record.fields, i, expand, depth, seen.ids, values);
    LookupEntry(record.fields, i);
    var v := record.GetItem(realm, record.fields[i].name);
    if v.Err? {
      return Err(v.error);
    }
    var one := PlainValue(realm, v.value, expand, depth, seen, held);
    p := if one.Ok? then Ok(values + [one.value]) else Err(one.error);
  }

  /** Realm._plain_value. */
  method PlainValue(realm: Realm, v: Value, expand: bool, depth: nat, seen: Seen, held: set<Record>)
      returns (p: Result<Plain>)
    requires realm.Valid() && held <= realm.live
    modifies realm, realm.live, seen
    ensures realm.Valid() && held <= realm.live && fresh(realm.live - old(realm.live))
    ensures p == PlainOf(realm.native, v, expand, depth, old(seen.ids))
    ensures p.Ok? ==> seen.ids == old(seen.ids)
    decreases depth, 0, v, 1
  {
    match v
    case Link(target) =>
      p := LinkToPlain(realm, target, expand, depth, seen, held);
    case Items(_, items) =>
      var plain := PlainItems(realm, items, expand, depth, seen, held);
      p := if plain.Ok? then Ok(PlainList(plain.value)) else Err(plain.error);
    case Dict(keys, values) =>
      var plain := PlainItems(realm, values, expand, depth, seen, held);
      p := if plain.Ok? then Ok(PlainDict(keys, plain.value)) else Err(plain.error);
    case _ => p := Ok(LeafOf(v));
  }

  /** A resolution with collection striking just before it. */
  method ResolveAnew(realm: Realm, id: Identity, held: set<Record>) returns (record: Result<Record>)
    requires realm.Valid() && held <= realm.live
    modifies realm
    ensures realm.Valid() && held <= realm.live && fresh(realm.live - old(realm.live))
    ensures record.Err? ==> id !in realm.native.rows && record.error == Unreadable(id)
    ensures record.Ok? ==> id in realm.native.rows && record.value.id == id && record.value in realm.live
  {
    realm.CollectGarbage(held);
    record := realm.Resolve(id);
  }

  /** One link: its $ref or what it leads to. */
  method LinkToPlain(realm: Realm, target: Identity, expand: bool, depth: nat, seen: Seen, held: set<Record>)
      returns (p: Result<Plain>)
    requires realm.Valid() && held <= realm.live
    modifies realm, realm.live, seen
    ensures realm.Valid() && held <= realm.live && fresh(realm.live - old(realm.live))
    ensures p == PlainOf(realm.native, Link(target), expand, depth, old(seen.ids))
    ensures p.Ok? ==> seen.ids == old(seen.ids)
    decreases depth, 0, Link(target), 0
  {
    LinkOpened(realm.native, target, expand, depth, seen.ids);
    if expand && depth > 0 {
      p := FollowLink(realm, target, expand, depth - 1, seen, held);
    } else {
      p := RefTo(realm.native, target);
    }
  }

  /** link.resolve()._to_dict(…): collection may strike before the target is looked up. */
  method FollowLink(realm: Realm, target: Identity, expand: bool, depth: nat, seen: Seen, held: set<Record>)
      returns (p: Result<Plain>)
    requires realm.Valid() && held <= realm.live
    modifies realm, realm.live, seen
    ensures realm.Valid() && held <= realm.live && fresh(realm.live - old(realm.live))
    ensures target in realm.native.rows ==> p == RecordOf(realm.native, target, expand, depth, old(seen.ids))
    ensures target !in realm.native.rows ==> p == Err(Unreadable(target))
    ensures p.Ok? ==> seen.ids == old(seen.ids)
    decreases depth, 3
  {
    var record := ResolveAnew(realm, target, held);
    if record.Err? {
      return Err(record.error);
    }
    p := RecordToDict(realm, record.value, expand, depth, seen, held + {record.value});
  }

  /** The comprehension over a container's items. */
  method PlainItems(realm: Realm, items: seq<Value>, expand: bool, depth: nat, seen: Seen, held: set<Record>)
      returns (p: Result<seq<Plain>>)
    requires realm.Valid() && held <= realm.live
    modifies realm, realm.live, seen
    ensures realm.Valid() && held <= realm.live && fresh(realm.live - old(realm.live))
    ensures p == ItemsOf(realm.native, items, expand, depth, old(seen.ids))
    ensures p.Ok? ==> seen.ids == old(seen.ids)
    decreases depth, 0, items
  {
    ghost var path := seen.ids;
    p := Ok([]);
    ghost var all := ItemsOf(realm.native, items, expand, depth, path);
    PrependNothing(all);
    assert items[0..] == items;
    var i := 0;
    while i < |items| && p.Ok?
      invariant realm.Valid() && held <= realm.live && fresh(realm.live - old(realm.live))
      invariant i <= |items| && (p.Ok? ==> seen.ids == path)
      invariant all == if p.Ok? then Prepend(p.value, ItemsOf(realm.native, items[i..], expand, depth, path)) else p
    {
      NextItem(realm.native, items, i, expand, depth, path, p.value);
      var one := PlainValue(realm, items[i], expand, depth, seen, held);
      p := if one.Ok? then Ok(p.value + [one.value]) else Err(one.error);
      i := i + 1;
    }
    AllDone(p);
  }

  /** record.to_dict(expand_links, max_depth), called by a client that holds `held`. */
  method TopToDict(realm: Realm, record: Record, expand: bool, maxDepth: int, held: set<Record>)
      returns (p: Result<Plain>)
    requires realm.Valid() && record in realm.live && held <= realm.live
    modifies realm, realm.live
    ensures realm.Valid() && record in realm.live && held <= realm.live && fresh(realm.live - old(realm.live))
    ensures maxDepth < 0 ==> p == Err(NegativeDepth)
    ensures 0 <= maxDepth ==> p == ToDict(realm.native, record.id, expand, maxDepth)
  {
    if maxDepth < 0 {
      return Err(NegativeDepth);
    }
    var seen := new Seen();
    p := RecordToDict(realm, record, expand, maxDepth, seen, held + {record});
  }
}
