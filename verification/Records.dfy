// Native rows, their converted values and the plain output of to_dict.
module Records {

  datatype Identity = Identity(tableKey: int, objectKey: int)

  datatype Error =
    | UnknownTable(tableKey: int)
    | Unreadable(target: Identity)
    | BadDecimal(text: string)
    | BadField(name: string, cause: Error)
    | MissingMetadata(name: string)
    | BadMetadata
    | NoSuchField(name: string)
    | NativeFailure(message: string)
    | NegativeDepth
    | IndexOutOfRange

  datatype Result<+T> = Ok(value: T) | Err(error: Error) {
    predicate IsFailure() { Err? }

    function PropagateFailure<U>(): Result<U>
      requires Err?
    {
      Err(error)
    }

    function Extract(): T
      requires Ok?
    {
      value
    }
  }

  /** A value as the native layer returns it. Sets are listed in their iteration order. */
  datatype Raw =
    | RawLink(target: Identity)
    | RawTimestamp(seconds: int, nanoseconds: int)
    | RawObjectId(text: string)
    | RawDecimal(text: string)
    | RawItems(isSet: bool, items: seq<Raw>)
    | RawDict(keys: seq<string>, values: seq<Raw>)
    | RawInt(n: int)
    | RawBinary(text: string)
    | RawUuid(text: string)
    | RawScalar(text: string)

  /** A converted field value. */
  datatype Value =
    | Link(target: Identity)
    | Timestamp(seconds: int, nanoseconds: int)
    | ObjectId(text: string)
    | Decimal(text: string)
    | Items(isSet: bool, items: seq<Value>)
    | Dict(keys: seq<string>, values: seq<Value>)
    | Int(n: int)
    | Binary(text: string)
    | Uuid(text: string)
    | Scalar(text: string)

  /** Built-in containers: an expanded record, a $ref, lists, dictionaries and tagged leaves. */
  datatype Plain =
    | Expanded(id: Identity, names: seq<string>, values: seq<Plain>)
    | Ref(table: string, key: int)
    | PlainTimestamp(seconds: int, nanoseconds: int)
    | PlainObjectId(text: string)
    | PlainDecimal(text: string)
    | PlainList(items: seq<Plain>)
    | PlainDict(keys: seq<string>, values: seq<Plain>)
    | PlainInt(n: int)
    | PlainBinary(text: string)
    | PlainUuid(text: string)
    | PlainScalar(text: string)

  datatype Entry = Entry(name: string, value: Raw)

  /** A native row: a Python dict, as its entries in insertion order. */
  type Row = r: seq<Entry> | DistinctNames(r)

  predicate DistinctNames(r: seq<Entry>) {
    forall i, j :: 0 <= i < j < |r| ==> r[i].name != r[j].name
  }

  function Lookup(r: seq<Entry>, name: string): (v: Result<Raw>)
    ensures v.Ok? ==> exists i :: 0 <= i < |r| && r[i] == Entry(name, v.value)
    ensures v.Err? ==> v.error == NoSuchField(name) && forall i :: 0 <= i < |r| ==> r[i].name != name
  {
    if r == [] then Err(NoSuchField(name))
    else if r[0].name == name then Ok(r[0].value)
    else Lookup(r[1..], name)
  }

  /** dict.pop(name), the entry gone. */
  function Without(r: seq<Entry>, name: string): (s: seq<Entry>)
    ensures forall e :: e in s <==> e in r && e.name != name
    ensures DistinctNames(r) ==> DistinctNames(s)
  {
    if r == [] then []
    else if r[0].name == name then Without(r[1..], name)
    else [r[0]] + Without(r[1..], name)
  }

  const TABLE_KEY := "__table_key__"
  const OBJECT_KEY := "__object_key__"

  /** The identity a raw row carries in its metadata entries. */
  function RowIdentity(row: Row): Result<Identity> {
    var table, key := Lookup(row, TABLE_KEY), Lookup(row, OBJECT_KEY);
    if table.Err? then Err(MissingMetadata(TABLE_KEY))
    else if key.Err? then Err(MissingMetadata(OBJECT_KEY))
    else if table.value.RawInt? && key.value.RawInt? then Ok(Identity(table.value.n, key.value.n))
    else Err(BadMetadata)
  }

  /** The row's user-visible fields. */
  function Fields(row: Row): Row {
    Without(Without(row, TABLE_KEY), OBJECT_KEY)
  }

  function Names(fields: seq<Entry>): seq<string> {
    seq(|fields|, i requires 0 <= i < |fields| => fields[i].name)
  }

  lemma LookupEntry(r: seq<Entry>, i: nat)
    requires DistinctNames(r) && i < |r|
    ensures Lookup(r, r[i].name) == Ok(r[i].value)
  {}

  lemma {:induction false} LookupExactly(r: seq<Entry>, name: string, raw: Raw)
    requires DistinctNames(r)
    ensures Lookup(r, name) == Ok(raw) <==> Entry(name, raw) in r
    ensures Lookup(r, name).Err? <==> forall e :: e in r ==> e.name != name
  {
    if Entry(name, raw) in r {
      var i :| 0 <= i < |r| && r[i] == Entry(name, raw);
      LookupEntry(r, i);
    }
  }

  /** A row's identity is exactly the pair of integers under its two metadata names, table before object. */
  lemma IdentityExactly(row: Row, id: Identity)
    ensures RowIdentity(row) == Ok(id)
       <==> Entry("__table_key__", RawInt(id.tableKey)) in row && Entry("__object_key__", RawInt(id.objectKey)) in row
    ensures (forall e :: e in row ==> e.name != "__table_key__")
            ==> RowIdentity(row) == Err(MissingMetadata("__table_key__"))
  {
    LookupExactly(row, TABLE_KEY, RawInt(id.tableKey));
    LookupExactly(row, OBJECT_KEY, RawInt(id.objectKey));
  }

  /** Two entries stand in r in this order. */
  ghost predicate StandBefore(r: seq<Entry>, a: Entry, b: Entry) {
    exists p: nat, q: nat :: p < q < |r| && r[p] == a && r[q] == b
  }

  lemma StandInRest(first: Entry, rest: seq<Entry>, a: Entry, b: Entry)
    requires StandBefore(rest, a, b)
    ensures StandBefore([first] + rest, a, b)
  {
    var r := [first] + rest;
    var p: nat, q: nat :| p < q < |rest| && rest[p] == a && rest[q] == b;
    assert r[p + 1] == a && r[q + 1] == b;
  }

  lemma StandFirst(first: Entry, rest: seq<Entry>, b: Entry)
    requires b in rest
    ensures StandBefore([first] + rest, first, b)
  {
    var r := [first] + rest;
    var q: nat :| q < |rest| && rest[q] == b;
    assert r[0] == first && r[q + 1] == b;
  }

  /** The entries of s stand in r in the order of s. */
  ghost predicate InOrderOf(s: seq<Entry>, r: seq<Entry>) {
    forall i, j :: 0 <= i < j < |s| ==> StandBefore(r, s[i], s[j])
  }

  lemma InOrderCons(first: Entry, s: seq<Entry>, rest: seq<Entry>)
    requires InOrderOf(s, rest) && forall e :: e in s ==> e in rest
    ensures InOrderOf(s, [first] + rest) && InOrderOf([first] + s, [first] + rest)
  {
    forall i, j | 0 <= i < j < |s| ensures StandBefore([first] + rest, s[i], s[j]) {
      StandInRest(first, rest, s[i], s[j]);
    }
    forall j | 0 <= j < |s| ensures StandBefore([first] + rest, first, s[j]) {
      StandFirst(first, rest, s[j]);
    }
  }

  lemma {:induction false} WithoutInOrder(r: seq<Entry>, name: string)
    ensures InOrderOf(Without(r, name), r)
  {
    if r != [] {
      WithoutInOrder(r[1..], name);
      InOrderCons(r[0], Without(r[1..], name), r[1..]);
      assert [r[0]] + r[1..] == r;
    }
  }

  /** The fields of a row are its entries under other names than the two metadata ones, in the row's order. */
  lemma FieldsExactly(row: Row)
    ensures forall e :: e in Fields(row) <==> e in row && e.name != "__table_key__" && e.name != "__object_key__"
    ensures InOrderOf(Fields(row), row)
  {
    var once := Without(row, TABLE_KEY);
    WithoutInOrder(row, TABLE_KEY);
    WithoutInOrder(once, OBJECT_KEY);
    forall i, j | 0 <= i < j < |Fields(row)| ensures StandBefore(row, Fields(row)[i], Fields(row)[j]) {
      var p: nat, q: nat :| p < q < |once| && once[p] == Fields(row)[i] && once[q] == Fields(row)[j];
    }
  }

  /**
   * The immutable native side: which rows can be read, how tables are named, and which decimal texts parse.
   * A read returns the identity it was asked for.
   */
  datatype Native = Native(rows: map<Identity, Row>, tables: map<int, string>, isDecimal: string -> bool) {
    ghost predicate Valid() {
      forall id :: id in rows ==> RowIdentity(rows[id]) == Ok(id)
    }

    function Read(id: Identity): Result<Row> {
      if id in rows then Ok(rows[id]) else Err(Unreadable(id))
    }
  }

  /** A native side whose reads return the identity they were asked for. */
  type FaithfulNative = n: Native | n.Valid() ghost witness Native(map[], map[], _ => true)

  /** Realm._convert. */
  function Convert(native: Native, raw: Raw): Result<Value>
    decreases raw
  {
    match raw
    case RawLink(target) => Ok(Link(target))
    case RawTimestamp(s, n) => Ok(Timestamp(s, n))
    case RawObjectId(text) => Ok(ObjectId(text))
    case RawDecimal(text) => if native.isDecimal(text) then Ok(Decimal(text)) else Err(BadDecimal(text))
    case RawItems(isSet, items) =>
      var converted :- ConvertAll(native, items);
      Ok(Items(isSet, converted))
    case RawDict(keys, values) =>
      var converted :- ConvertAll(native, values);
      Ok(Dict(keys, converted))
    case RawInt(n) => Ok(Int(n))
    case RawBinary(text) => Ok(Binary(text))
    case RawUuid(text) => Ok(Uuid(text))
    case RawScalar(text) => Ok(Scalar(text))
  }

  function ConvertAll(native: Native, raws: seq<Raw>): (r: Result<seq<Value>>)
    ensures r.Ok? ==> |r.value| == |raws|
    decreases raws
  {
    if raws == [] then Ok([])
    else
      var first :- Convert(native, raws[0]);
      var rest :- ConvertAll(native, raws[1..]);
      Ok([first] + rest)
  }

  /** The raw value a converted value came from. */
  function Back(v: Value): Raw
    decreases v
  {
    match v
    case Link(target) => RawLink(target)
    case Timestamp(s, n) => RawTimestamp(s, n)
    case ObjectId(text) => RawObjectId(text)
    case Decimal(text) => RawDecimal(text)
    case Items(isSet, items) => RawItems(isSet, BackAll(items))
    case Dict(keys, values) => RawDict(keys, BackAll(values))
    case Int(n) => RawInt(n)
    case Binary(text) => RawBinary(text)
    case Uuid(text) => RawUuid(text)
    case Scalar(text) => RawScalar(text)
  }

  function BackAll(vs: seq<Value>): seq<Raw>
    decreases vs
  {
    if vs == [] then [] else [Back(vs[0])] + BackAll(vs[1..])
  }

  /** Every decimal text inside a raw value parses. */
  predicate DecimalsParse(native: Native, raw: Raw)
    decreases raw
  {
    match raw
    case RawDecimal(text) => native.isDecimal(text)
    case RawItems(_, items) => AllDecimalsParse(native, items)
    case RawDict(_, values) => AllDecimalsParse(native, values)
    case _ => true
  }

  predicate AllDecimalsParse(native: Native, raws: seq<Raw>)
    decreases raws
  {
    raws == [] || (DecimalsParse(native, raws[0]) && AllDecimalsParse(native, raws[1..]))
  }

  /** Conversion fails only on a malformed decimal, and otherwise loses nothing at any nesting depth. */
  lemma {:induction false} ConvertLosesNothing(native: Native, raw: Raw)
    ensures Convert(native, raw).Ok? <==> DecimalsParse(native, raw)
    ensures Convert(native, raw).Ok? ==> Back(Convert(native, raw).value) == raw
    decreases raw
  {
    match raw
    case RawItems(_, items) => ConvertAllLosesNothing(native, items);
    case RawDict(_, values) => ConvertAllLosesNothing(native, values);
    case _ =>
  }

  /**
   * The error of a conversion: a leaf fails only as a malformed decimal, with its text; a container fails with
   * the error of its first item that fails.
   */
  lemma ConvertErrorExactly(native: Native, raw: Raw, e: Error)
    ensures Convert(native, raw) == Err(e)
       <==> || (raw.RawDecimal? && !native.isDecimal(raw.text) && e == BadDecimal(raw.text))
            || (raw.RawItems? && FirstFails(native, raw.items, e))
            || (raw.RawDict? && FirstFails(native, raw.values, e))
  {
    if raw.RawItems? {
      ConvertAllFirst(native, raw.items, e);
    } else if raw.RawDict? {
      ConvertAllFirst(native, raw.values, e);
    }
  }

  /** The first item whose conversion fails does so with this error. */
  ghost predicate FirstFails(native: Native, raws: seq<Raw>, e: Error) {
    exists i :: 0 <= i < |raws| && Convert(native, raws[i]) == Err(e)
                && forall j :: 0 <= j < i ==> Convert(native, raws[j]).Ok?
  }

  lemma {:induction false} ConvertAllFirst(native: Native, raws: seq<Raw>, e: Error)
    ensures ConvertAll(native, raws) == Err(e) <==> FirstFails(native, raws, e)
    decreases |raws|
  {
    if raws != [] {
      var rest := raws[1..];
      ConvertAllFirst(native, rest, e);
      if Convert(native, raws[0]).Ok? && FirstFails(native, rest, e) {
        var i :| 0 <= i < |rest| && Convert(native, rest[i]) == Err(e)
                 && forall j :: 0 <= j < i ==> Convert(native, rest[j]).Ok?;
        forall j | 0 <= j < i + 1 ensures Convert(native, raws[j]).Ok? {
          assert j > 0 ==> raws[j] == rest[j - 1];
        }
        assert raws[i + 1] == rest[i];
      }
      if Convert(native, raws[0]).Ok? && FirstFails(native, raws, e) {
        var i :| 0 <= i < |raws| && Convert(native, raws[i]) == Err(e)
                 && forall j :: 0 <= j < i ==> Convert(native, raws[j]).Ok?;
        assert rest[i - 1] == raws[i];
        forall j | 0 <= j < i - 1 ensures Convert(native, rest[j]).Ok? {
          assert rest[j] == raws[j + 1];
        }
      }
    }
  }

  lemma {:induction false} ConvertAllLosesNothing(native: Native, raws: seq<Raw>)
    ensures ConvertAll(native, raws).Ok? <==> AllDecimalsParse(native, raws)
    ensures ConvertAll(native, raws).Ok? ==> BackAll(ConvertAll(native, raws).value) == raws
    decreases raws
  {
    if raws != [] {
      ConvertLosesNothing(native, raws[0]);
      ConvertAllLosesNothing(native, raws[1..]);
      var first, rest := Convert(native, raws[0]), ConvertAll(native, raws[1..]);
      if first.Ok? && rest.Ok? {
        assert ([first.value] + rest.value)[1..] == rest.value;
        assert [raws[0]] + raws[1..] == raws;
      }
    }
  }
}
