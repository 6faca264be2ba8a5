// Result sets: indexing, and the iteration that skips damaged entries.
module ResultSets {
  import opened Bytes
  import opened Records
  import opened Reader

  /** What reading one entry of a result set comes to. */
  function EntryIdentity(entry: Result<Row>): Result<Identity> {
    match entry
    case Err(e) => Err(e)
    case Ok(row) => RowIdentity(row)
  }

  /** The entry at a Python index: a negative one counts from the end. */
  function EntryAt(entries: seq<Result<Row>>, index: int): Result<Row> {
    var i := if index < 0 then index + |entries| else index;
    if 0 <= i < |entries| then entries[i] else Err(IndexOutOfRange)
  }

  /** Of n entries index k is that of entry k, -k that of entry n - k counting from one, every other is refused. */
  lemma EntryAtExactly(entries: seq<Result<Row>>, k: int)
    requires k >= 0
    ensures k < |entries| ==> EntryAt(entries, k) == entries[k]
    ensures 1 <= k <= |entries| ==> EntryAt(entries, -k) == entries[|entries| - k]
    ensures k >= |entries| ==> EntryAt(entries, k) == Err(IndexOutOfRange)
    ensures k > |entries| ==> EntryAt(entries, -k) == Err(IndexOutOfRange)
  {}

  /** The identities of the readable entries, in order. */
  function Readable(entries: seq<Result<Row>>): seq<Identity> {
    if entries == [] then []
    else
      var before, last := Readable(entries[..|entries| - 1]), EntryIdentity(entries[|entries| - 1]);
      if last.Ok? then before + [last.value] else before
  }

  /** The positions of the others, in order, with their errors. */
  function Failures(entries: seq<Result<Row>>): seq<(nat, Error)> {
    if entries == [] then []
    else
      var before, last := Failures(entries[..|entries| - 1]), EntryIdentity(entries[|entries| - 1]);
      if last.Err? then before + [(|entries| - 1, last.error)] else before
  }

  /** No entry is lost and none is counted twice. */
  lemma {:induction false} EntriesArePartitioned(entries: seq<Result<Row>>)
    ensures |Readable(entries)| + |Failures(entries)| == |entries|
    ensures forall i: nat, e :: (i, e) in Failures(entries) <==> i < |entries| && EntryIdentity(entries[i]) == Err(e)
    ensures forall j, k :: 0 <= j < k < |Failures(entries)| ==> Failures(entries)[j].0 < Failures(entries)[k].0
    ensures forall id :: id in Readable(entries)
                    <==> exists i :: 0 <= i < |entries| && EntryIdentity(entries[i]) == Ok(id)
  {
    if entries != [] {
      var init, n := entries[..|entries| - 1], |entries| - 1;
      assert entries == init + [entries[n]];
      EntriesArePartitioned(init);
      forall j | 0 <= j < |Failures(init)| ensures Failures(init)[j].0 < n {
        assert (Failures(init)[j].0, Failures(init)[j].1) in Failures(init);
      }
    }
  }

  /** Between two positions `yielded` are the readable entries and `errors` the failures, both in order. */
  ghost predicate Passed(entries: seq<Result<Row>>, from: nat, to: nat, yielded: seq<Identity>,
                         errors: seq<(nat, Error)>)
  {
    && from <= to <= |entries|
    && Readable(entries[..to]) == Readable(entries[..from]) + yielded
    && Failures(entries[..to]) == Failures(entries[..from]) + errors
  }

  lemma {:induction false} ReadablePrefix(entries: seq<Result<Row>>, k: nat)
    requires k <= |entries|
    ensures Readable(entries[..k]) <= Readable(entries)
    decreases |entries| - k
  {
    if k == |entries| {
      assert entries[..k] == entries;
    } else {
      assert entries[..k + 1][..k] == entries[..k];
      ReadablePrefix(entries, k + 1);
    }
  }

  /** A readable entry stands behind exactly the readable entries before it. */
  lemma ReadableInOrder(entries: seq<Result<Row>>, k: nat)
    requires k < |entries| && EntryIdentity(entries[k]).Ok?
    ensures var before := |Readable(entries[..k])|;
            before < |Readable(entries)| && Readable(entries)[before] == EntryIdentity(entries[k]).value
  {
    assert entries[..k + 1][..k] == entries[..k];
    ReadablePrefix(entries, k + 1);
  }

  /** What one request for the next record comes to: the record if any, the failures before it, the new position. */
  datatype Turn = Turn(item: Option<Identity>, errors: seq<(nat, Error)>, position: nat)

  /** That, read straight off the entries. */
  function TurnFrom(entries: seq<Result<Row>>, from: nat): Turn
    decreases |entries| - from
  {
    if from >= |entries| then Turn(None, [], from)
    else
      match EntryIdentity(entries[from])
      case Ok(id) => Turn(Some(id), [], from + 1)
      case Err(e) => TurnFrom(entries, from + 1).(errors := [(from, e)] + TurnFrom(entries, from + 1).errors)
  }

  lemma PassedOne(entries: seq<Result<Row>>, k: nat)
    requires k < |entries|
    ensures var r := EntryIdentity(entries[k]);
            Passed(entries, k, k + 1, if r.Ok? then [r.value] else [], if r.Err? then [(k, r.error)] else [])
  {
    assert entries[..k + 1][..k] == entries[..k];
  }

  /** A turn passes the entries up to its new position, and moves on unless the end is reached. */
  lemma {:induction false} TurnPasses(entries: seq<Result<Row>>, from: nat)
    requires from <= |entries|
    ensures var t := TurnFrom(entries, from);
            && Passed(entries, from, t.position, OneOrNone(t.item), t.errors)
            && (if t.item.Some? then from < t.position else t.position == |entries|)
    decreases |entries| - from
  {
    if from < |entries| {
      PassedOne(entries, from);
      var r := EntryIdentity(entries[from]);
      if r.Err? {
        var rest := TurnFrom(entries, from + 1);
        TurnPasses(entries, from + 1);
        PassedOn(entries, from, from + 1, rest.position, [], [(from, r.error)], OneOrNone(rest.item), rest.errors);
        NothingAdded(OneOrNone(rest.item));
      }
    }
  }

  /** A turn begun at `from` has come to `at`, having met `errors`. */
  ghost predicate TurnAt(entries: seq<Result<Row>>, from: nat, at: nat, errors: seq<(nat, Error)>) {
    && at <= |entries|
    && TurnFrom(entries, from) == TurnFrom(entries, at).(errors := errors + TurnFrom(entries, at).errors)
  }

  lemma TurnBegins(entries: seq<Result<Row>>, from: nat)
    requires from <= |entries|
    ensures TurnAt(entries, from, from, [])
  {
    NothingAdded(TurnFrom(entries, from).errors);
  }

  lemma TurnStep(entries: seq<Result<Row>>, from: nat, at: nat, errors: seq<(nat, Error)>, r: Result<Identity>)
    requires TurnAt(entries, from, at, errors) && at < |entries| && EntryIdentity(entries[at]) == r
    ensures r.Ok? ==> TurnFrom(entries, from) == Turn(Some(r.value), errors, at + 1)
    ensures r.Err? ==> TurnAt(entries, from, at + 1, errors + [(at, r.error)])
  {
    NothingAdded(errors);
    if r.Err? {
      var rest := TurnFrom(entries, at + 1).errors;
      assert errors + ([(at, r.error)] + rest) == errors + [(at, r.error)] + rest;
    }
  }

  lemma TurnRunsOut(entries: seq<Result<Row>>, from: nat, errors: seq<(nat, Error)>)
    requires TurnAt(entries, from, |entries|, errors)
    ensures TurnFrom(entries, from) == Turn(None, errors, |entries|)
  {
    NothingAdded(errors);
  }

  lemma PassedOn(entries: seq<Result<Row>>, from: nat, via: nat, to: nat, yielded: seq<Identity>,
                 errors: seq<(nat, Error)>, more: seq<Identity>, further: seq<(nat, Error)>)
    requires Passed(entries, from, via, yielded, errors) && Passed(entries, via, to, more, further)
    ensures Passed(entries, from, to, yielded + more, errors + further)
  {
    assert Readable(entries[..from]) + (yielded + more) == Readable(entries[..from]) + yielded + more;
    assert Failures(entries[..from]) + (errors + further) == Failures(entries[..from]) + errors + further;
  }

  lemma NothingAdded<T>(s: seq<T>)
    ensures [] + s == s && s + [] == s
  {}

  /** From one end to the other that is all of them. */
  lemma PassedAll(entries: seq<Result<Row>>, yielded: seq<Identity>, errors: seq<(nat, Error)>)
    requires Passed(entries, 0, |entries|, yielded, errors)
    ensures yielded == Readable(entries) && errors == Failures(entries)
  {
    assert entries[..0] == [] && entries[..|entries|] == entries;
    NothingAdded(yielded);
    NothingAdded(errors);
  }

  function Identities(records: seq<Record>): seq<Identity> {
    seq(|records|, i requires 0 <= i < |records| => records[i].id)
  }

  lemma IdentitiesAppend(records: seq<Record>, r: Record)
    ensures Identities(records + [r]) == Identities(records) + [r.id]
  {}

  class Results {
    const realm: Realm
    const entries: seq<Result<Row>>

    constructor (realm: Realm, entries: seq<Result<Row>>)
      ensures this.realm == realm && this.entries == entries
    {
      this.realm := realm;
      this.entries := entries;
    }

    /** Readable entries come from the Realm's own native side. */
    ghost predicate Genuine() {
      forall i :: 0 <= i < |entries| && entries[i].Ok? ==> realm.Genuine(entries[i].value)
    }

    /** results[index], with collection striking just before the record is looked up. */
    method Get(index: int, held: set<Record>) returns (r: Result<Record>)
      requires Genuine() && realm.Valid() && held <= realm.live
      modifies realm
      ensures realm.Valid() && held <= realm.live && fresh(realm.live - old(realm.live))
      ensures match EntryAt(entries, index)
              case Err(e) => r == Err(e)
              case Ok(row) => RowIdentity(row) == if r.Ok? then Ok(r.value.id) else Err(r.error)
      ensures r.Ok? ==> r.value in realm.live
    {
      realm.CollectGarbage(held);
      var entry := EntryAt(entries, index);
      match entry
      case Err(e) => r := Err(e);
      case Ok(row) => r := realm.RecordFromRaw(row);
    }
  }

  /** The generator behind iter_valid(on_error): it runs only as far as its caller asks for records. */
  class ValidIterator {
    const results: Results
    var position: nat

    constructor (results: Results)
      ensures this.results == results && position == 0
    {
      this.results := results;
      position := 0;
    }

    /** One step of the loop, in a turn begun at `start`: the entry at `position` is either yielded or reported. */
    method Advance(held: set<Record>, ghost start: nat, errors: seq<(nat, Error)>) returns (r: Result<Record>)
      requires position < |results.entries| && TurnAt(results.entries, start, position, errors)
      requires results.Genuine() && results.realm.Valid() && held <= results.realm.live
      modifies this, results.realm
      ensures position == old(position) + 1
      ensures results.realm.Valid() && held <= results.realm.live
      ensures fresh(results.realm.live - old(results.realm.live))
      ensures match r
              case Ok(record) =>
                record in results.realm.live
                && TurnFrom(results.entries, start) == Turn(Some(record.id), errors, position)
              case Err(e) => TurnAt(results.entries, start, position, errors + [(old(position), e)])
    {
      assert EntryAt(results.entries, position) == results.entries[position];
      r := results.Get(position, held);
      TurnStep(results.entries, start, position, errors, if r.Ok? then Ok(r.value.id) else Err(r.error));
      position := position + 1;
    }

    /** The loop, run up to its next yield or to its end. */
    method Resume(held: set<Record>) returns (item: Option<Record>, errors: seq<(nat, Error)>)
      requires position <= |results.entries|
      requires results.Genuine() && results.realm.Valid() && held <= results.realm.live
      modifies this, results.realm
      ensures results.realm.Valid() && held <= results.realm.live
      ensures fresh(results.realm.live - old(results.realm.live))
      ensures item.Some? ==> item.value in results.realm.live
      ensures Turn(if item.Some? then Some(item.value.id) else None, errors, position)
           == TurnFrom(results.entries, old(position))
    {
      errors := [];
      ghost var entries, start := results.entries, position;
      TurnBegins(entries, start);
      while position < |results.entries|
        invariant results.realm.Valid() && held <= results.realm.live
        invariant fresh(results.realm.live - old(results.realm.live))
        invariant TurnAt(entries, start, position, errors)
      {
        var at := position;
        var r := Advance(held, start, errors);
        if r.Ok? {
          return Some(r.value), errors;
        }
        errors := errors + [(at, r.error)];
      }
      TurnRunsOut(entries, start, errors);
      item := None;
    }

    /**
     * next(generator), by a caller that holds any records it likes: the next readable record, or None at the
     * end, and the errors reported on the way. However the calls are spread and whatever is kept between
     * them, nothing but the readable entries passed is yielded and nothing but the others is reported.
     */
    method Next(held: set<Record>) returns (item: Option<Record>, errors: seq<(nat, Error)>)
      requires position <= |results.entries|
      requires results.Genuine() && results.realm.Valid() && held <= results.realm.live
      modifies this, results.realm
      ensures results.realm.Valid() && held <= results.realm.live
      ensures fresh(results.realm.live - old(results.realm.live))
      ensures item.Some? ==> item.value in results.realm.live
      ensures Turn(if item.Some? then Some(item.value.id) else None, errors, position)
           == TurnFrom(results.entries, old(position))
      ensures Passed(results.entries, old(position), position, if item.Some? then [item.value.id] else [], errors)
      ensures if item.Some? then old(position) < position else position == |results.entries|
    {
      TurnPasses(results.entries, position);
      item, errors := Resume(held);
    }
  }

  /** One turn of a caller that keeps every record it is given. */
  method CollectNext(generator: ValidIterator, records: seq<Record>, errors: seq<(nat, Error)>)
      returns (more: seq<Record>, further: seq<(nat, Error)>, done: bool)
    requires generator.results.Genuine() && generator.results.realm.Valid()
    requires forall r :: r in records ==> r in generator.results.realm.live
    requires Passed(generator.results.entries, 0, generator.position, Identities(records), errors)
    modifies generator, generator.results.realm
    ensures generator.results.realm.Valid() && forall r :: r in more ==> r in generator.results.realm.live
    ensures Passed(generator.results.entries, 0, generator.position, Identities(more), further)
    ensures if done then generator.position == |generator.results.entries|
            else generator.position > old(generator.position)
  {
    ghost var entries, at := generator.results.entries, generator.position;
    var item, reported := generator.Next(set r | r in records);
    further := errors + reported;
    match item
    case Some(record) =>
      PassedOn(entries, 0, at, generator.position, Identities(records), errors, [record.id], reported);
      IdentitiesAppend(records, record);
      more, done := records + [record], false;
    case None =>
      PassedOn(entries, 0, at, generator.position, Identities(records), errors, [], reported);
      NothingAdded(Identities(records));
      more, done := records, true;
  }

  /** list(results.iter_valid(on_error)): run to the end by a caller that keeps every record. */
  method IterValid(results: Results) returns (records: seq<Record>, errors: seq<(nat, Error)>)
    requires results.Genuine() && results.realm.Valid()
    modifies results.realm
    ensures results.realm.Valid() && forall r :: r in records ==> r in results.realm.live
    ensures Identities(records) == Readable(results.entries)
    ensures errors == Failures(results.entries)
  {
    records, errors := [], [];
    ghost var entries := results.entries;
    var generator := new ValidIterator(results);
    var done := false;
    while !done
      invariant generator.results == results && fresh(generator)
      invariant results.realm.Valid() && forall r :: r in records ==> r in results.realm.live
      invariant Passed(entries, 0, generator.position, Identities(records), errors)
      invariant done ==> generator.position == |entries|
      decreases |entries| - generator.position, !done
    {
      records, errors, done := CollectNext(generator, records, errors);
    }
    PassedAll(entries, Identities(records), errors);
  }
}
