// Which error a deeper to_dict ends in: it resumes the shallower one at its spent links.
module DeeperErrors {
  import opened Bytes
  import opened Records
  import opened Expansion
  import opened Saturation

  /** A link met where the depth is spent, inside the records `path`. */
  datatype Spent = Spent(target: Identity, path: set<Identity>)

  /** What a run meets in order: its spent links up to its first failure anywhere else, and that failure if any. */
  datatype Front = Front(links: seq<Spent>, failure: Option<Error>)

  /** `first` is run, and `second` after it if it does not fail. */
  function Then(first: Front, second: Front): Front {
    if first.failure.Some? then first else Front(first.links + second.links, second.failure)
  }

  function FrontOf(native: Native, v: Value, depth: nat, path: set<Identity>): Front
    decreases depth, 0, v
  {
    match v
    case Link(target) =>
      if depth == 0 then Front([Spent(target, path)], None)
      else if target in native.rows then FrontOfRecord(native, target, depth - 1, path)
      else Front([], Some(Unreadable(target)))
    case Items(_, items) => FrontOfItems(native, items, depth, path)
    case Dict(_, values) => FrontOfItems(native, values, depth, path)
    case _ => Front([], None)
  }

  function FrontOfItems(native: Native, items: seq<Value>, depth: nat, path: set<Identity>): Front
    decreases depth, 0, items
  {
    if items == [] then Front([], None)
    else Then(FrontOf(native, items[0], depth, path), FrontOfItems(native, items[1..], depth, path))
  }

  function FrontOfFields(native: Native, fields: seq<Entry>, depth: nat, path: set<Identity>): Front
    decreases depth, 1, |fields|
  {
    if fields == [] then Front([], None)
    else
      match Convert(native, fields[0].value)
      case Err(e) => Front([], Some(BadField(fields[0].name, e)))
      case Ok(v) => Then(FrontOf(native, v, depth, path), FrontOfFields(native, fields[1..], depth, path))
  }

  function FrontOfRecord(native: Native, id: Identity, depth: nat, path: set<Identity>): Front
    requires id in native.rows
    decreases depth, 2
  {
    if id in path then Front([], ErrorOf(RefTo(native, id)))
    else FrontOfFields(native, Fields(native.rows[id]), depth, path + {id})
  }

  function ErrorOf<T>(r: Result<T>): Option<Error> {
    if r.Err? then Some(r.error) else None
  }

  /** What a spent link comes to with `more` depth left: a $ref without any, else its record. */
  function Resumed(native: Native, link: Spent, more: nat): Result<Plain> {
    PlainOf(native, Link(link.target), true, more, link.path)
  }

  /** The error of the first link that fails with `more` depth left; `otherwise` if none does. */
  function FirstError(native: Native, links: seq<Spent>, more: nat, otherwise: Option<Error>): Option<Error> {
    if links == [] then otherwise
    else if Resumed(native, links[0], more).Err? then Some(Resumed(native, links[0], more).error)
    else FirstError(native, links[1..], more, otherwise)
  }

  lemma {:induction false} FirstErrorJoined(native: Native, a: seq<Spent>, b: seq<Spent>, more: nat,
                                            otherwise: Option<Error>)
    ensures FirstError(native, a + b, more, otherwise)
         == FirstError(native, a, more, FirstError(native, b, more, otherwise))
  {
    if a == [] {
      assert a + b == b;
    } else {
      assert (a + b)[1..] == a[1..] + b;
      FirstErrorJoined(native, a[1..], b, more, otherwise);
    }
  }

  lemma {:induction false} FirstErrorOr(native: Native, links: seq<Spent>, more: nat, otherwise: Option<Error>)
    ensures FirstError(native, links, more, otherwise)
         == if FirstError(native, links, more, None).Some? then FirstError(native, links, more, None) else otherwise
  {
    if links != [] {
      FirstErrorOr(native, links[1..], more, otherwise);
    }
  }

  /** The error a run ends in when its spent links are resumed with `more` depth left. */
  function EndsIn(native: Native, front: Front, more: nat): Option<Error> {
    FirstError(native, front.links, more, front.failure)
  }

  lemma ThenEndsIn(native: Native, first: Front, second: Front, more: nat)
    ensures EndsIn(native, Then(first, second), more)
         == if EndsIn(native, first, more).Some? then EndsIn(native, first, more) else EndsIn(native, second, more)
  {
    FirstErrorOr(native, first.links, more, first.failure);
    if first.failure.None? {
      FirstErrorJoined(native, first.links, second.links, more, second.failure);
      FirstErrorOr(native, first.links, more, EndsIn(native, second, more));
    }
  }

  lemma OneSpentLink(native: Native, link: Spent, more: nat)
    ensures FirstError(native, [link], more, None) == ErrorOf(Resumed(native, link, more))
  {
    assert [link][1..] == [];
  }

  lemma {:induction false} PlainResumes(native: Native, v: Value, depth: nat, more: nat, path: set<Identity>)
    ensures ErrorOf(PlainOf(native, v, true, depth + more, path))
         == EndsIn(native, FrontOf(native, v, depth, path), more)
    decreases depth, 0, v
  {
    match v
    case Link(target) =>
      if depth == 0 {
        OneSpentLink(native, Spent(target, path), more);
      } else if target in native.rows {
        RecordResumes(native, target, depth - 1, more, path);
      }
    case Items(_, items) => ItemsResume(native, items, depth, more, path);
    case Dict(_, values) => ItemsResume(native, values, depth, more, path);
    case _ =>
  }

  lemma {:induction false} ItemsResume(native: Native, items: seq<Value>, depth: nat, more: nat, path: set<Identity>)
    ensures ErrorOf(ItemsOf(native, items, true, depth + more, path))
         == EndsIn(native, FrontOfItems(native, items, depth, path), more)
    decreases depth, 0, items
  {
    if items != [] {
      PlainResumes(native, items[0], depth, more, path);
      ItemsResume(native, items[1..], depth, more, path);
      ThenEndsIn(native, FrontOf(native, items[0], depth, path), FrontOfItems(native, items[1..], depth, path), more);
    }
  }

  lemma {:induction false} FieldsResume(native: Native, fields: seq<Entry>, depth: nat, more: nat,
                                        path: set<Identity>)
    ensures ErrorOf(FieldsOf(native, fields, true, depth + more, path))
         == EndsIn(native, FrontOfFields(native, fields, depth, path), more)
    decreases depth, 1, |fields|
  {
    if fields != [] {
      var v := Convert(native, fields[0].value);
      if v.Ok? {
        PlainResumes(native, v.value, depth, more, path);
        FieldsResume(native, fields[1..], depth, more, path);
        ThenEndsIn(native, FrontOf(native, v.value, depth, path), FrontOfFields(native, fields[1..], depth, path),
                   more);
      }
    }
  }

  lemma {:induction false} RecordResumes(native: Native, id: Identity, depth: nat, more: nat, path: set<Identity>)
    requires id in native.rows
    ensures ErrorOf(RecordOf(native, id, true, depth + more, path))
         == EndsIn(native, FrontOfRecord(native, id, depth, path), more)
    decreases depth, 2
  {
    if id !in path {
      FieldsResume(native, Fields(native.rows[id]), depth, more, path + {id});
    }
  }

  /**
   * Whether and how any deeper run fails: it fails at the first of the shallower run's spent links that fails
   * with the depth left over, otherwise where the shallower run fails on its own, otherwise not at all.
   */
  lemma DeeperRunResumes(native: Native, root: Identity, depth: nat, more: nat)
    requires root in native.rows
    ensures ErrorOf(ToDict(native, root, true, depth + more))
         == EndsIn(native, FrontOfRecord(native, root, depth, {}), more)
  {
    RecordResumes(native, root, depth, more, {});
  }

  /** The link at position i is the first that fails with `more` depth left. */
  ghost predicate FirstToFail(native: Native, links: seq<Spent>, more: nat, i: nat) {
    && i < |links| && Resumed(native, links[i], more).Err?
    && forall j :: 0 <= j < i ==> Resumed(native, links[j], more).Ok?
  }

  ghost predicate NoneFails(native: Native, links: seq<Spent>, more: nat) {
    forall j :: 0 <= j < |links| ==> Resumed(native, links[j], more).Ok?
  }

  lemma {:induction false} FirstErrorMeaning(native: Native, links: seq<Spent>, more: nat, otherwise: Option<Error>)
      returns (i: nat)
    ensures if NoneFails(native, links, more)
            then FirstError(native, links, more, otherwise) == otherwise
            else FirstToFail(native, links, more, i)
                 && FirstError(native, links, more, otherwise) == Some(Resumed(native, links[i], more).error)
  {
    i := 0;
    if links != [] && Resumed(native, links[0], more).Ok? {
      var rest := links[1..];
      assert forall j :: 0 < j < |links| ==> links[j] == rest[j - 1];
      var k := FirstErrorMeaning(native, rest, more, otherwise);
      assert forall j :: 0 <= j < |rest| ==> rest[j] == links[j + 1];
      i := k + 1;
    }
  }

  /** Some spent link is the first to fail with `more` depth left, and not with this error. */
  ghost predicate FailsOtherwise(native: Native, links: seq<Spent>, more: nat, e: Error) {
    exists i: nat :: FirstToFail(native, links, more, i) && Resumed(native, links[i], more) != Err(e)
  }

  /**
   * When both depths end in errors, these differ exactly when a link that the shallower run leaves spent is
   * the first to fail in the deeper one, with another error; or when none fails there, and the shallower
   * error was that of such a link.
   */
  lemma ErrorsDifferExactlyWhen(native: Native, root: Identity, d: nat, e: nat)
    requires root in native.rows && d < e
    requires ToDict(native, root, true, d).Err? && ToDict(native, root, true, e).Err?
    ensures var front, error := FrontOfRecord(native, root, d, {}), ToDict(native, root, true, d).error;
            ToDict(native, root, true, d) != ToDict(native, root, true, e)
            <==> || FailsOtherwise(native, front.links, e - d, error)
                 || (NoneFails(native, front.links, e - d) && front.failure != Some(error))
  {
    var front, more := FrontOfRecord(native, root, d, {}), e - d;
    DeeperRunResumes(native, root, d, more);
    var i := FirstErrorMeaning(native, front.links, more, front.failure);
    forall k: nat | FirstToFail(native, front.links, more, k) ensures k == i {
      assert !NoneFails(native, front.links, more);
    }
  }

  /** They can differ: a dangling link of an unknown table is refused for its table or for its target. */
  lemma ErrorsCanDiffer()
    ensures var c := Native(map[Node(0) := ChainRow(2, 0)], map[], _ => true);
            && c.Valid()
            && ToDict(c, Node(0), true, 0) == Err(UnknownTable(0))
            && ToDict(c, Node(0), true, 1) == Err(Unreadable(Node(1)))
  {
    var c := Native(map[Node(0) := ChainRow(2, 0)], map[], _ => true);
    var next := Entry("next", RawLink(Node(1)));
    ChainRows(2, 0);
    assert {} + {Node(0)} == {Node(0)};
    assert FieldsOf(c, [next], true, 0, {Node(0)}) == Err(UnknownTable(0));
    assert FieldsOf(c, [next], true, 1, {Node(0)}) == Err(Unreadable(Node(1)));
  }
}
