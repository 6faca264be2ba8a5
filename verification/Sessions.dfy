// Whole runs of a client against one Realm, with the collector striking at will.
module Sessions {
  import opened Bytes
  import opened Records
  import opened Expansion
  import opened Reader
  import opened ResultSets

  /** What a client may do; between operations it holds the records it has kept and not released. */
  datatype Op =
    | Keep(id: Identity)
    | Index(results: Results, index: int)
    | Release(ids: set<Identity>)
    | ReadField(id: Identity, name: string)
    | Dump(id: Identity, expand: bool, maxDepth: int)
    | NextOf(generator: ValidIterator)

  datatype Outcome =
    | Kept(identity: Result<Identity>)
    | Released
    | FieldRead(value: Result<Value>)
    | Dumped(plain: Result<Plain>)
    | Yielded(item: Option<Identity>, errors: seq<(nat, Error)>)

  /** Result sets and generators used by the operation are the Realm's own. */
  ghost predicate Belongs(realm: Realm, op: Op) {
    match op
    case Index(results, _) => results.realm == realm && results.Genuine()
    case NextOf(generator) => generator.results.realm == realm && generator.results.Genuine()
    case _ => true
  }

  /** The generator that the operation resumes, if any. */
  ghost function Stepped(op: Op): set<ValidIterator> {
    if op.NextOf? then {op.generator} else {}
  }

  ghost function Generators(script: seq<Op>): set<ValidIterator> {
    set i | 0 <= i < |script| && script[i].NextOf? :: script[i].generator
  }

  /** Each generator stands at an entry or at the end. */
  ghost predicate Suspended(generators: set<ValidIterator>)
    reads generators
  {
    forall g :: g in generators ==> g.position <= |g.results.entries|
  }

  /** Where each generator is suspended. */
  type Positions = map<ValidIterator, nat>

  ghost function PositionsOf(generators: set<ValidIterator>): Positions
    reads generators
  {
    map g | g in generators :: g.position
  }

  ghost function PositionIn(positions: Positions, generator: ValidIterator): nat {
    if generator in positions then positions[generator] else 0
  }

  ghost function Moved(positions: Positions, op: Op): Positions {
    if op.NextOf? then
      positions[op.generator := TurnFrom(op.generator.results.entries, PositionIn(positions, op.generator)).position]
    else positions
  }

  /** Where they are suspended after the first `i` operations. */
  ghost function PositionsAfter(script: seq<Op>, i: nat, start: Positions): Positions
    requires i <= |script|
  {
    if i == 0 then start else Moved(PositionsAfter(script, i - 1, start), script[i - 1])
  }

  function UncachedRead(native: Native, id: Identity, name: string): Result<Value> {
    if id in native.rows then FreshField(native, Fields(native.rows[id]), name) else Err(Unreadable(id))
  }

  function UncachedDump(native: Native, id: Identity, expand: bool, maxDepth: int): Result<Plain> {
    if id in native.rows then CheckedToDict(native, id, expand, maxDepth) else Err(Unreadable(id))
  }

  function UncachedTurn(generator: ValidIterator, position: nat): Outcome {
    var turn := TurnFrom(generator.results.entries, position);
    Yielded(turn.item, turn.errors)
  }

  /** The outcome of an operation read straight off the native side: no cache, no memo, no collector. */
  ghost function UncachedOutcome(native: Native, op: Op, positions: Positions): Outcome {
    match op
    case Keep(id) => Kept(if id in native.rows then Ok(id) else Err(Unreadable(id)))
    case Index(results, index) => Kept(EntryIdentity(EntryAt(results.entries, index)))
    case Release(_) => Released
    case ReadField(id, name) => FieldRead(UncachedRead(native, id, name))
    case Dump(id, expand, maxDepth) => Dumped(UncachedDump(native, id, expand, maxDepth))
    case NextOf(generator) => UncachedTurn(generator, PositionIn(positions, generator))
  }

  /** The records of `held` that the operation leaves alone. */
  function Unreleased(op: Op, held: set<Record>): set<Record> {
    if op.Release? then set r | r in held && r.id !in op.ids else held
  }

  method Step(realm: Realm, op: Op, held: set<Record>) returns (outcome: Outcome, holding: set<Record>)
    requires realm.Valid() && held <= realm.live && Belongs(realm, op) && Suspended(Stepped(op))
    modifies realm, realm.live, Stepped(op)
    ensures realm.Valid() && Unreleased(op, held) <= holding <= realm.live && Suspended(Stepped(op))
    ensures fresh(realm.live - old(realm.live))
    ensures outcome == UncachedOutcome(realm.native, op, old(PositionsOf(Stepped(op))))
    ensures PositionsOf(Stepped(op)) == Moved(old(PositionsOf(Stepped(op))), op)
  {
    match op
    case Release(ids) =>
      outcome, holding := Released, set r | r in held && r.id !in ids;
    case Keep(id) =>
      outcome, holding := KeepResolved(realm, id, held);
    case Index(results, index) =>
      outcome, holding := KeepIndexed(realm, results, index, held);
    case ReadField(id, name) =>
      holding := held;
      var v := ReadAnew(realm, id, name, held);
      outcome := FieldRead(v);
    case Dump(id, expand, maxDepth) =>
      holding := held;
      var p := DumpAnew(realm, id, expand, maxDepth, held);
      outcome := Dumped(p);
    case NextOf(generator) =>
      outcome, holding := StepGenerator(realm, generator, held);
  }

  /** The client keeps what it was given. */
  method KeepRecord(record: Result<Record>, held: set<Record>) returns (outcome: Outcome, holding: set<Record>)
    ensures outcome == Kept(if record.Ok? then Ok(record.value.id) else Err(record.error))
    ensures holding == if record.Ok? then held + {record.value} else held
  {
    match record
    case Err(e) => outcome, holding := Kept(Err(e)), held;
    case Ok(r) => outcome, holding := Kept(Ok(r.id)), held + {r};
  }

  method KeepResolved(realm: Realm, id: Identity, held: set<Record>) returns (outcome: Outcome, holding: set<Record>)
    requires realm.Valid() && held <= realm.live
    modifies realm
    ensures realm.Valid() && held <= holding <= realm.live && fresh(realm.live - old(realm.live))
    ensures outcome == Kept(if id in realm.native.rows then Ok(id) else Err(Unreadable(id)))
  {
    var record := ResolveAnew(realm, id, held);
    outcome, holding := KeepRecord(record, held);
  }

  method KeepIndexed(realm: Realm, results: Results, index: int, held: set<Record>)
      returns (outcome: Outcome, holding: set<Record>)
    requires realm.Valid() && held <= realm.live && results.realm == realm && results.Genuine()
    modifies realm
    ensures realm.Valid() && held <= holding <= realm.live && fresh(realm.live - old(realm.live))
    ensures outcome == Kept(EntryIdentity(EntryAt(results.entries, index)))
  {
    var record := results.Get(index, held);
    outcome, holding := KeepRecord(record, held);
  }

  method StepGenerator(realm: Realm, generator: ValidIterator, held: set<Record>)
      returns (outcome: Outcome, holding: set<Record>)
    requires realm.Valid() && held <= realm.live && Belongs(realm, NextOf(generator)) && Suspended({generator})
    modifies realm, generator
    ensures realm.Valid() && held <= holding <= realm.live && Suspended({generator})
    ensures fresh(realm.live - old(realm.live))
    ensures outcome == UncachedTurn(generator, old(generator.position))
    ensures generator.position == TurnFrom(generator.results.entries, old(generator.position)).position
  {
    var item, errors := generator.Next(held);
    outcome, holding := KeepItem(item, errors, held);
  }

  method KeepItem(item: Option<Record>, errors: seq<(nat, Error)>, held: set<Record>)
      returns (outcome: Outcome, holding: set<Record>)
    ensures outcome == Yielded(if item.Some? then Some(item.value.id) else None, errors)
    ensures holding == if item.Some? then held + {item.value} else held
  {
    match item
    case None => outcome, holding := Yielded(None, errors), held;
    case Some(r) => outcome, holding := Yielded(Some(r.id), errors), held + {r};
  }

  method ReadAnew(realm: Realm, id: Identity, name: string, held: set<Record>) returns (v: Result<Value>)
    requires realm.Valid() && held <= realm.live
    modifies realm, realm.live
    ensures realm.Valid() && held <= realm.live && fresh(realm.live - old(realm.live))
    ensures v == UncachedRead(realm.native, id, name)
  {
    var record := ResolveAnew(realm, id, held);
    if record.Err? {
      return Err(record.error);
    }
    v := record.value.GetItem(realm, name);
  }

  method DumpAnew(realm: Realm, id: Identity, expand: bool, maxDepth: int, held: set<Record>)
      returns (p: Result<Plain>)
    requires realm.Valid() && held <= realm.live
    modifies realm, realm.live
    ensures realm.Valid() && held <= realm.live && fresh(realm.live - old(realm.live))
    ensures p == UncachedDump(realm.native, id, expand, maxDepth)
  {
    var record := ResolveAnew(realm, id, held);
    if record.Err? {
      return Err(record.error);
    }
    p := TopToDict(realm, record.value, expand, maxDepth, held);
  }

  /** One operation's outcome and moves depend on its own generator only. */
  lemma OwnGenerator(native: Native, op: Op, own: Positions, all: Positions)
    requires Stepped(op) == own.Keys <= all.Keys && forall g :: g in own ==> own[g] == all[g]
    ensures UncachedOutcome(native, op, own) == UncachedOutcome(native, op, all)
    ensures Moved(all, op).Keys == all.Keys
    ensures forall g :: g in all ==> Moved(all, op)[g] == if g in own then Moved(own, op)[g] else all[g]
  {}

  /** The same among all generators of the client: the others stay where they are. */
  method StepAmong(realm: Realm, op: Op, held: set<Record>, ghost generators: set<ValidIterator>)
      returns (outcome: Outcome, holding: set<Record>)
    requires realm.Valid() && held <= realm.live && Belongs(realm, op)
    requires Stepped(op) <= generators && Suspended(generators)
    modifies realm, realm.live, Stepped(op)
    ensures realm.Valid() && Unreleased(op, held) <= holding <= realm.live && Suspended(generators)
    ensures fresh(realm.live - old(realm.live))
    ensures outcome == UncachedOutcome(realm.native, op, old(PositionsOf(generators)))
    ensures PositionsOf(generators) == Moved(old(PositionsOf(generators)), op)
  {
    OwnGenerator(realm.native, op, PositionsOf(Stepped(op)), PositionsOf(generators));
    outcome, holding := Step(realm, op, held);
  }

  /** Some operation of the script releases records of this identity. */
  predicate Releases(script: seq<Op>, id: Identity) {
    exists i :: 0 <= i < |script| && script[i].Release? && id in script[i].ids
  }

  /** The outcomes of the first k operations, generators resuming where the operations before have left them. */
  ghost function UncachedOutcomes(native: Native, script: seq<Op>, k: nat, start: Positions): (outcomes: seq<Outcome>)
    requires k <= |script|
    ensures |outcomes| == k
  {
    if k == 0 then []
    else
      UncachedOutcomes(native, script, k - 1, start)
      + [UncachedOutcome(native, script[k - 1], PositionsAfter(script, k - 1, start))]
  }

  /** The record that one outcome shows the generator to have yielded. */
  ghost function ItemIn(op: Op, outcome: Outcome, g: ValidIterator): seq<Identity> {
    if op == NextOf(g) && outcome.Yielded? then OneOrNone(outcome.item) else []
  }

  ghost function ErrorsIn(op: Op, outcome: Outcome, g: ValidIterator): seq<(nat, Error)> {
    if op == NextOf(g) && outcome.Yielded? then outcome.errors else []
  }

  /** All records that the generator has yielded, and all errors that it has reported. */
  ghost function ItemsIn(script: seq<Op>, outcomes: seq<Outcome>, g: ValidIterator): seq<Identity>
    requires |outcomes| <= |script|
  {
    if outcomes == [] then []
    else
      var k := |outcomes| - 1;
      ItemsIn(script, outcomes[..k], g) + ItemIn(script[k], outcomes[k], g)
  }

  ghost function AllErrorsIn(script: seq<Op>, outcomes: seq<Outcome>, g: ValidIterator): seq<(nat, Error)>
    requires |outcomes| <= |script|
  {
    if outcomes == [] then []
    else
      var k := |outcomes| - 1;
      AllErrorsIn(script, outcomes[..k], g) + ErrorsIn(script[k], outcomes[k], g)
  }

  lemma OneMoreOutcome(script: seq<Op>, outcomes: seq<Outcome>, next: Outcome, g: ValidIterator)
    requires |outcomes| < |script|
    ensures ItemsIn(script, outcomes + [next], g)
         == ItemsIn(script, outcomes, g) + ItemIn(script[|outcomes|], next, g)
    ensures AllErrorsIn(script, outcomes + [next], g)
         == AllErrorsIn(script, outcomes, g) + ErrorsIn(script[|outcomes|], next, g)
  {
    assert (outcomes + [next])[..|outcomes|] == outcomes;
  }

  /** One operation passes what it yields and reports from a generator, and nothing of any other. */
  lemma StepPasses(native: Native, op: Op, positions: Positions, g: ValidIterator)
    requires g in positions && positions[g] <= |g.results.entries|
    ensures var outcome := UncachedOutcome(native, op, positions);
            && g in Moved(positions, op)
            && Passed(g.results.entries, positions[g], Moved(positions, op)[g], ItemIn(op, outcome, g),
                      ErrorsIn(op, outcome, g))
  {
    if op == NextOf(g) {
      TurnPasses(g.results.entries, positions[g]);
    }
  }

  /** By the outcomes, the generator has gone from `from` to where it now is, missing nothing and repeating nothing. */
  ghost predicate PassedIn(script: seq<Op>, outcomes: seq<Outcome>, g: ValidIterator, from: nat, now: Positions)
    requires |outcomes| <= |script|
  {
    g in now && Passed(g.results.entries, from, now[g], ItemsIn(script, outcomes, g), AllErrorsIn(script, outcomes, g))
  }

  lemma OneMoreStep(native: Native, script: seq<Op>, outcomes: seq<Outcome>, g: ValidIterator, from: nat,
                    before: Positions)
    requires |outcomes| < |script| && PassedIn(script, outcomes, g, from, before)
    ensures var op := script[|outcomes|];
            PassedIn(script, outcomes + [UncachedOutcome(native, op, before)], g, from, Moved(before, op))
  {
    var op := script[|outcomes|];
    var next := UncachedOutcome(native, op, before);
    StepPasses(native, op, before, g);
    OneMoreOutcome(script, outcomes, next, g);
    PassedOn(g.results.entries, from, before[g], Moved(before, op)[g], ItemsIn(script, outcomes, g),
             AllErrorsIn(script, outcomes, g), ItemIn(op, next, g), ErrorsIn(op, next, g));
  }

  /**
   * A suspended generator: whatever operations stand between its steps, the records it yields over a run are
   * the readable entries it has passed, in order, and the errors it reports are the failures among them.
   */
  lemma {:induction false} SuspendedGenerator(native: Native, script: seq<Op>, start: Positions, g: ValidIterator,
                                              k: nat)
    requires g in start && start[g] <= |g.results.entries| && k <= |script|
    ensures PassedIn(script, UncachedOutcomes(native, script, k, start), g, start[g], PositionsAfter(script, k, start))
  {
    if k > 0 {
      SuspendedGenerator(native, script, start, g, k - 1);
      var before, outcomes := PositionsAfter(script, k - 1, start), UncachedOutcomes(native, script, k - 1, start);
      OneMoreStep(native, script, outcomes, g, start[g], before);
    }
  }

  /**
   * Transparency of the identity map over every run, mixing resolutions, result indexing, field reads,
   * dumps, generator steps, releases and collections: each outcome is the one an uncached read of the native
   * side gives, the map stays valid throughout, and a held record that is not released stays live.
   */
  method Run(realm: Realm, script: seq<Op>, held: set<Record>)
      returns (outcomes: seq<Outcome>, holding: set<Record>)
    requires realm.Valid() && held <= realm.live
    requires (forall i :: 0 <= i < |script| ==> Belongs(realm, script[i])) && Suspended(Generators(script))
    modifies realm, realm.live, Generators(script)
    ensures realm.Valid() && holding <= realm.live && fresh(realm.live - old(realm.live))
    ensures outcomes == UncachedOutcomes(realm.native, script, |script|, old(PositionsOf(Generators(script))))
    ensures PositionsOf(Generators(script))
         == PositionsAfter(script, |script|, old(PositionsOf(Generators(script))))
    ensures forall r :: r in held && !Releases(script, r.id) ==> r in holding
  {
    outcomes, holding := [], held;
    ghost var generators := Generators(script);
    ghost var start := PositionsOf(generators);
    for k := 0 to |script|
      invariant realm.Valid() && holding <= realm.live && fresh(realm.live - old(realm.live))
      invariant Suspended(generators) && PositionsOf(generators) == PositionsAfter(script, k, start)
      invariant outcomes == UncachedOutcomes(realm.native, script, k, start)
      invariant forall r :: r in held && !Releases(script, r.id) ==> r in holding
    {
      var outcome;
      outcome, holding := StepAmong(realm, script[k], holding, generators);
      outcomes := outcomes + [outcome];
    }
  }

  /**
   * The identity of records is stable: whatever the client and the collector do between two resolutions of
   * an identity, as long as the first record is not released the second resolution gives that very object.
   */
  method ResolveAgain(realm: Realm, id: Identity, script: seq<Op>)
      returns (first: Result<Record>, second: Result<Record>)
    requires realm.Valid() && !Releases(script, id)
    requires (forall i :: 0 <= i < |script| ==> Belongs(realm, script[i])) && Suspended(Generators(script))
    modifies realm, realm.live, Generators(script)
    ensures realm.Valid() && first == second
    ensures first.Ok? <==> id in realm.native.rows
  {
    first := realm.Resolve(id);
    var held: set<Record> := if first.Ok? then {first.value} else {};
    var outcomes, holding := Run(realm, script, held);
    second := realm.Resolve(id);
  }
}
