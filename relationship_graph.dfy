/**
  A value view of the relationship state that the `belongsTo` setter works
  on: every entity's registry (`_relationships`, field name to record) and
  every relationship record's membership (owner to the entity on the other
  side). Entities and records are identities of type `E` and `R`.

  `Detach` and `Write` describe, step by step and in the source's order,
  what one assignment to a `belongsTo` field does to that state and which
  calls it makes on the records; their postconditions and the lemmas below
  say what the assignment achieves.
 */
module RelationshipGraph {
  import opened Wrappers
  import opened Metadata

  /** One entity's `_relationships`; a null and a missing slot are both an absent key. */
  type Registry<R> = map<FieldName, R>

  datatype Graph<E, R> = Graph(registries: map<E, Registry<R>>, records: map<R, map<E, E>>)

  /** A call the setter makes on a record or on the model, in order. */
  datatype Call<E, R> =
    | Removed(rec: R, owner: E)                 // rec.removeRecord(owner)
    | Created(rec: R)                           // DS.createRelationshipFor(...) returned rec
    | AskedInverse(key: FieldName)              // this.inverseFor(key)
    | Added(rec: R, owner: E, related: E)       // rec.addRecord(owner, related)

  /** The state after (part of) a write, and the calls made to get there. */
  datatype Step<E, R> = Step(graph: Graph<E, R>, calls: seq<Call<E, R>>)

  function RegistryOf<E(==), R(==)>(g: Graph<E, R>, e: E): (reg: Registry<R>)
  {
    if e in g.registries then g.registries[e] else map[]
  }

  function MembersOf<E(==), R(==)>(g: Graph<E, R>, rec: R): (m: map<E, E>)
  {
    if rec in g.records then g.records[rec] else map[]
  }

  /** `e._relationships[key]`, `None` when it is falsy. */
  function Slot<E(==), R(==)>(g: Graph<E, R>, e: E, key: FieldName): (s: Option<R>)
  {
    var reg := RegistryOf(g, e);
    if key in reg then Some(reg[key]) else None
  }

  /** `rec.getOtherSideFor(owner)`. */
  function OtherSide<E(==), R(==)>(g: Graph<E, R>, rec: R, owner: E): (o: Option<E>)
  {
    var m := MembersOf(g, rec);
    if owner in m then Some(m[owner]) else None
  }

  /** The getter: the other side of the record held under `key`, or null without one. */
  function Read<E(==), R(==)>(g: Graph<E, R>, e: E, key: FieldName): (r: Option<E>)
  {
    match Slot(g, e, key)
    case None => None
    case Some(rec) => OtherSide(g, rec, e)
  }

  /** `e._relationships[key] = rec`. */
  function Assign<E(==), R(==)>(g: Graph<E, R>, e: E, key: FieldName, rec: R): (h: Graph<E, R>)
  {
    g.(registries := g.registries[e := RegistryOf(g, e)[key := rec]])
  }

  /** A fresh record with no members, as `DS.createRelationshipFor` returns it. */
  function Create<E(==), R(==)>(g: Graph<E, R>, rec: R): (h: Graph<E, R>)
  {
    g.(records := g.records[rec := map[]])
  }

  /** `rec.addRecord(owner, related)`. */
  function AddRecord<E(==), R(==)>(g: Graph<E, R>, rec: R, owner: E, related: E): (h: Graph<E, R>)
  {
    g.(records := g.records[rec := MembersOf(g, rec)[owner := related]])
  }

  /** `rec.removeRecord(owner)`. */
  function RemoveRecord<E(==), R(==)>(g: Graph<E, R>, rec: R, owner: E): (h: Graph<E, R>)
  {
    g.(records := g.records[rec := MembersOf(g, rec) - {owner}])
  }

  /**
    The first step of every write (lines 67-69): leave the record currently
    held under `key`, if any. This is all that a write of a falsy value does.
    The slot itself keeps pointing at the record; only the membership changes.
   */
  function Detach<E(==), R(==)>(g: Graph<E, R>, self: E, key: FieldName): (s: Step<E, R>)
    ensures s.graph.registries == g.registries
    ensures Slot(g, self, key).None? ==> s == Step(g, [])
    ensures Slot(g, self, key).Some? ==> s.calls == [Removed(Slot(g, self, key).value, self)]
    ensures Read(s.graph, self, key).None?
    ensures forall e, f | e in g.registries && e != self :: Read(s.graph, e, f) == Read(g, e, f)
  {
    match Slot(g, self, key)
    case None => Step(g, [])
    case Some(held) => Step(RemoveRecord(g, held, self), [Removed(held, self)])
  }

  /**
    The record that line 77 finds on the inverse side. By then the owner's
    slot `key` already holds the fresh record, so when the value is the owner
    itself and the inverse field is `key`, the fresh record is what is found.
   */
  function Found<E(==), R(==)>(g: Graph<E, R>, self: E, key: FieldName, value: E, newRec: R, inverse: FieldName): (found: Option<R>)
  {
    if value == self && inverse == key then Some(newRec) else Slot(g, value, inverse)
  }

  /** True when the write installs the fresh record on the value's side (lines 80-84). */
  predicate Installs<E(==), R(==)>(g: Graph<E, R>, self: E, key: FieldName, value: E, newRec: R, inverse: Option<FieldName>)
  {
    inverse.Some? && Found(g, self, key, value, newRec, inverse.value).None?
  }

  /** The record the owner's slot holds after the write: the one found on the inverse side, or the fresh one. */
  function Target<E(==), R(==)>(g: Graph<E, R>, self: E, key: FieldName, value: E, newRec: R, inverse: Option<FieldName>): (t: R)
  {
    if inverse.Some? && Found(g, self, key, value, newRec, inverse.value).Some?
    then Found(g, self, key, value, newRec, inverse.value).value
    else newRec
  }

  /**
    A write of a non-null `value` to the `belongsTo` field `key` of `self`
    (lines 67-88): detach, store the fresh record `newRec`, look up the inverse
    field `inverse`, reuse the value's record under it or install the fresh
    one there (adding the value to it), then add the owner to the record its
    slot holds.
   */
  function Write<E(==), R(==)>(g: Graph<E, R>, self: E, key: FieldName, value: E, newRec: R, inverse: Option<FieldName>): (s: Step<E, R>)
  {
    var d := Detach(g, self, key);
    var s2 := Store(d.graph, self, key, newRec);
    var s3 := Reconcile(s2.graph, self, key, value, inverse);
    var s4 := AddOwner(s3.graph, self, key, value);
    Step(s4.graph, d.calls + s2.calls + [AskedInverse(key)] + s3.calls + s4.calls)
  }

  /** Lines 71-72: the owner's slot `key` gets the fresh record. */
  function Store<E(==), R(==)>(g: Graph<E, R>, self: E, key: FieldName, newRec: R): (s: Step<E, R>)
  {
    Step(Assign(Create(g, newRec), self, key, newRec), [Created(newRec)])
  }

  /**
    Lines 76-85: with an inverse field, reuse the record the value holds
    under it, or install the owner's record there and add the value to it.
   */
  function Reconcile<E(==), R(==)>(g: Graph<E, R>, self: E, key: FieldName, value: E, inverse: Option<FieldName>): (s: Step<E, R>)
    requires Slot(g, self, key).Some?
  {
    if inverse.None? then Step(g, [])
    else match Slot(g, value, inverse.value)
      case Some(existing) => Step(Assign(g, self, key, existing), [])
      case None =>
        var mine := Slot(g, self, key).value;
        Step(AddRecord(Assign(g, value, inverse.value, mine), mine, value, self), [Added(mine, value, self)])
  }

  /** Line 87: the owner is added to the record its slot holds. */
  function AddOwner<E(==), R(==)>(g: Graph<E, R>, self: E, key: FieldName, value: E): (s: Step<E, R>)
    requires Slot(g, self, key).Some?
  {
    var target := Slot(g, self, key).value;
    Step(AddRecord(g, target, self, value), [Added(target, self, value)])
  }

  /**
    The record a write leaves in the two slots it is about: the owner's slot
    `key` holds the record found under the value's inverse field, or else the
    fresh one; with an inverse field the value's slot holds that same record,
    so both sides share one record.
   */
  lemma WriteSharesRecord<E, R>(g: Graph<E, R>, self: E, key: FieldName, value: E, newRec: R, inverse: Option<FieldName>)
    ensures var s := Write(g, self, key, value, newRec, inverse);
      && Slot(s.graph, self, key) == Some(Target(g, self, key, value, newRec, inverse))
      && (inverse.Some? ==> Slot(s.graph, value, inverse.value) == Slot(s.graph, self, key))
      && (!Installs(g, self, key, value, newRec, inverse) && inverse.Some? ==>
            Slot(s.graph, self, key) == Found(g, self, key, value, newRec, inverse.value))
      && (Installs(g, self, key, value, newRec, inverse) ==> Slot(s.graph, self, key) == Some(newRec))
  {
    var d := Detach(g, self, key);
    var s2 := Store(d.graph, self, key, newRec);
    StoreSlot(d.graph, self, key, newRec, self, key);
    ReconcileSlot(s2.graph, self, key, value, inverse, self, key);
    if inverse.Some? {
      StoreSlot(d.graph, self, key, newRec, value, inverse.value);
      ReconcileSlot(s2.graph, self, key, value, inverse, value, inverse.value);
    }
  }

  /**
    The slots a write leaves alone: every slot other than the owner's slot
    `key`, and the value's inverse slot when the fresh record is installed
    there. With no inverse field only the owner's slot changes.
   */
  lemma WriteKeepsOtherSlots<E, R>(g: Graph<E, R>, self: E, key: FieldName, value: E, newRec: R, inverse: Option<FieldName>)
    ensures var s := Write(g, self, key, value, newRec, inverse);
      forall e, f | !(e == self && f == key) &&
                    !(Installs(g, self, key, value, newRec, inverse) && e == value && f == inverse.value) ::
        Slot(s.graph, e, f) == Slot(g, e, f)
  {
    var d := Detach(g, self, key);
    var s2 := Store(d.graph, self, key, newRec);
    forall e, f | !(e == self && f == key) &&
                  !(Installs(g, self, key, value, newRec, inverse) && e == value && f == inverse.value)
      ensures Slot(Write(g, self, key, value, newRec, inverse).graph, e, f) == Slot(g, e, f)
    {
      StoreSlot(d.graph, self, key, newRec, e, f);
      ReconcileSlot(s2.graph, self, key, value, inverse, e, f);
    }
  }

  lemma StoreSlot<E, R>(g: Graph<E, R>, self: E, key: FieldName, newRec: R, e: E, f: FieldName)
    ensures Slot(Store(g, self, key, newRec).graph, e, f) == if e == self && f == key then Some(newRec) else Slot(g, e, f)
  {
  }

  lemma ReconcileSlot<E, R>(g: Graph<E, R>, self: E, key: FieldName, value: E, inverse: Option<FieldName>, e: E, f: FieldName)
    requires Slot(g, self, key).Some?
    ensures Slot(Reconcile(g, self, key, value, inverse).graph, e, f) ==
      if inverse.None? then Slot(g, e, f)
      else if Slot(g, value, inverse.value).Some? then (if e == self && f == key then Slot(g, value, inverse.value) else Slot(g, e, f))
      else if e == value && f == inverse.value then Slot(g, self, key)
      else Slot(g, e, f)
  {
  }

  /**
    What a write does to the memberships: the owner is added to the record
    its slot ends up holding, the value is added to the fresh record when it
    is installed on the value's side, the fresh record starts empty, and the
    owner leaves the record it held before. Nothing else changes.
   */
  lemma WriteOtherSide<E, R>(g: Graph<E, R>, self: E, key: FieldName, value: E, newRec: R, inverse: Option<FieldName>, r: R, x: E)
    ensures OtherSide(Write(g, self, key, value, newRec, inverse).graph, r, x) ==
      if r == Target(g, self, key, value, newRec, inverse) && x == self then Some(value)
      else if r == newRec && x == value && Installs(g, self, key, value, newRec, inverse) then Some(self)
      else if r == newRec then None
      else if x == self && Slot(g, self, key) == Some(r) then None
      else OtherSide(g, r, x)
  {
    var d := Detach(g, self, key);
    var s2 := Store(d.graph, self, key, newRec);
    var s3 := Reconcile(s2.graph, self, key, value, inverse);
    StoreSlot(d.graph, self, key, newRec, self, key);
    if inverse.Some? {
      StoreSlot(d.graph, self, key, newRec, value, inverse.value);
    }
    ReconcileSlot(s2.graph, self, key, value, inverse, self, key);
    assert Slot(s3.graph, self, key) == Some(Target(g, self, key, value, newRec, inverse));
    DetachOtherSide(g, self, key, r, x);
    StoreOtherSide(d.graph, self, key, newRec, r, x);
    ReconcileOtherSide(s2.graph, self, key, value, inverse, r, x);
    AddOwnerOtherSide(s3.graph, self, key, value, r, x);
    assert Write(g, self, key, value, newRec, inverse).graph == AddOwner(s3.graph, self, key, value).graph;
  }

  lemma DetachOtherSide<E, R>(g: Graph<E, R>, self: E, key: FieldName, r: R, x: E)
    ensures OtherSide(Detach(g, self, key).graph, r, x) ==
      if x == self && Slot(g, self, key) == Some(r) then None else OtherSide(g, r, x)
  {
  }

  lemma StoreOtherSide<E, R>(g: Graph<E, R>, self: E, key: FieldName, newRec: R, r: R, x: E)
    ensures OtherSide(Store(g, self, key, newRec).graph, r, x) == if r == newRec then None else OtherSide(g, r, x)
  {
  }

  lemma ReconcileOtherSide<E, R>(g: Graph<E, R>, self: E, key: FieldName, value: E, inverse: Option<FieldName>, r: R, x: E)
    requires Slot(g, self, key).Some?
    ensures OtherSide(Reconcile(g, self, key, value, inverse).graph, r, x) ==
      if inverse.Some? && Slot(g, value, inverse.value).None? && r == Slot(g, self, key).value && x == value
      then Some(self) else OtherSide(g, r, x)
  {
  }

  lemma AddOwnerOtherSide<E, R>(g: Graph<E, R>, self: E, key: FieldName, value: E, r: R, x: E)
    requires Slot(g, self, key).Some?
    ensures OtherSide(AddOwner(g, self, key, value).graph, r, x) ==
      if r == Slot(g, self, key).value && x == self then Some(value) else OtherSide(g, r, x)
  {
  }

  /**
    What the owner and the value read after a write: the owner reads the
    value, and when the record was installed on the value's side, the value
    reads the owner back through its inverse field.
   */
  lemma WriteReads<E, R>(g: Graph<E, R>, self: E, key: FieldName, value: E, newRec: R, inverse: Option<FieldName>)
    ensures var s := Write(g, self, key, value, newRec, inverse);
      && Read(s.graph, self, key) == Some(value)
      && (Installs(g, self, key, value, newRec, inverse) ==> Read(s.graph, value, inverse.value) == Some(self))
  {
    WriteSharesRecord(g, self, key, value, newRec, inverse);
    var t := Target(g, self, key, value, newRec, inverse);
    WriteOtherSide(g, self, key, value, newRec, inverse, t, self);
    if Installs(g, self, key, value, newRec, inverse) {
      WriteOtherSide(g, self, key, value, newRec, inverse, newRec, value);
    }
  }

  /**
    The calls a write makes, in order: first the detach from the record held
    before (if any), then the creation of the fresh record and the inverse
    lookup; then `addRecord(value, owner)` only when the record is installed
    on the value's side, and last `addRecord(owner, value)` on the record the
    owner's slot holds.
   */
  lemma WriteCalls<E, R>(g: Graph<E, R>, self: E, key: FieldName, value: E, newRec: R, inverse: Option<FieldName>)
    ensures var s := Write(g, self, key, value, newRec, inverse);
      && (Installs(g, self, key, value, newRec, inverse) ==>
            s.calls == Detach(g, self, key).calls + [Created(newRec), AskedInverse(key), Added(newRec, value, self), Added(newRec, self, value)])
      && (!Installs(g, self, key, value, newRec, inverse) ==>
            s.calls == Detach(g, self, key).calls + [Created(newRec), AskedInverse(key), Added(Target(g, self, key, value, newRec, inverse), self, value)])
  {
    WriteSharesRecord(g, self, key, value, newRec, inverse);
  }

  // ---------------------------------------------------------------------
  // Consistency of the relationship state

  /** Every record a registry slot holds is a known record. */
  ghost predicate Closed<E, R>(g: Graph<E, R>)
  {
    forall e, k | e in g.registries && k in g.registries[e] :: g.registries[e][k] in g.records
  }

  /** `e` holds `rec` under some field of its registry. */
  ghost predicate Holds<E, R>(g: Graph<E, R>, e: E, rec: R)
  {
    exists k :: Slot(g, e, k) == Some(rec)
  }

  /**
    No orphaned membership: whoever is a member of a record holds that record
    in its own registry, and both ends of every membership are known entities.
   */
  ghost predicate Witnessed<E, R>(g: Graph<E, R>)
  {
    forall rec, e | rec in g.records && e in g.records[rec] ::
      e in g.registries && g.records[rec][e] in g.registries && Holds(g, e, rec)
  }

  ghost predicate Valid<E, R>(g: Graph<E, R>)
  {
    Closed(g) && Witnessed(g)
  }

  lemma DetachPreservesValid<E, R>(g: Graph<E, R>, self: E, key: FieldName)
    requires Valid(g)
    ensures Valid(Detach(g, self, key).graph)
  {
    var g' := Detach(g, self, key).graph;
    forall rec, e | rec in g'.records && e in g'.records[rec]
      ensures e in g'.registries && g'.records[rec][e] in g'.registries && Holds(g', e, rec)
    {
      assert e in g.records[rec] && g'.records[rec][e] == g.records[rec][e];
      var k :| Slot(g, e, k) == Some(rec);
      assert Slot(g', e, k) == Some(rec);
    }
  }

  lemma CreatePreservesValid<E, R>(g: Graph<E, R>, rec: R)
    requires Valid(g)
    ensures Valid(Create(g, rec))
  {
    var g' := Create(g, rec);
    forall r, e | r in g'.records && e in g'.records[r]
      ensures e in g'.registries && g'.records[r][e] in g'.registries && Holds(g', e, r)
    {
      var k :| Slot(g, e, k) == Some(r);
      assert Slot(g', e, k) == Some(r);
    }
  }

  /** Leaving the held record and storing a known record keeps every held record known. */
  lemma StoreKeepsClosed<E, R>(g: Graph<E, R>, self: E, key: FieldName, newRec: R)
    requires Closed(g)
    ensures Closed(Store(Detach(g, self, key).graph, self, key, newRec).graph)
  {
  }

  /** Overwriting a slot is harmless when its owner is not a member of the record it held. */
  lemma AssignPreservesValid<E, R>(g: Graph<E, R>, e: E, key: FieldName, rec: R)
    requires Valid(g) && rec in g.records
    requires Slot(g, e, key).None? || e !in MembersOf(g, Slot(g, e, key).value)
    ensures Valid(Assign(g, e, key, rec))
  {
    var g' := Assign(g, e, key, rec);
    forall r, x | r in g'.records && x in g'.records[r]
      ensures x in g'.registries && g'.records[r][x] in g'.registries && Holds(g', x, r)
    {
      var k :| Slot(g, x, k) == Some(r);
      assert !(x == e && k == key);
      assert Slot(g', x, k) == Some(r);
    }
  }

  /** Adding a member is harmless when the member holds the record and both ends are known. */
  lemma AddRecordPreservesValid<E, R>(g: Graph<E, R>, rec: R, owner: E, related: E)
    requires Valid(g) && rec in g.records
    requires Holds(g, owner, rec) && owner in g.registries && related in g.registries
    ensures Valid(AddRecord(g, rec, owner, related))
  {
    var g' := AddRecord(g, rec, owner, related);
    forall r, x | r in g'.records && x in g'.records[r]
      ensures x in g'.registries && g'.records[r][x] in g'.registries && Holds(g', x, r)
    {
      if r == rec && x == owner {
        var k :| Slot(g, owner, k) == Some(rec);
        assert Slot(g', owner, k) == Some(rec);
      } else {
        var k :| Slot(g, x, k) == Some(r);
        assert Slot(g', x, k) == Some(r);
      }
    }
  }

  /**
    A write keeps the state consistent: it never leaves an entity a member of
    a record it does not hold, whatever record `createRelationshipFor` hands out.
   */
  lemma WritePreservesValid<E, R>(g: Graph<E, R>, self: E, key: FieldName, value: E, newRec: R, inverse: Option<FieldName>)
    requires Valid(g) && self in g.registries && value in g.registries
    ensures Valid(Write(g, self, key, value, newRec, inverse).graph)
  {
    var d := Detach(g, self, key);
    DetachPreservesValid(g, self, key);
    var g1 := Create(d.graph, newRec);
    CreatePreservesValid(d.graph, newRec);
    var g2 := Assign(g1, self, key, newRec);
    AssignPreservesValid(g1, self, key, newRec);
    var s3g: Graph<E, R>;
    if inverse.None? {
      s3g := g2;
    } else {
      match Slot(g2, value, inverse.value)
      case Some(existing) =>
        assert existing in g2.records;
        AssignPreservesValid(g2, self, key, existing);
        s3g := Assign(g2, self, key, existing);
      case None =>
        var g3 := Assign(g2, value, inverse.value, newRec);
        AssignPreservesValid(g2, value, inverse.value, newRec);
        assert Slot(g3, value, inverse.value) == Some(newRec);
        AddRecordPreservesValid(g3, newRec, value, self);
        s3g := AddRecord(g3, newRec, value, self);
    }
    var target := Slot(s3g, self, key).value;
    assert Slot(s3g, self, key) == Some(target);
    AddRecordPreservesValid(s3g, target, self, value);
    assert Write(g, self, key, value, newRec, inverse).graph == AddRecord(s3g, target, self, value);
  }

  /** A record nobody holds and nobody is a member of. */
  ghost predicate Unused<E, R>(g: Graph<E, R>, rec: R)
  {
    Closed(g) && rec !in g.records
  }

  /**
    A write leaves every other entity's reads as they were: only the owner's
    reads, and the value's read of the inverse field when the record is
    installed there, can change.
   */
  lemma WriteKeepsOtherReads<E, R>(g: Graph<E, R>, self: E, key: FieldName, value: E, newRec: R, inverse: Option<FieldName>)
    requires Unused(g, newRec)
    ensures var w := Write(g, self, key, value, newRec, inverse).graph;
      forall e, f | e in g.registries && e != self && !(Installs(g, self, key, value, newRec, inverse) && e == value && f == inverse.value) ::
        Read(w, e, f) == Read(g, e, f)
  {
    var w := Write(g, self, key, value, newRec, inverse).graph;
    forall e, f | e in g.registries && e != self && !(Installs(g, self, key, value, newRec, inverse) && e == value && f == inverse.value)
      ensures Read(w, e, f) == Read(g, e, f)
    {
      WriteKeepsOtherSlots(g, self, key, value, newRec, inverse);
      assert Slot(w, e, f) == Slot(g, e, f);
      if Slot(g, e, f).Some? {
        var r := Slot(g, e, f).value;
        assert r in g.records;
        WriteOtherSide(g, self, key, value, newRec, inverse, r, e);
      }
    }
  }

  /**
    Writing the same value twice in a row (each write with its own new
    record) leaves every read as the first write left it: the second write
    detaches and attaches again, and where it does not fall back on the
    record the first write put in place it only leaves a record nobody reads.
   */
  lemma RewriteSameValue<E, R>(g: Graph<E, R>, self: E, key: FieldName, value: E, r1: R, r2: R, inverse: Option<FieldName>)
    requires Unused(g, r1) && r2 !in g.records && r1 != r2
    requires self in g.registries && value in g.registries
    ensures var w1 := Write(g, self, key, value, r1, inverse).graph;
      forall e, f | e in g.registries :: Read(Write(w1, self, key, value, r2, inverse).graph, e, f) == Read(w1, e, f)
  {
    forall e, f | e in g.registries
      ensures Read(Write(Write(g, self, key, value, r1, inverse).graph, self, key, value, r2, inverse).graph, e, f) ==
              Read(Write(g, self, key, value, r1, inverse).graph, e, f)
    {
      RewriteSameValueAt(g, self, key, value, r1, r2, inverse, e, f);
    }
  }

  /** `RewriteSameValue` for the read of one field `f` of one entity `e`. */
  lemma RewriteSameValueAt<E, R>(g: Graph<E, R>, self: E, key: FieldName, value: E, r1: R, r2: R, inverse: Option<FieldName>, e: E, f: FieldName)
    requires Unused(g, r1) && r2 !in g.records && r1 != r2
    requires self in g.registries && value in g.registries && e in g.registries
    ensures var w1 := Write(g, self, key, value, r1, inverse).graph;
      Read(Write(w1, self, key, value, r2, inverse).graph, e, f) == Read(w1, e, f)
  {
    var w1 := Write(g, self, key, value, r1, inverse).graph;
    var w2 := Write(w1, self, key, value, r2, inverse).graph;
    if e == self && f == key {
      WriteReads(g, self, key, value, r1, inverse);
      WriteReads(w1, self, key, value, r2, inverse);
    } else {
      RewriteShape(g, self, key, value, r1, r2, inverse);
      WriteKeepsOtherSlots(w1, self, key, value, r2, inverse);
      assert Slot(w2, e, f) == Slot(w1, e, f);
      if Slot(w1, e, f).Some? {
        var r := Slot(w1, e, f).value;
        WriteKeepsOtherSlots(g, self, key, value, r1, inverse);
        assert r == r1 || Slot(g, e, f) == Some(r);
        WriteOtherSide(w1, self, key, value, r2, inverse, r, e);
      }
    }
  }

  /**
    How the second of two writes of the same value sees the first: it
    installs nothing (with an inverse field it finds on the value's side the
    record the first write left there; with none there is nothing to
    install), and it ends on the
    record the first write left the owner holding, or else (with no inverse
    field, or when the inverse field is `key` of the owner itself) on its own
    fresh record, the first fresh record being then held nowhere else.
   */
  lemma RewriteShape<E, R>(g: Graph<E, R>, self: E, key: FieldName, value: E, r1: R, r2: R, inverse: Option<FieldName>)
    ensures var w1 := Write(g, self, key, value, r1, inverse).graph;
      var t1 := Target(g, self, key, value, r1, inverse);
      var t2 := Target(w1, self, key, value, r2, inverse);
      && !Installs(w1, self, key, value, r2, inverse)
      && Slot(w1, self, key) == Some(t1)
      && OtherSide(w1, t1, self) == Some(value)
      && (t1 != t2 ==> t1 == r1 && t2 == r2 && !Installs(g, self, key, value, r1, inverse))
  {
    var w1 := Write(g, self, key, value, r1, inverse).graph;
    WriteSharesRecord(g, self, key, value, r1, inverse);
    WriteReads(g, self, key, value, r1, inverse);
  }
}
