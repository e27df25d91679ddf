/**
  The `belongsTo` accessor of a model instance, as objects on the heap: each
  `Entity` keeps its registry `_relationships` (field name to relationship
  record) and its log of property-change notifications; each `Relationship`
  record keeps its membership (owner to the entity on its other side).

  `SetBelongsTo` is the computed property's setter, `GetBelongsTo` its
  getter, and `NotifyBelongsToAdded` / `NotifyBelongsToRemoved` the two hooks
  the model offers to records. The setter is proved to do to the heap exactly
  what `RelationshipGraph.Detach` and `RelationshipGraph.Write` describe, read
  through `Snapshot`, so the lemmas of that module apply to it.
 */
module BelongsTo {
  import opened Wrappers
  import opened Metadata
  import G = RelationshipGraph

  /**
    A relationship record as `DS.createRelationshipFor` returns it. Its
    implementation is not part of this model; it is represented by the
    membership it keeps: `addRecord(owner, related)` puts `related` on the
    other side for `owner`, `removeRecord(owner)` takes `owner` out, and
    `getOtherSideFor(owner)` reports what is on the other side for `owner`.
   */
  class Relationship {
    const owner: Entity
    const meta: Meta
    var members: map<Entity, Entity>

    constructor (owner: Entity, meta: Meta)
      ensures this.owner == owner && this.meta == meta
      ensures members == map[]
    {
      this.owner := owner;
      this.meta := meta;
      members := map[];
    }

    /** `addRecord(record, other)`; `c` is the entry this call adds to the log of calls. */
    method AddRecord(record: Entity, other: Entity) returns (c: G.Call<Entity, Relationship>)
      modifies this
      ensures members == old(members)[record := other]
      ensures c == G.Added(this, record, other)
    {
      members := members[record := other];
      c := G.Added(this, record, other);
    }

    /** `removeRecord(record)`; `c` is the entry this call adds to the log of calls. */
    method RemoveRecord(record: Entity) returns (c: G.Call<Entity, Relationship>)
      modifies this
      ensures members == old(members) - {record}
      ensures c == G.Removed(this, record)
    {
      members := members - {record};
      c := G.Removed(this, record);
    }

    function OtherSideFor(record: Entity): (r: Entity?)
      reads this
    {
      if record in members then members[record] else null
    }
  }

  /** A model instance with its relationship registry. */
  class Entity {
    const modelType: TypeName
    /** `_relationships`; a slot set to null is an absent key. */
    var relationships: map<FieldName, Relationship>
    /** The keys passed to `notifyPropertyChange`, in order. */
    var changes: seq<FieldName>

    constructor (modelType: TypeName)
      ensures this.modelType == modelType
      ensures relationships == map[] && changes == []
    {
      this.modelType := modelType;
      relationships := map[];
      changes := [];
    }

    /**
      The getter (lines 93-97): the other side of the record held under `key`
      for this entity, or null when no record is held. It changes nothing.
     */
    method GetBelongsTo(key: FieldName) returns (r: Entity?)
      ensures r != null <==> key in relationships && this in relationships[key].members
      ensures r != null ==> r == relationships[key].members[this]
    {
      if key in relationships {
        r := relationships[key].OtherSideFor(this);
      } else {
        r := null;
      }
    }

    /**
      The setter (lines 64-91) of the `belongsTo` field `key` declared by
      `DS.belongsTo(relatedType, options)`, with `inverses` standing for
      `this.inverseFor`. `U` and `Rs` are
      the entities and records the caller knows of; every record an entity of
      `U` holds must be among `Rs`. Returns the value written, the calls made,
      and the record created (null for a falsy value).
     */
    method SetBelongsTo(key: FieldName, value: Entity?, relatedType: TypeName, options: Option<Options>, inverses: InverseTable,
                        ghost U: set<Entity>, ghost Rs: set<Relationship>)
      returns (r: Entity?, calls: seq<G.Call<Entity, Relationship>>, ghost created: Relationship?)
      requires this in U && (value != null ==> value in U)
      requires G.Closed(Snapshot(U, Rs))
      modifies U`relationships, Rs
      ensures r == value
      ensures value == null ==> created == null
      ensures value == null ==>
                Snapshot(U, Rs) == G.Detach(old(Snapshot(U, Rs)), this, key).graph &&
                calls == G.Detach(old(Snapshot(U, Rs)), this, key).calls
      ensures value != null ==> created != null && fresh(created) && created.owner == this
      ensures value != null ==> created.meta == BelongsToMeta(relatedType, options)
      ensures value != null ==>
                Snapshot(U, Rs + {created}) == G.Write(old(Snapshot(U, Rs)), this, key, value, created, InverseFor(inverses, modelType, key)).graph &&
                calls == G.Write(old(Snapshot(U, Rs)), this, key, value, created, InverseFor(inverses, modelType, key)).calls
      ensures value == null && G.Valid(old(Snapshot(U, Rs))) ==> G.Valid(Snapshot(U, Rs))
      ensures value != null && G.Valid(old(Snapshot(U, Rs))) ==> G.Valid(Snapshot(U, Rs + {created}))
    {
      ghost var g0 := Snapshot(U, Rs);
      var left := LeaveHeldRecord(key, U, Rs);
      calls := left;
      created := null;
      if value != null {
        ghost var g1 := Snapshot(U, Rs);
        var meta := BelongsToMeta(relatedType, options);
        var newRec, stored := StoreFreshRecord(key, meta, U, Rs);
        ghost var Rs1 := Rs + {newRec};
        ghost var g2 := Snapshot(U, Rs1);
        G.StoreKeepsClosed(g0, this, key, newRec);
        var inverse := InverseFor(inverses, modelType, key);
        var asked := [G.AskedInverse(key)];
        var linked := ReconcileInverse(key, value, inverse, U, Rs1);
        ghost var g3 := Snapshot(U, Rs1);
        var joined := JoinRecord(key, value, U, Rs1);
        assert Snapshot(U, Rs1) == G.AddOwner(g3, this, key, value).graph;
        calls := left + stored + asked + linked + joined;
        created := newRec;
        if G.Valid(g0) {
          G.WritePreservesValid(g0, this, key, value, newRec, inverse);
        }
      } else if G.Valid(g0) {
        G.DetachPreservesValid(g0, this, key);
      }
      r := value;
    }

    /** Lines 67-69: leave the record held under `key`, if any. */
    method LeaveHeldRecord(key: FieldName, ghost U: set<Entity>, ghost Rs: set<Relationship>)
      returns (calls: seq<G.Call<Entity, Relationship>>)
      requires this in U && G.Closed(Snapshot(U, Rs))
      modifies Rs
      ensures Snapshot(U, Rs) == G.Detach(old(Snapshot(U, Rs)), this, key).graph
      ensures calls == G.Detach(old(Snapshot(U, Rs)), this, key).calls
    {
      calls := [];
      if key in relationships {
        var held := relationships[key];
        assert Snapshot(U, Rs).registries[this][key] == held;  // so held is among Rs
        var c := held.RemoveRecord(this);
        calls := [c];
      }
    }

    /** Lines 71-72: store a fresh record, made by `createRelationshipFor`, under `key`. */
    method StoreFreshRecord(key: FieldName, meta: Meta, ghost U: set<Entity>, ghost Rs: set<Relationship>)
      returns (newRec: Relationship, calls: seq<G.Call<Entity, Relationship>>)
      requires this in U
      modifies this`relationships
      ensures fresh(newRec) && newRec.meta == meta && newRec.owner == this
      ensures Snapshot(U, Rs + {newRec}) == G.Store(old(Snapshot(U, Rs)), this, key, newRec).graph
      ensures calls == G.Store(old(Snapshot(U, Rs)), this, key, newRec).calls
    {
      ghost var g0 := Snapshot(U, Rs);
      newRec := new Relationship(this, meta);
      relationships := relationships[key := newRec];
      calls := [G.Created(newRec)];
      ghost var g1 := Snapshot(U, Rs + {newRec});
      assert g1.registries == g0.registries[this := old(relationships)[key := newRec]];
      assert g1.records == g0.records[newRec := map[]];
    }

    /** Lines 76-85: reuse the value's record under the inverse field, or install this one there. */
    method ReconcileInverse(key: FieldName, value: Entity, inverse: Option<FieldName>, ghost U: set<Entity>, ghost Rs: set<Relationship>)
      returns (calls: seq<G.Call<Entity, Relationship>>)
      requires this in U && value in U && G.Closed(Snapshot(U, Rs)) && key in relationships
      modifies this`relationships, value`relationships, relationships[key]
      ensures Snapshot(U, Rs) == G.Reconcile(old(Snapshot(U, Rs)), this, key, value, inverse).graph
      ensures calls == G.Reconcile(old(Snapshot(U, Rs)), this, key, value, inverse).calls
      ensures key in relationships && relationships[key] in Rs
    {
      ghost var g0 := Snapshot(U, Rs);
      assert g0.registries[this][key] == relationships[key];  // so it is among Rs
      calls := [];
      if inverse.Some? {
        if inverse.value in value.relationships {
          assert g0.registries[value][inverse.value] == value.relationships[inverse.value];  // so it is among Rs
          ShareInverseRecord(key, value, inverse.value, U, Rs);
        } else {
          calls := InstallOnInverse(key, value, inverse.value, U, Rs);
        }
      }
    }

    /** Lines 77-79: the value already holds a record under the inverse field; hold that one too. */
    method ShareInverseRecord(key: FieldName, value: Entity, inverse: FieldName, ghost U: set<Entity>, ghost Rs: set<Relationship>)
      requires this in U && value in U && inverse in value.relationships
      modifies this`relationships
      ensures Snapshot(U, Rs) == G.Assign(old(Snapshot(U, Rs)), this, key, old(value.relationships[inverse]))
    {
      ghost var g0 := Snapshot(U, Rs);
      var existing := value.relationships[inverse];
      relationships := relationships[key := existing];
      assert Registries(U) == g0.registries[this := old(relationships)[key := existing]];
    }

    /** Lines 80-84: put the record held under `key` on the value's side and add the value to it. */
    method InstallOnInverse(key: FieldName, value: Entity, inverse: FieldName, ghost U: set<Entity>, ghost Rs: set<Relationship>)
      returns (calls: seq<G.Call<Entity, Relationship>>)
      requires this in U && value in U && key in relationships && relationships[key] in Rs
      modifies value`relationships, relationships[key]
      ensures Snapshot(U, Rs) ==
        G.AddRecord(G.Assign(old(Snapshot(U, Rs)), value, inverse, old(relationships[key])), old(relationships[key]), value, this)
      ensures calls == [G.Added(old(relationships[key]), value, this)]
    {
      ghost var g0 := Snapshot(U, Rs);
      var mine := relationships[key];
      value.relationships := value.relationships[inverse := mine];
      var c := mine.AddRecord(value, this);
      assert Registries(U) == g0.registries[value := old(value.relationships)[inverse := mine]];
      assert Records(Rs) == g0.records[mine := old(mine.members)[value := this]];
      calls := [c];
    }

    /** Line 87: add this entity, with the value on the other side, to the record held under `key`. */
    method JoinRecord(key: FieldName, value: Entity, ghost U: set<Entity>, ghost Rs: set<Relationship>)
      returns (calls: seq<G.Call<Entity, Relationship>>)
      requires this in U && key in relationships && relationships[key] in Rs
      modifies relationships[key]
      ensures Snapshot(U, Rs) == G.AddOwner(old(Snapshot(U, Rs)), this, key, value).graph
      ensures calls == G.AddOwner(old(Snapshot(U, Rs)), this, key, value).calls
    {
      var target := relationships[key];
      var c := target.AddRecord(this, value);
      calls := [c];
    }

    /** `notifyBelongsToAdded(key, relationship)` (lines 102-105): the slot `key` now holds `relationship`. */
    method NotifyBelongsToAdded(key: FieldName, relationship: Relationship)
      modifies this
      ensures relationships == old(relationships)[key := relationship]
      ensures changes == old(changes) + [key]
    {
      relationships := relationships[key := relationship];
      changes := changes + [key];
    }

    /** `notifyBelongsToRemoved(key)` (lines 107-110): the slot `key` is now empty. */
    method NotifyBelongsToRemoved(key: FieldName)
      modifies this
      ensures relationships == old(relationships) - {key}
      ensures key !in relationships
      ensures changes == old(changes) + [key]
    {
      relationships := relationships - {key};
      changes := changes + [key];
    }
  }

  /** The registries of the entities `U` and the memberships of the records `Rs`, as a value. */
  ghost function Snapshot(U: set<Entity>, Rs: set<Relationship>): (g: G.Graph<Entity, Relationship>)
    reads U, Rs
  {
    G.Graph(Registries(U), Records(Rs))
  }

  /** The registry of every entity of `U`. */
  ghost function Registries(U: set<Entity>): (regs: map<Entity, G.Registry<Relationship>>)
    reads U
  {
    map e | e in U :: e.relationships
  }

  /** The membership of every record of `Rs`. */
  ghost function Records(Rs: set<Relationship>): (recs: map<Relationship, map<Entity, Entity>>)
    reads Rs
  {
    map r | r in Rs :: r.members
  }

  /**
    The getter and the value view agree: what `GetBelongsTo` returns for an
    entity of `U` is what `RelationshipGraph.Read` gives on the snapshot, so
    the lemmas about `Read` after a write describe the getter.
   */
  lemma GetterReadsSnapshot(U: set<Entity>, Rs: set<Relationship>, e: Entity, key: FieldName)
    requires e in U && G.Closed(Snapshot(U, Rs))
    ensures G.Read(Snapshot(U, Rs), e, key).Some? <==> key in e.relationships && e in e.relationships[key].members
    ensures G.Read(Snapshot(U, Rs), e, key).Some? ==> G.Read(Snapshot(U, Rs), e, key).value == e.relationships[key].members[e]
  {
    var g := Snapshot(U, Rs);
    if key in e.relationships {
      assert g.registries[e][key] == e.relationships[key];
      assert e.relationships[key] in g.records;
    }
  }

  /**
    Two fresh entities, of types `ownerType` and `relatedType`, where `key` of
    the first has the inverse `inverse` on the second: after the first's `key`
    is set to the second (lines 80-84 install the record on the second's side),
    each reads the other through its own field.
   */
  method LinkBothWays(ownerType: TypeName, relatedType: TypeName, key: FieldName, inverse: FieldName)
    returns (owner: Entity, related: Entity, forward: Entity?, backward: Entity?)
    ensures owner != related && owner.modelType == ownerType && related.modelType == relatedType
    ensures forward == related && backward == owner
  {
    owner := new Entity(ownerType);
    related := new Entity(relatedType);
    var inverses: InverseTable := map[(ownerType, key) := inverse];
    ghost var U := {owner, related};
    ghost var none: set<Relationship> := {};
    ghost var g0 := Snapshot(U, none);
    assert G.Valid(g0) && G.Slot(g0, related, inverse).None?;
    var written, calls, created := owner.SetBelongsTo(key, related, relatedType, None, inverses, U, none);
    ghost var Rs := none + {created};
    assert G.Installs(g0, owner, key, related, created, Some(inverse));
    ghost var w := G.Write(g0, owner, key, related, created, Some(inverse)).graph;
    assert Snapshot(U, Rs) == w;
    G.WriteReads(g0, owner, key, related, created, Some(inverse));
    assert G.Read(w, owner, key) == Some(related) && G.Read(w, related, inverse) == Some(owner);
    GetterReadsSnapshot(U, Rs, owner, key);
    GetterReadsSnapshot(U, Rs, related, inverse);
    forward := owner.GetBelongsTo(key);
    backward := related.GetBelongsTo(inverse);
  }
}
