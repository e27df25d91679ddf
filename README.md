# The `belongsTo` relationship accessor of Ember Data

Ember Data declares a one-to-one or many-to-one link with `DS.belongsTo(type, options)`.
The call builds a metadata object and returns a computed property. Each model instance
keeps a registry `_relationships` that maps field names to relationship records. A record
knows, for each of its members, which entity is on the other side.

- **Read.** Reading the property shows what the held record reports for the instance. With
  no record, it shows `null`.
- **Write.** Writing the property takes four steps, in order:
  1. it leaves the record held before;
  2. for a truthy value, it stores a fresh record under the key and looks up the inverse
     field;
  3. it either reuses the record the value already holds under that inverse field, or
     installs the fresh record there and adds the value to it;
  4. last, it adds the instance to the record now under its key.
- **Hooks.** Every model has two hooks, `notifyBelongsToAdded` and
  `notifyBelongsToRemoved`. Each sets or clears one slot and announces the change. The
  hooks are there for records to call; their callers are not part of this model.

The project has three layers.

- `metadata.dfy` (module `Metadata`) holds the metadata built by `DS.belongsTo`. It also
  holds a table that stands for `inverseFor`.
- `relationship_graph.dfy` (module `RelationshipGraph`) is a value description of the
  state a write works on. It has two maps:
  - every entity's registry;
  - every record's membership, which maps an owner to the entity on its other side.

  `Detach` and `Write` follow the setter step by step. They return the new state and the
  sequence of calls made on records (`removeRecord`, `createRelationshipFor`, `inverseFor`,
  `addRecord`). The lemmas next to them say what a write achieves.
- `belongs_to.dfy` (module `BelongsTo`) holds the heap model. `Entity` is a model
  instance, with its `_relationships` registry and its log of `notifyPropertyChange` keys.
  `Relationship` is a record.
  - The setter `SetBelongsTo` is proved to change the heap exactly as `Detach` and `Write`
    describe it. The heap is read through the ghost `Snapshot` of the entities `U` and
    records `Rs` the caller names.
  - `GetterReadsSnapshot` shows that the getter reads what `RelationshipGraph.Read` reads.
    So every lemma about `Write` also describes the objects.

A null slot and a missing slot are both falsy to the source. The model keeps one form of
that empty slot: an absent key.

## Model

All source paths are under `packages/ember-data/lib/system/relationships/`.

| member | source | states |
|---|---|---|
| RelationshipGraph.Read | packages/ember-data/lib/system/relationships/belongs_to.js:93-97 | The getter as a value: the other side of the record held under `key` for this entity, or none without one. It has no contract of its own. `GetterReadsSnapshot` proves the heap getter equal to it, and the `Detach` and `Write*` lemmas state its value after a write. |
| RelationshipGraph.Detach | packages/ember-data/lib/system/relationships/belongs_to.js:67-69 | Leaving the held record changes no registry. It makes no call when nothing is held; otherwise it makes exactly one call, `removeRecord(self)` on the held record. Afterwards, the owner reads nothing under `key`, and every other entity reads what it read before. This is all that a falsy write does. |
| RelationshipGraph.DetachPreservesValid | packages/ember-data/lib/system/relationships/belongs_to.js:67-69 | A falsy write keeps the state consistent. Every held record is known, and every membership is witnessed by the member's registry. |
| RelationshipGraph.Write | packages/ember-data/lib/system/relationships/belongs_to.js:67-88 | The whole truthy write, as a value: `Detach`, then `Store`, the `inverseFor` lookup, `Reconcile` and `AddOwner`, with the calls each makes, in order. It has no contract of its own. `SetBelongsTo` is proved equal to it, and the `Write*` lemmas below state its properties. |
| RelationshipGraph.Store | packages/ember-data/lib/system/relationships/belongs_to.js:71-72 | The step that creates the fresh record and stores it under the owner's `key`. It has no contract of its own; `StoreFreshRecord` is proved equal to it. |
| RelationshipGraph.Reconcile | packages/ember-data/lib/system/relationships/belongs_to.js:76-85 | The reuse-or-install step. It has no contract of its own; `ReconcileInverse` is proved equal to it, and `WriteSharesRecord` and `WriteKeepsOtherSlots` state its effect inside a write. |
| RelationshipGraph.AddOwner | packages/ember-data/lib/system/relationships/belongs_to.js:87 | The last step: `addRecord(self, value)` on the record the owner's slot holds. It has no contract of its own; `JoinRecord` is proved equal to it, and `WriteOtherSide` states its effect inside a write. |
| RelationshipGraph.WriteSharesRecord | packages/ember-data/lib/system/relationships/belongs_to.js:71-85 | After a write the owner's slot holds the record the value already holds under its inverse field (found at line 77), or else the fresh record. With an inverse field, the value's slot holds that same record, so both sides share one record. |
| RelationshipGraph.WriteKeepsOtherSlots | packages/ember-data/lib/system/relationships/belongs_to.js:71-85 | A write changes no slot other than the owner's slot `key`. The value's inverse slot also changes, but only when the fresh record is installed there. With no inverse field, only the owner's slot changes. |
| RelationshipGraph.WriteOtherSide | packages/ember-data/lib/system/relationships/belongs_to.js:68-87 | Membership after a write: the owner is on the shared record with the value on the other side. The value is on the fresh record with the owner on the other side, but only when the record is installed there. The fresh record holds nothing else, and the owner is no longer on the record it held before. Every other membership is unchanged. |
| RelationshipGraph.WriteReads | packages/ember-data/lib/system/relationships/belongs_to.js:83-97 | After a write, the owner's field reads the value. When the record was installed on the value's side, the value's inverse field reads the owner. |
| RelationshipGraph.WriteCalls | packages/ember-data/lib/system/relationships/belongs_to.js:67-87 | The exact call order. First comes `removeRecord`, if a record was held; it precedes any creation or attachment. Next come the creation of the fresh record and `inverseFor(key)`. Then `addRecord(value, self)` on the fresh record, only when it is installed on the value's side. Last comes `addRecord(self, value)` on the shared record. When the value already held a record under its inverse field, `addRecord(value, self)` is never made. |
| RelationshipGraph.WritePreservesValid | packages/ember-data/lib/system/relationships/belongs_to.js:67-88 | A truthy write between known entities keeps the state consistent, whatever record is created. |
| RelationshipGraph.WriteKeepsOtherReads | packages/ember-data/lib/system/relationships/belongs_to.js:74-87 | With a fresh, unused record, a write changes no read of any entity other than the owner. The one exception is the value's inverse field, when the record is installed there. |
| RelationshipGraph.RewriteSameValue | packages/ember-data/lib/system/relationships/belongs_to.js:67-88 | Writing the same value a second time leaves every read as the first write left it. |
| RelationshipGraph.RewriteShape | packages/ember-data/lib/system/relationships/belongs_to.js:76-87 | The second of two writes of the same value installs nothing: with an inverse field, the value's side already holds the record the first write left there, and with none there is nothing to install. It ends on the record the first write left the owner holding, or else on its own fresh record; in that case the first fresh record was not installed on the value's side. |
| BelongsTo.Relationship.constructor | packages/ember-data/lib/system/relationships/belongs_to.js:72 | `createRelationshipFor(this, meta)` gives a record with that owner and metadata and no members. |
| BelongsTo.Relationship.AddRecord | packages/ember-data/lib/system/relationships/belongs_to.js:83 | `addRecord(record, other)` makes `other` the other side for `record`, and changes nothing else. It returns the log entry for this call. |
| BelongsTo.Relationship.RemoveRecord | packages/ember-data/lib/system/relationships/belongs_to.js:68 | `removeRecord(record)` takes `record` out of the record, and changes nothing else. It returns the log entry for this call. |
| BelongsTo.Entity.GetBelongsTo | packages/ember-data/lib/system/relationships/belongs_to.js:93-97 | The getter changes nothing. It returns null exactly when no record is held under `key` or this entity is not a member of it. Otherwise it returns the record's other side for this entity. |
| BelongsTo.GetterReadsSnapshot | packages/ember-data/lib/system/relationships/belongs_to.js:93-97 | The getter's answer equals `RelationshipGraph.Read` on the snapshot of the heap. |
| BelongsTo.Entity.SetBelongsTo | packages/ember-data/lib/system/relationships/belongs_to.js:56-91 | The setter returns the value given. A falsy value creates no record and does not consult `inverseFor`; the heap and the calls are exactly `Detach`. A truthy value creates one new record with this owner. The record carries the field's own metadata from lines 56-61: a relationship of kind `belongsTo` to the declared type, with the given options or `{}` when none were given. The heap and the calls are exactly `Write`. Consistency is preserved. Its frame is only the registries of `U` and the records `Rs`, so no change notification is sent. |
| BelongsTo.Entity.LeaveHeldRecord | packages/ember-data/lib/system/relationships/belongs_to.js:67-69 | The heap and the calls after the detach step are `Detach` of the heap before. |
| BelongsTo.Entity.StoreFreshRecord | packages/ember-data/lib/system/relationships/belongs_to.js:71-72 | A new record with this owner and metadata is stored under `key`. The one call logged is its creation; the setter logs the inverse lookup where it makes it. |
| BelongsTo.Entity.ReconcileInverse | packages/ember-data/lib/system/relationships/belongs_to.js:76-85 | The reuse-or-install step changes the heap as the pure `Reconcile` step says. Afterwards the owner's slot holds a known record. |
| BelongsTo.Entity.ShareInverseRecord | packages/ember-data/lib/system/relationships/belongs_to.js:77-79 | The owner's slot `key` now holds the record the value holds under the inverse field. Nothing else changes. |
| BelongsTo.Entity.InstallOnInverse | packages/ember-data/lib/system/relationships/belongs_to.js:80-84 | The value's inverse slot now holds the owner's record, and the value is added to that record with the owner on the other side. The one call made is that `addRecord`. |
| BelongsTo.Entity.JoinRecord | packages/ember-data/lib/system/relationships/belongs_to.js:87 | The owner is added, with the value on the other side, to the record its slot holds. That is the last call of the write. |
| BelongsTo.LinkBothWays | packages/ember-data/lib/system/relationships/belongs_to.js:80-94 | For two fresh entities with an inverse field declared, setting one's field to the other makes each read the other through its own field. |
| BelongsTo.Entity.NotifyBelongsToAdded | packages/ember-data/lib/system/relationships/belongs_to.js:102-105 | Only slot `key` changes, and it now holds the given record. One change notification for `key` is appended. |
| BelongsTo.Entity.NotifyBelongsToRemoved | packages/ember-data/lib/system/relationships/belongs_to.js:107-110 | Only slot `key` changes, and it is now empty. One change notification for `key` is appended. |

## Left out

- `Ember.computed(...).meta(meta)`: the property wiring is not modelled. That covers how the computed property caches values, how a read or a write reaches the function at lines 63-98 (`arguments.length > 1`), and how the metadata is attached. The getter and the setter are two methods instead.
- The change notification that Ember's computed property sends after a set is not modelled. The setter itself sends none: the frame of `SetBelongsTo` leaves every change log as it was.
- `this.store`, the third argument of `createRelationshipFor`, is not modelled, and neither are the store and async loading.
- `DS.createRelationshipFor` and the record classes are not part of this model. A record is modelled only by the effect the setter relies on:
  - `addRecord`, `removeRecord` and `getOtherSideFor` act on one member map;
  - records do not call back `notifyBelongsToAdded` / `notifyBelongsToRemoved` and do not update the other side.

  So two effects that would come from the records are not modelled:
  - the detach of the other side when an entity is reassigned or set to null. After a null write the owner reads nothing, but the entity on the other side keeps reading the owner;
  - on the reuse path (lines 77-79), an update of the value's inverse field. That field keeps reading what the shared record reported for the value before. So the two sides read each other after a write only when the fresh record is installed on the value's side, as `WriteReads` and `LinkBothWays` state.
- `inverseFor` is not part of this model. It is a table from the model type and field name to the inverse field name; the rest of the object it returns is not used here.
- The commented-out type assertion, line 66, is not modelled. The model type of `value` is not checked.
- Truthiness: a value is either an entity or null. Other falsy JavaScript values (`undefined`, `false`, `0`, `""`) are all represented by null.
- `_relationships[key] = null` and a missing key are one state in the model (an absent key). Both are falsy at lines 67 and 93.
- `hasMany` and the other files of the relationships package are not part of this model.
- The ghost sets `U` and `Rs` that `SetBelongsTo` takes exist only to name its frame. The source has no such parameters.
- `NotifyBelongsToAdded` takes a record, never null. A null record would have the effect that `NotifyBelongsToRemoved` models.
