/**
  The static description of a `belongsTo` field: the `meta` object that
  `DS.belongsTo` builds, and the inverse-field lookup the setter consults.
 */
module Metadata {
  import opened Wrappers

  type TypeName = string
  type FieldName = string

  /** The options hash accepted by `DS.belongsTo(type, options)`. */
  datatype Options = Options(async: Option<bool>, inverse: Option<FieldName>)

  /** `{}`: the hash used when no options are passed. */
  const EmptyOptions := Options(None, None)

  datatype Kind = BelongsToKind | HasManyKind

  /** The `meta` object attached to the computed property. */
  datatype Meta = Meta(isRelationship: bool, relatedType: TypeName, kind: Kind, options: Options)

  /**
    `DS.belongsTo(type, options)` describes the field as a relationship of
    kind belongsTo towards `type`; a missing options hash (`options || {}`)
    becomes the empty one.
   */
  function BelongsToMeta(relatedType: TypeName, options: Option<Options>): (m: Meta)
  {
    Meta(true, relatedType, BelongsToKind, match options case Some(o) => o case None => EmptyOptions)
  }

  /**
    The inverse-field lookup `this.inverseFor(key)` is not part of this
    model; it is given as a table from (model type, field) to the name of
    the inverse field on the related type.
   */
  type InverseTable = map<(TypeName, FieldName), FieldName>

  function InverseFor(table: InverseTable, modelType: TypeName, key: FieldName): (r: Option<FieldName>)
  {
    if (modelType, key) in table then Some(table[(modelType, key)]) else None
  }
}
