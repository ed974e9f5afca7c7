/**
 * The PHP attribute records a model class carries: `Column` on properties,
 * `Table` on the class, the repeatable `ValidationRule`, and the relationship
 * markers. They hold data only.
 */
module Attributes {
  import opened Php

  /** `#[Column(...)]`, with the constructor's defaults. */
  datatype Column = Column(
    name: Option<string> := None,
    columnType: Option<string> := Some("string"),
    fillable: bool := true,
    hidden: bool := false,
    cast: Option<string> := None,
    nullable: bool := false,
    defaultValue: Value := VNull,
    length: Option<int> := None,
    index: bool := false)

  /** A `Column` written with no arguments. */
  lemma ColumnDefaults()
    ensures Column().name == None && Column().columnType == Some("string")
    ensures Column().fillable && !Column().hidden
    ensures Column().cast == None && Column().defaultValue == VNull && Column().length == None
    ensures !Column().nullable && !Column().index
  {
  }

  /** `#[Table(table, parent)]`: the table name and the class whose table holds the shared columns. */
  datatype TableAttr = TableAttr(table: string, parent: Option<string> := None)

  /** An attribute on a model class: a `Table`, or one the package does not read. */
  datatype ClassAttribute = TableAttribute(attr: TableAttr) | OtherClassAttribute(name: string)

  /** `getAttributes(Table::class)`: the class's `Table` attributes, in declaration order. */
  function TableAttributes(attrs: seq<ClassAttribute>): (ts: seq<TableAttr>)
    decreases |attrs|
  {
    if attrs == [] then []
    else (if attrs[0].TableAttribute? then [attrs[0].attr] else []) + TableAttributes(attrs[1..])
  }

  /** `#[ValidationRule(rule, message)]`. */
  datatype ValidationRule = ValidationRule(rule: string, message: Option<string> := None)

  /** The relationship markers; the `HasManyThrough` record is referenced by the source but not shown. */
  datatype Relationship =
    | BelongsTo(foreignKey: Option<string>, ownerKey: Option<string>, relation: Option<string>,
                eager: bool, load: seq<string>)
    | HasMany(related: string, foreignKey: Option<string>, localKey: Option<string>,
              eager: bool, load: seq<string>)
    | HasOne(foreignKey: Option<string>, localKey: Option<string>, eager: bool, load: seq<string>)
    | HasOneThrough(through: string, firstKey: Option<string>, secondKey: Option<string>,
                    localKey: Option<string>, secondLocalKey: Option<string>, eager: bool, load: seq<string>)
    | HasManyThrough(related: string, through: string, firstKey: Option<string>, secondKey: Option<string>,
                     localKey: Option<string>, secondLocalKey: Option<string>, eager: bool, load: seq<string>)

  /**
   * Some attribute among `rs` is a `BelongsTo`: the one relationship whose
   * registration calls `mid()` on the property's declared type, so that type
   * must be a model class.
   */
  predicate AnyBelongsTo(rs: seq<Relationship>) {
    exists j :: 0 <= j < |rs| && rs[j].BelongsTo?
  }
}
