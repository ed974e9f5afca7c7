/**
 * What the package learns through reflection, as explicit data: each model
 * class's short name, superclass, `Table` attribute, properties (with their
 * `Column`, `ValidationRule` and relationship attributes), `Append` methods,
 * foreign key and primary-key name, and the subclasses found beside it.
 * Laravel's inflector (`Str::snake`, `Str::pluralStudly`) is an input too.
 *
 * Also here: `getParent`, `getBaseClass`, `getTableName`, and the `mid`
 * helper that picks a foreign-key column name.
 */
module Metadata {
  import opened Php
  import opened Attributes

  type ClassName = string

  /** The package's root model, `EloquentColumn\Models\Model`. */
  const ROOT_MODEL: ClassName := "EloquentColumn\\Models\\Model"
  /** Laravel's `Illuminate\Database\Eloquent\Model`, the root model's superclass. */
  const ELOQUENT_MODEL: ClassName := "Illuminate\\Database\\Eloquent\\Model"
  /** `EloquentColumn\Models\ModelBase`, the marker class of the second trait. */
  const MODEL_BASE: ClassName := "EloquentColumn\\Models\\ModelBase"
  const CARBON: ClassName := "Carbon\\Carbon"

  /** A property as reflection reports it: name, declared type name, and its attributes. */
  datatype Property = Property(
    name: string,
    typeName: string,
    column: Option<Column>,
    rules: seq<ValidationRule>,
    relations: seq<Relationship>)

  /**
   * One model class. `properties` lists what `getProperties()` reports, own and
   * inherited; `appendMethods` has one entry per `#[Append]` on a method;
   * `children` is the list of instantiable subclasses found next to the class.
   */
  datatype ClassInfo = ClassInfo(
    shortName: string,
    superclass: ClassName,
    attributes: seq<ClassAttribute>,
    properties: seq<Property>,
    appendMethods: seq<string>,
    foreignKey: string,
    keyName: string,
    children: seq<ClassName>)

  datatype Inflector = Inflector(snake: string -> string, pluralStudly: string -> string)

  /** The user's model classes; the root model is described by `RootInfo` and is not listed. */
  datatype Registry = Registry(classes: map<ClassName, ClassInfo>, inflector: Inflector)

  /** The root model: four protected properties, each with an explicitly named Column. */
  const RootInfo: ClassInfo := ClassInfo(
    "Model", ELOQUENT_MODEL, [],
    [ Property("_id", "int",
        Some(Column(name := Some("id"), columnType := Some("id"), hidden := true)), [], []),
      Property("_created_at", CARBON,
        Some(Column(name := Some("created_at"), columnType := Some("timestamp"), cast := Some("datetime"),
                    nullable := true)), [], []),
      Property("_updated_at", CARBON,
        Some(Column(name := Some("updated_at"), columnType := Some("timestamp"), cast := Some("datetime"),
                    nullable := true)), [], []),
      Property("_deleted_at", CARBON,
        Some(Column(name := Some("deleted_at"), columnType := Some("timestamp"), hidden := true,
                    cast := Some("datetime"), nullable := true)), [], []) ],
    [], "model_id", "id", [])

  predicate Known(reg: Registry, c: ClassName) {
    c == ROOT_MODEL || c in reg.classes
  }

  function Info(reg: Registry, c: ClassName): ClassInfo
    requires Known(reg, c)
  {
    if c == ROOT_MODEL then RootInfo else reg.classes[c]
  }

  /**
   * The `Table` attribute the package reads: `foreach (getAttributes(Table::class) ...)`
   * returns at the first one. (PHP refuses a repeated `Table`, so there is at most one.)
   */
  function ClassTable(reg: Registry, c: ClassName): Option<TableAttr>
    requires Known(reg, c)
  {
    var ts := TableAttributes(Info(reg, c).attributes);
    if ts == [] then None else Some(ts[0])
  }

  /** `getParent()`: the `parent` of the class's `Table` attribute, null without one. */
  function GetParent(reg: Registry, c: ClassName): Option<ClassName>
    requires Known(reg, c)
  {
    match ClassTable(reg, c)
    case None => None
    case Some(t) => t.parent
  }

  /** The parent as every caller tests it (`if ($parentClass = static::getParent())`): only a truthy name counts. */
  function Parent(reg: Registry, c: ClassName): (r: Option<ClassName>)
    requires Known(reg, c)
    ensures r.Some? <==> GetParent(reg, c).Some? && TruthyString(GetParent(reg, c).value)
    ensures r.Some? ==> r == GetParent(reg, c)
  {
    var p := GetParent(reg, c);
    if p.Some? && TruthyString(p.value) then p else None
  }

  // ---------------------------------------------------------------------
  // Chains of superclasses and of Table parents

  datatype Link = Superclass | TableParent

  /** One step along a chain, to a class the registry describes. */
  function Next(reg: Registry, link: Link, c: ClassName): (r: Option<ClassName>)
    requires Known(reg, c)
    ensures r.Some? ==> Known(reg, r.value)
  {
    match link
    case Superclass =>
      var s := Info(reg, c).superclass;
      if Known(reg, s) then Some(s) else None
    case TableParent =>
      var p := Parent(reg, c);
      if p.Some? && Known(reg, p.value) then p else None
  }

  /** Steps taken along a chain from `c`, with at most `fuel` steps. */
  function Steps(reg: Registry, link: Link, c: ClassName, fuel: nat): (r: nat)
    requires Known(reg, c)
    ensures r <= fuel
    decreases fuel
  {
    if fuel == 0 then 0
    else match Next(reg, link, c)
      case None => 0
      case Some(d) => 1 + Steps(reg, link, d, fuel - 1)
  }

  /** One more step than there are described classes besides the root. */
  function Fuel(reg: Registry): nat {
    |reg.classes| + 1
  }

  /** Every chain ends before the fuel runs out, so no chain returns to a class it has left. */
  predicate Acyclic(reg: Registry, link: Link) {
    && Steps(reg, link, ROOT_MODEL, Fuel(reg)) < Fuel(reg)
    && forall c | c in reg.classes :: Steps(reg, link, c, Fuel(reg)) < Fuel(reg)
  }

  function Depth(reg: Registry, link: Link, c: ClassName): nat
    requires Known(reg, c)
  {
    Steps(reg, link, c, Fuel(reg))
  }

  /** Once a chain ends within some fuel, more fuel does not change its length. */
  lemma {:induction false} StepsStable(reg: Registry, link: Link, c: ClassName, f: nat, f': nat)
    requires Known(reg, c) && Steps(reg, link, c, f) < f <= f'
    ensures Steps(reg, link, c, f') == Steps(reg, link, c, f)
    decreases f
  {
    match Next(reg, link, c)
    case None =>
    case Some(d) =>
      StepsStable(reg, link, d, f - 1, f' - 1);
  }

  /** On an acyclic chain the depth strictly drops at every step: the measure for recursion along it. */
  lemma DepthDecreases(reg: Registry, link: Link, c: ClassName)
    requires Acyclic(reg, link) && Known(reg, c) && Next(reg, link, c).Some?
    ensures Depth(reg, link, Next(reg, link, c).value) < Depth(reg, link, c)
  {
    var d := Next(reg, link, c).value;
    var f := Fuel(reg);
    assert Steps(reg, link, c, f) < f;
    StepsUnfold(reg, link, c, f);
    StepsStable(reg, link, d, f - 1, f);
    assert Depth(reg, link, d) == Steps(reg, link, d, f - 1) < Steps(reg, link, c, f) == Depth(reg, link, c);
  }

  lemma StepsUnfold(reg: Registry, link: Link, c: ClassName, f: nat)
    requires Known(reg, c) && Next(reg, link, c).Some? && f > 0
    ensures Steps(reg, link, c, f) == 1 + Steps(reg, link, Next(reg, link, c).value, f - 1)
  {
  }

  /**
   * What the code needs of the classes it reflects on: the two framework
   * classes are not user classes, every superclass exists, every Table parent
   * exists, neither chain has a cycle, and a property carrying a `BelongsTo`
   * is typed with a model class (the foreign-key helper instantiates it).
   */
  predicate WellFormed(reg: Registry) {
    && ROOT_MODEL !in reg.classes
    && ELOQUENT_MODEL !in reg.classes
    && (forall c | c in reg.classes ::
          reg.classes[c].superclass == ELOQUENT_MODEL || Known(reg, reg.classes[c].superclass))
    && (forall c | c in reg.classes :: Parent(reg, c).Some? ==> Known(reg, Parent(reg, c).value))
    && (forall c, p | c in reg.classes && p in reg.classes[c].properties ::
          AnyBelongsTo(p.relations) ==> Known(reg, p.typeName))
    && Acyclic(reg, Superclass)
    && Acyclic(reg, TableParent)
  }

  lemma WellFormedParent(reg: Registry, c: ClassName)
    requires WellFormed(reg) && Known(reg, c) && Parent(reg, c).Some?
    ensures Known(reg, Parent(reg, c).value)
    ensures Next(reg, TableParent, c) == Parent(reg, c)
    ensures Depth(reg, TableParent, Parent(reg, c).value) < Depth(reg, TableParent, c)
  {
    if c != ROOT_MODEL {
      assert c in reg.classes;
    }
    DepthDecreases(reg, TableParent, c);
  }

  // ---------------------------------------------------------------------
  // Subclassing

  /** The superclasses of `c`, nearest first, ending with the first class not described. */
  function Ancestors(reg: Registry, c: ClassName): (r: seq<ClassName>)
    requires WellFormed(reg) && Known(reg, c)
    ensures |r| >= 1 && r[0] == Info(reg, c).superclass
    decreases Depth(reg, Superclass, c)
  {
    var s := Info(reg, c).superclass;
    if Known(reg, s) then
      DepthDecreases(reg, Superclass, c);
      [s] + Ancestors(reg, s)
    else [s]
  }

  /** `is_subclass_of($c, $t)`. */
  predicate IsStrictSubclass(reg: Registry, c: ClassName, t: ClassName)
    requires WellFormed(reg)
  {
    Known(reg, c) && t in Ancestors(reg, c)
  }

  /** Every described class is an Eloquent model: its superclass chain reaches Laravel's Model. */
  lemma {:induction false} KnownIsEloquentModel(reg: Registry, c: ClassName)
    requires WellFormed(reg) && Known(reg, c)
    ensures IsStrictSubclass(reg, c, ELOQUENT_MODEL)
    decreases Depth(reg, Superclass, c)
  {
    var s := Info(reg, c).superclass;
    if Known(reg, s) {
      DepthDecreases(reg, Superclass, c);
      KnownIsEloquentModel(reg, s);
      assert Ancestors(reg, c) == [s] + Ancestors(reg, s);
    } else {
      assert c != ROOT_MODEL ==> c in reg.classes;
      assert s == ELOQUENT_MODEL;
      assert Ancestors(reg, c) == [s];
    }
  }

  /** `getBaseClass($class)`: walks up the superclasses, as the source does. */
  function BaseClass(reg: Registry, c: ClassName): Option<ClassName>
    requires WellFormed(reg) && Known(reg, c)
    decreases Depth(reg, Superclass, c)
  {
    var p := Info(reg, c).superclass;
    if p == ELOQUENT_MODEL then None
    else if p != ROOT_MODEL then
      assert c in reg.classes;
      DepthDecreases(reg, Superclass, c);
      BaseClass(reg, p)
    else Some(p)
  }

  /**
   * `getBaseClass` is the root model for every class that descends from it,
   * and null otherwise: it never names an intermediate class.
   */
  lemma {:induction false} BaseClassIsRoot(reg: Registry, c: ClassName)
    requires WellFormed(reg) && Known(reg, c)
    ensures BaseClass(reg, c) == if IsStrictSubclass(reg, c, ROOT_MODEL) then Some(ROOT_MODEL) else None
    decreases Depth(reg, Superclass, c)
  {
    var p := Info(reg, c).superclass;
    if p != ELOQUENT_MODEL && p != ROOT_MODEL {
      assert c in reg.classes;
      DepthDecreases(reg, Superclass, c);
      BaseClassIsRoot(reg, p);
    }
  }

  /** The property type test of the first trait: a class that is a strict subclass of Laravel's Model. */
  predicate IsEloquentModelType(reg: Registry, t: string)
    requires WellFormed(reg)
  {
    IsStrictSubclass(reg, t, ELOQUENT_MODEL)
  }

  /** The property type test of the second trait: `instanceof ModelBase`. */
  predicate IsModelBaseType(reg: Registry, t: string)
    requires WellFormed(reg)
  {
    Known(reg, t) && (t == MODEL_BASE || MODEL_BASE in Ancestors(reg, t))
  }

  /** The two traits test a property's declared type differently before treating it as a model reference. */
  datatype ModelTest = EloquentSubclass | ModelBaseInstance

  predicate IsModelType(reg: Registry, test: ModelTest, t: string)
    requires WellFormed(reg)
    ensures IsModelType(reg, test, t) ==> Known(reg, t)
  {
    match test
    case EloquentSubclass => IsEloquentModelType(reg, t)
    case ModelBaseInstance => IsModelBaseType(reg, t)
  }

  // ---------------------------------------------------------------------
  // mid() and the table name

  /** The first argument of `mid`: a model instance or a class name, which is instantiated. */
  datatype ModelRef = Instance(cls: ClassName) | ClassString(cls: ClassName)

  /** `mid($model, $column)`: the column if it is a non-empty string other than "0", else the model's foreign key. */
  function Mid(reg: Registry, model: ModelRef, column: Option<string>): string
    requires Known(reg, model.cls)
  {
    if column.Some? && column.value != "" && column.value != "0" then column.value
    else Info(reg, model.cls).foreignKey
  }

  lemma MidRule(reg: Registry, model: ModelRef, column: Option<string>)
    requires Known(reg, model.cls)
    ensures column.Some? && TruthyString(column.value) ==> Mid(reg, model, column) == column.value
    ensures column.None? ==> Mid(reg, model, column) == Info(reg, model.cls).foreignKey
    ensures column == Some("") || column == Some("0") ==> Mid(reg, model, column) == Info(reg, model.cls).foreignKey
    ensures Mid(reg, ClassString(model.cls), column) == Mid(reg, Instance(model.cls), column)
  {
  }

  /**
   * The first trait's `getTableName()`: the `Table` attribute's table, else the
   * snake-cased plural of the short name.
   */
  function TableName(reg: Registry, c: ClassName): string
    requires Known(reg, c)
  {
    match ClassTable(reg, c)
    case Some(t) => t.table
    case None => reg.inflector.snake(reg.inflector.pluralStudly(Info(reg, c).shortName))
  }

  /**
   * The second trait's `getTableName()`: a scan over all of the class's
   * attributes that returns at the first `Table`. It names the same table as
   * the first trait's lookup among the `Table` attributes alone.
   */
  method GetSimpleTableName(reg: Registry, c: ClassName) returns (name: string)
    requires Known(reg, c)
    ensures name == TableName(reg, c)
  {
    var attrs := Info(reg, c).attributes;
    var i := 0;
    while i < |attrs|
      invariant 0 <= i <= |attrs|
      invariant TableAttributes(attrs) == TableAttributes(attrs[i..])
    {
      if attrs[i].TableAttribute? {
        return attrs[i].attr.table;
      }
      assert attrs[i..][1..] == attrs[i + 1..];
      i := i + 1;
    }
    return reg.inflector.snake(reg.inflector.pluralStudly(Info(reg, c).shortName));
  }

  /** A class with no `Table` attribute takes the inflected short name. */
  lemma TableNameWithoutTable(reg: Registry, c: ClassName)
    requires Known(reg, c)
    requires forall k :: 0 <= k < |Info(reg, c).attributes| ==> !Info(reg, c).attributes[k].TableAttribute?
    ensures TableName(reg, c) == reg.inflector.snake(reg.inflector.pluralStudly(Info(reg, c).shortName))
    ensures GetParent(reg, c) == None
  {
    NoTableAttribute(Info(reg, c).attributes);
  }

  /** A class whose first `Table` attribute is at index `i` takes that attribute's table and parent. */
  lemma TableNameFromTable(reg: Registry, c: ClassName, i: nat)
    requires Known(reg, c)
    requires i < |Info(reg, c).attributes| && Info(reg, c).attributes[i].TableAttribute?
    requires forall k :: 0 <= k < i ==> !Info(reg, c).attributes[k].TableAttribute?
    ensures TableName(reg, c) == Info(reg, c).attributes[i].attr.table
    ensures GetParent(reg, c) == Info(reg, c).attributes[i].attr.parent
  {
    FirstTableAttribute(Info(reg, c).attributes, i);
  }

  lemma {:induction false} NoTableAttribute(attrs: seq<ClassAttribute>)
    requires forall k :: 0 <= k < |attrs| ==> !attrs[k].TableAttribute?
    ensures TableAttributes(attrs) == []
    decreases |attrs|
  {
    if attrs != [] {
      assert forall k :: 0 <= k < |attrs[1..]| ==> attrs[1..][k] == attrs[k + 1];
      NoTableAttribute(attrs[1..]);
    }
  }

  lemma {:induction false} FirstTableAttribute(attrs: seq<ClassAttribute>, i: nat)
    requires i < |attrs| && attrs[i].TableAttribute?
    requires forall k :: 0 <= k < i ==> !attrs[k].TableAttribute?
    ensures TableAttributes(attrs) != [] && TableAttributes(attrs)[0] == attrs[i].attr
    decreases i
  {
    if i > 0 {
      assert forall k :: 0 <= k < |attrs[1..]| ==> attrs[1..][k] == attrs[k + 1];
      FirstTableAttribute(attrs[1..], i - 1);
    }
  }
}
