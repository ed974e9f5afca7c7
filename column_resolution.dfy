/**
 * `getColumnDefinitions()` of the `EloquentColumn\Traits\HasColumnAttributes`
 * trait: the ordered map from resolved column name to `Column` that every
 * other part of the package reads.
 */
module ColumnResolution {
  import opened Php
  import opened OrderedMap
  import opened Attributes
  import opened Metadata

  /**
   * The name and column a property's `Column` resolves to. A property typed
   * with a model class is a relation column: its default name is that model's
   * foreign key and its type becomes `integer`.
   */
  function Resolve(reg: Registry, test: ModelTest, p: Property): (e: (string, Column))
    requires WellFormed(reg) && p.column.Some?
  {
    var column := p.column.value;
    if IsModelType(reg, test, p.typeName) then
      (if column.name.Some? then column.name.value else Mid(reg, Instance(p.typeName), None),
       column.(columnType := Some("integer")))
    else
      (if column.name.Some? then column.name.value else reg.inflector.snake(p.name), column)
  }

  /** Name resolution, case by case. */
  lemma ResolveRule(reg: Registry, test: ModelTest, p: Property)
    requires WellFormed(reg) && p.column.Some?
    ensures p.column.value.name.Some? ==> Resolve(reg, test, p).0 == p.column.value.name.value
    ensures p.column.value.name.None? && !IsModelType(reg, test, p.typeName) ==>
              Resolve(reg, test, p).0 == reg.inflector.snake(p.name)
    ensures p.column.value.name.None? && IsModelType(reg, test, p.typeName) ==>
              Resolve(reg, test, p).0 == Info(reg, p.typeName).foreignKey
    ensures Resolve(reg, test, p).1 ==
              if IsModelType(reg, test, p.typeName) then p.column.value.(columnType := Some("integer"))
              else p.column.value
  {
  }

  /** The resolved entries of the properties that carry a `Column`, in property order; names may repeat. */
  function DeclaredEntries(reg: Registry, test: ModelTest, props: seq<Property>): OMap<Column>
    requires WellFormed(reg)
    decreases |props|
  {
    if props == [] then []
    else
      var init := DeclaredEntries(reg, test, props[..|props| - 1]);
      var p := props[|props| - 1];
      if p.column.Some? then init + [Resolve(reg, test, p)] else init
  }

  /** The inheritance filter's two key lists, (root model's keys, Table parent's keys), when it applies. */
  datatype FilterKeys = FilterKeys(baseKeys: seq<string>, parentKeys: seq<string>)

  predicate Dropped(name: string, filter: Option<FilterKeys>) {
    filter.Some? && name !in filter.value.baseKeys && name in filter.value.parentKeys
  }

  /** The declared entries that survive the filter, in order. */
  function KeptEntries(es: OMap<Column>, filter: Option<FilterKeys>): OMap<Column>
    decreases |es|
  {
    if es == [] then []
    else
      var init := KeptEntries(es[..|es| - 1], filter);
      if Dropped(es[|es| - 1].0, filter) then init else init + [es[|es| - 1]]
  }

  /** Hidden, nullable integer column that links a child row to its parent row. */
  const LinkColumn: Column := Column(columnType := Some("integer"), hidden := true, nullable := true)

  /** Hidden, nullable string column that records the concrete class of a row. */
  const TypeColumn: Column := Column(name := Some("type"), columnType := Some("string"), hidden := true,
                                     nullable := true)

  /**
   * The filter of the first trait: present when the class descends from the
   * root model (`getBaseClass` is not null); the parent's keys are empty
   * without a Table parent.
   */
  function Filter(reg: Registry, c: ClassName): Option<FilterKeys>
    requires WellFormed(reg) && Known(reg, c)
    decreases Depth(reg, TableParent, c), if c == ROOT_MODEL then 0 else 1, 0
  {
    if BaseClass(reg, c).None? then None
    else
      var parent := Parent(reg, c);
      var parentKeys :=
        if parent.Some? then WellFormedParent(reg, c); Keys(ColumnDefinitions(reg, parent.value)) else [];
      Some(FilterKeys(Keys(ColumnDefinitions(reg, ROOT_MODEL)), parentKeys))
  }

  /** The parent link, assigned after the declared columns when the class has a Table parent. */
  function LinkParent(reg: Registry, c: ClassName, declared: OMap<Column>): OMap<Column>
    requires WellFormed(reg) && Known(reg, c)
  {
    var parent := Parent(reg, c);
    if parent.Some? then WellFormedParent(reg, c); Assign(declared, Mid(reg, Instance(parent.value), None), LinkColumn)
    else declared
  }

  /** The parent link and then the `type` column, added after the declared columns. */
  function Synthesise(reg: Registry, c: ClassName, declared: OMap<Column>): OMap<Column>
    requires WellFormed(reg) && Known(reg, c)
  {
    var linked := LinkParent(reg, c, declared);
    if |Info(reg, c).children| >= 1 && "type" !in Keys(linked) then Assign(linked, "type", TypeColumn) else linked
  }

  /** `getColumnDefinitions()` of the first trait. */
  function ColumnDefinitions(reg: Registry, c: ClassName): OMap<Column>
    requires WellFormed(reg) && Known(reg, c)
    decreases Depth(reg, TableParent, c), if c == ROOT_MODEL then 0 else 1, 1
  {
    var declared := AssignAll([], KeptEntries(DeclaredEntries(reg, EloquentSubclass, Info(reg, c).properties),
                                              Filter(reg, c)));
    Synthesise(reg, c, declared)
  }

  lemma DeclaredSnoc(reg: Registry, test: ModelTest, props: seq<Property>, p: Property)
    requires WellFormed(reg)
    ensures DeclaredEntries(reg, test, props + [p]) ==
              if p.column.Some? then DeclaredEntries(reg, test, props) + [Resolve(reg, test, p)]
              else DeclaredEntries(reg, test, props)
  {
    assert (props + [p])[..|props|] == props;
  }

  lemma KeptSnoc(es: OMap<Column>, e: (string, Column), filter: Option<FilterKeys>)
    ensures KeptEntries(es + [e], filter) ==
              if Dropped(e.0, filter) then KeptEntries(es, filter) else KeptEntries(es, filter) + [e]
  {
    assert (es + [e])[..|es|] == es;
  }

  /** One iteration of the property loop: a kept column is assigned, anything else leaves the map as it was. */
  lemma DefinitionsStep(reg: Registry, test: ModelTest, props: seq<Property>, i: nat, filter: Option<FilterKeys>)
    requires WellFormed(reg) && i < |props|
    ensures AssignAll([], KeptEntries(DeclaredEntries(reg, test, props[..i + 1]), filter)) ==
              if props[i].column.Some? && !Dropped(Resolve(reg, test, props[i]).0, filter) then
                Assign(AssignAll([], KeptEntries(DeclaredEntries(reg, test, props[..i]), filter)),
                       Resolve(reg, test, props[i]).0, Resolve(reg, test, props[i]).1)
              else AssignAll([], KeptEntries(DeclaredEntries(reg, test, props[..i]), filter))
  {
    assert props[..i + 1] == props[..i] + [props[i]];
    DeclaredSnoc(reg, test, props[..i], props[i]);
    if props[i].column.Some? {
      var e := Resolve(reg, test, props[i]);
      KeptSnoc(DeclaredEntries(reg, test, props[..i]), e, filter);
      AssignAllSnoc([], KeptEntries(DeclaredEntries(reg, test, props[..i]), filter), e);
    }
  }

  /** The name and column of one property's `Column`, computed as both traits' loops do. */
  method ResolveColumn(reg: Registry, test: ModelTest, property: Property) returns (name: string, column: Column)
    requires WellFormed(reg) && property.column.Some?
    ensures (name, column) == Resolve(reg, test, property)
  {
    column := property.column.value;
    name := if column.name.Some? then column.name.value else reg.inflector.snake(property.name);
    if IsModelType(reg, test, property.typeName) {
      name := if column.name.Some? then column.name.value else Mid(reg, Instance(property.typeName), None);
      column := column.(columnType := Some("integer"));
    }
  }

  /** Lines 133-142: whether the inheritance filter skips a resolved name. */
  method IsFiltered(reg: Registry, c: ClassName, name: string) returns (skip: bool)
    requires WellFormed(reg) && Known(reg, c)
    ensures skip == Dropped(name, Filter(reg, c))
    decreases Depth(reg, TableParent, c), if c == ROOT_MODEL then 0 else 1, 0
  {
    skip := false;
    if BaseClass(reg, c).Some? {
      assert c != ROOT_MODEL;
      var baseClassColumns := GetColumnDefinitions(reg, ROOT_MODEL);
      var parentClass := Parent(reg, c);
      var parentColumns := [];
      if parentClass.Some? {
        WellFormedParent(reg, c);
        parentColumns := GetColumnDefinitions(reg, parentClass.value);
      }
      skip := name !in Keys(baseClassColumns) && name in Keys(parentColumns);
    }
  }

  /** The loop of `getColumnDefinitions()`, with its `continue` for filtered columns, then the synthesised columns. */
  method GetColumnDefinitions(reg: Registry, c: ClassName) returns (definitions: OMap<Column>)
    requires WellFormed(reg) && Known(reg, c)
    ensures definitions == ColumnDefinitions(reg, c)
    decreases Depth(reg, TableParent, c), if c == ROOT_MODEL then 0 else 1, 1
  {
    definitions := [];
    var properties := Info(reg, c).properties;
    ghost var filter := Filter(reg, c);
    var i := 0;
    while i < |properties|
      invariant 0 <= i <= |properties|
      invariant definitions == AssignAll([], KeptEntries(DeclaredEntries(reg, EloquentSubclass, properties[..i]), filter))
    {
      var property := properties[i];
      DefinitionsStep(reg, EloquentSubclass, properties, i, filter);
      if property.column.Some? {
        var name, column := ResolveColumn(reg, EloquentSubclass, property);
        var skip := IsFiltered(reg, c, name);
        if skip {
          i := i + 1;
          continue;
        }
        definitions := Assign(definitions, name, column);
      }
      i := i + 1;
    }
    assert properties[..|properties|] == properties;
    var parentClass := Parent(reg, c);
    if parentClass.Some? {
      WellFormedParent(reg, c);
      definitions := Assign(definitions, Mid(reg, Instance(parentClass.value), None), LinkColumn);
    }
    if |Info(reg, c).children| >= 1 && "type" !in Keys(definitions) {
      definitions := Assign(definitions, "type", TypeColumn);
    }
  }

  // ---------------------------------------------------------------------
  // What getColumnDefinitions() promises

  /** The names of the declared columns that pass the filter, in property order, repeats included. */
  function KeptNames(reg: Registry, c: ClassName): seq<string>
    requires WellFormed(reg) && Known(reg, c)
  {
    Keys(KeptEntries(DeclaredEntries(reg, EloquentSubclass, Info(reg, c).properties), Filter(reg, c)))
  }

  /** The parent-link key, when the class has a Table parent. */
  function LinkKey(reg: Registry, c: ClassName): (r: seq<string>)
    requires WellFormed(reg) && Known(reg, c)
    ensures |r| <= 1
  {
    var parent := Parent(reg, c);
    if parent.Some? then WellFormedParent(reg, c); [Info(reg, parent.value).foreignKey] else []
  }

  /** The filter keeps exactly the entries whose name it does not drop, in order. */
  lemma {:induction false} KeptEntriesSpec(es: OMap<Column>, filter: Option<FilterKeys>)
    ensures forall e :: e in KeptEntries(es, filter) <==> e in es && !Dropped(e.0, filter)
    ensures (forall i :: 0 <= i < |es| ==> !Dropped(es[i].0, filter)) ==> KeptEntries(es, filter) == es
    decreases |es|
  {
    if es != [] {
      var init := es[..|es| - 1];
      assert es == init + [es[|es| - 1]];
      KeptEntriesSpec(init, filter);
    }
  }

  /**
   * The keys are unique and come in order of first declaration among the kept
   * columns, then the parent link, then `type` when the class has children.
   */
  lemma ColumnKeys(reg: Registry, c: ClassName)
    requires WellFormed(reg) && Known(reg, c)
    ensures Keys(ColumnDefinitions(reg, c)) ==
              Dedup(KeptNames(reg, c) + LinkKey(reg, c) + (if |Info(reg, c).children| >= 1 then ["type"] else []))
    ensures UniqueKeys(ColumnDefinitions(reg, c))
  {
    var declared := Declared(reg, c);
    var linked := LinkParent(reg, c, declared);
    var pre := KeptNames(reg, c) + LinkKey(reg, c);
    LinkedKeys(reg, c);
    assert ColumnDefinitions(reg, c) ==
      if |Info(reg, c).children| >= 1 && "type" !in Keys(linked) then Assign(linked, "type", TypeColumn) else linked;
    if |Info(reg, c).children| >= 1 {
      AssignKeys(linked, "type", TypeColumn);
      DedupSnoc(pre, "type");
      DedupMember(pre, "type");
    } else {
      assert pre + [] == pre;
    }
    DedupNoDups(pre + (if |Info(reg, c).children| >= 1 then ["type"] else []));
  }

  /** The assignments of the declared loop, before anything is synthesised. */
  function Declared(reg: Registry, c: ClassName): OMap<Column>
    requires WellFormed(reg) && Known(reg, c)
  {
    AssignAll([], KeptEntries(DeclaredEntries(reg, EloquentSubclass, Info(reg, c).properties), Filter(reg, c)))
  }

  /** The keys after the parent link: the kept names in first-seen order, then the link key if new. */
  lemma LinkedKeys(reg: Registry, c: ClassName)
    requires WellFormed(reg) && Known(reg, c)
    ensures Keys(LinkParent(reg, c, Declared(reg, c))) == Dedup(KeptNames(reg, c) + LinkKey(reg, c))
    ensures UniqueKeys(LinkParent(reg, c, Declared(reg, c)))
  {
    var kept := KeptEntries(DeclaredEntries(reg, EloquentSubclass, Info(reg, c).properties), Filter(reg, c));
    var declared := Declared(reg, c);
    AssignAllKeys([], kept);
    assert Keys<Column>([]) + Keys(kept) == KeptNames(reg, c);
    var parent := Parent(reg, c);
    if parent.Some? {
      WellFormedParent(reg, c);
      var fk := Mid(reg, Instance(parent.value), None);
      assert LinkKey(reg, c) == [fk];
      assert LinkParent(reg, c, declared) == Assign(declared, fk, LinkColumn);
      AssignKeys(declared, fk, LinkColumn);
      DedupSnoc(KeptNames(reg, c), fk);
      DedupMember(KeptNames(reg, c), fk);
    } else {
      assert KeptNames(reg, c) + LinkKey(reg, c) == KeptNames(reg, c);
    }
  }

  /**
   * What each key holds: the parent link wins over a declared column of the
   * same name; `type` is synthesised only when no column already has that name;
   * any other key holds the last declared column that resolved to it.
   */
  lemma ColumnLookup(reg: Registry, c: ClassName, k: string)
    requires WellFormed(reg) && Known(reg, c)
    ensures Get(ColumnDefinitions(reg, c), k) ==
              if k in LinkKey(reg, c) then Some(LinkColumn)
              else if k == "type" && |Info(reg, c).children| >= 1 && "type" !in KeptNames(reg, c) then Some(TypeColumn)
              else Get(KeptEntries(DeclaredEntries(reg, EloquentSubclass, Info(reg, c).properties), Filter(reg, c)), k)
  {
    var kept := KeptEntries(DeclaredEntries(reg, EloquentSubclass, Info(reg, c).properties), Filter(reg, c));
    var declared := AssignAll([], kept);
    AssignAllGet([], kept, k);
    GetSome(kept, k);
    AssignAllKeys([], kept);
    DedupMember(Keys(kept), "type");
    assert Keys<Column>([]) + Keys(kept) == Keys(kept);
    var parent := Parent(reg, c);
    var linked := declared;
    if parent.Some? {
      WellFormedParent(reg, c);
      var fk := Mid(reg, Instance(parent.value), None);
      linked := Assign(declared, fk, LinkColumn);
      AssignGet(declared, fk, LinkColumn, k);
      AssignKeys(declared, fk, LinkColumn);
    }
    assert "type" !in Keys(linked) <==> "type" !in KeptNames(reg, c) && "type" !in LinkKey(reg, c);
    if |Info(reg, c).children| >= 1 && "type" !in Keys(linked) {
      AssignGet(linked, "type", TypeColumn, k);
    }
  }

  /** When the class has children and no `type` column of its own, `type` is the last key. */
  lemma TypeColumnLast(reg: Registry, c: ClassName)
    requires WellFormed(reg) && Known(reg, c)
    requires |Info(reg, c).children| >= 1 && "type" !in KeptNames(reg, c) && "type" !in LinkKey(reg, c)
    ensures var defs := ColumnDefinitions(reg, c); |defs| >= 1 && defs[|defs| - 1] == ("type", TypeColumn)
  {
    var linked := LinkParent(reg, c, Declared(reg, c));
    LinkedKeys(reg, c);
    DedupMember(KeptNames(reg, c) + LinkKey(reg, c), "type");
    assert "type" !in Keys(linked);
    assert ColumnDefinitions(reg, c) == linked + [("type", TypeColumn)];
  }

  /**
   * The inheritance filter: a declared column is dropped exactly when the class
   * descends from the root model, has a Table parent, and the name is among the
   * parent's columns but not among the root model's.
   */
  lemma DroppedIff(reg: Registry, c: ClassName, name: string)
    requires WellFormed(reg) && Known(reg, c)
    ensures Dropped(name, Filter(reg, c)) <==>
              && IsStrictSubclass(reg, c, ROOT_MODEL)
              && Parent(reg, c).Some?
              && name !in Keys(ColumnDefinitions(reg, ROOT_MODEL))
              && (WellFormedParent(reg, c); name in Keys(ColumnDefinitions(reg, Parent(reg, c).value)))
  {
    BaseClassIsRoot(reg, c);
  }

  /** Without a Table parent every declared column is kept. */
  lemma NoParentKeepsAll(reg: Registry, c: ClassName)
    requires WellFormed(reg) && Known(reg, c) && Parent(reg, c).None?
    ensures KeptEntries(DeclaredEntries(reg, EloquentSubclass, Info(reg, c).properties), Filter(reg, c)) ==
              DeclaredEntries(reg, EloquentSubclass, Info(reg, c).properties)
  {
    KeptEntriesSpec(DeclaredEntries(reg, EloquentSubclass, Info(reg, c).properties), Filter(reg, c));
  }

  /** The root model's four columns, as its property attributes declare them. */
  const RootColumns: OMap<Column> := [
    ("id", Column(name := Some("id"), columnType := Some("id"), hidden := true)),
    ("created_at", Column(name := Some("created_at"), columnType := Some("timestamp"), cast := Some("datetime"),
                          nullable := true)),
    ("updated_at", Column(name := Some("updated_at"), columnType := Some("timestamp"), cast := Some("datetime"),
                          nullable := true)),
    ("deleted_at", Column(name := Some("deleted_at"), columnType := Some("timestamp"), hidden := true,
                          cast := Some("datetime"), nullable := true))]

  /**
   * The root model resolves to exactly its four declared columns, in order,
   * with nothing synthesised, provided neither property type (`int`,
   * `Carbon\Carbon`) is itself a registered model class.
   */
  lemma RootColumnDefinitions(reg: Registry)
    requires WellFormed(reg) && "int" !in reg.classes && CARBON !in reg.classes
    ensures ColumnDefinitions(reg, ROOT_MODEL) == RootColumns
  {
    assert BaseClass(reg, ROOT_MODEL) == None;
    RootDeclared(reg);
    KeptEntriesSpec(RootColumns, None);
    assert [] + RootColumns == RootColumns;
    RootColumnsUnique();
    AssignAllFresh([], RootColumns);
    assert Declared(reg, ROOT_MODEL) == RootColumns;
    assert LinkParent(reg, ROOT_MODEL, RootColumns) == RootColumns;
  }

  lemma RootColumnsUnique()
    ensures UniqueKeys(RootColumns)
  {
    assert Keys(RootColumns) == ["id", "created_at", "updated_at", "deleted_at"];
  }

  lemma RootDeclared(reg: Registry)
    requires WellFormed(reg) && "int" !in reg.classes && CARBON !in reg.classes
    ensures DeclaredEntries(reg, EloquentSubclass, RootInfo.properties) == RootColumns
  {
    var props := RootInfo.properties;
    assert !IsModelType(reg, EloquentSubclass, "int") && !IsModelType(reg, EloquentSubclass, CARBON);
    assert props[..0] == [];
    DeclaredSnoc(reg, EloquentSubclass, props[..0], props[0]);
    assert props[..1] == props[..0] + [props[0]];
    DeclaredSnoc(reg, EloquentSubclass, props[..1], props[1]);
    assert props[..2] == props[..1] + [props[1]];
    DeclaredSnoc(reg, EloquentSubclass, props[..2], props[2]);
    assert props[..3] == props[..2] + [props[2]];
    DeclaredSnoc(reg, EloquentSubclass, props[..3], props[3]);
    assert props == props[..3] + [props[3]];
  }

  /** So the filter always compares against the root model's four column names. */
  lemma FilterBaseKeys(reg: Registry, c: ClassName)
    requires WellFormed(reg) && Known(reg, c) && "int" !in reg.classes && CARBON !in reg.classes
    ensures Filter(reg, c).Some? ==> Filter(reg, c).value.baseKeys == ["id", "created_at", "updated_at", "deleted_at"]
  {
    RootColumnDefinitions(reg);
    assert Keys(RootColumns) == ["id", "created_at", "updated_at", "deleted_at"];
    if Filter(reg, c).Some? {
      assert Filter(reg, c).value.baseKeys == Keys(ColumnDefinitions(reg, ROOT_MODEL));
    }
  }
}
