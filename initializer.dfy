/**
 * `initializeHasColumnAttributes()`, which both traits share: it points the
 * instance at its table, appends each resolved column to `fillable`,
 * `hidden` and `casts` as its flags say, appends the `#[Append]` methods to
 * `appends`, registers one lazy relation per relationship attribute (adding
 * the conventional foreign key of every `BelongsTo` to `fillable` and
 * `hidden`, and the property to `with` when the relation is eager), and
 * finally passes every list and `casts` through `array_unique`.
 */
module Initializer {
  import opened Php
  import opened OrderedMap
  import opened Attributes
  import opened Metadata
  import opened ColumnResolution
  import opened ModelsTrait

  /** Which of the two traits the class uses; they differ only in `getColumnDefinitions()`. */
  datatype TraitKind = ColumnsTrait | ModelsTrait

  function DefinitionsOf(reg: Registry, kind: TraitKind, c: ClassName): OMap<Column>
    requires WellFormed(reg) && Known(reg, c)
  {
    match kind
    case ColumnsTrait => ColumnDefinitions(reg, c)
    case ModelsTrait => SimpleColumnDefinitions(reg, c)
  }

  // ---------------------------------------------------------------------
  // What each pass contributes

  datatype Flag = Fillable | Hidden

  predicate HasFlag(c: Column, flag: Flag) {
    match flag
    case Fillable => c.fillable
    case Hidden => c.hidden
  }

  /** The names the first pass appends to `fillable` or `hidden`, in resolved order. */
  function FlaggedNames(defs: OMap<Column>, flag: Flag): seq<string>
    decreases |defs|
  {
    if defs == [] then []
    else
      var init := FlaggedNames(defs[..|defs| - 1], flag);
      if HasFlag(defs[|defs| - 1].1, flag) then init + [defs[|defs| - 1].0] else init
  }

  /** The assignments the first pass makes to `casts`: every column whose cast is truthy. */
  function CastEntries(defs: OMap<Column>): OMap<string>
    decreases |defs|
  {
    if defs == [] then []
    else
      var init := CastEntries(defs[..|defs| - 1]);
      var e := defs[|defs| - 1];
      if e.1.cast.Some? && TruthyString(e.1.cast.value) then init + [(e.0, e.1.cast.value)] else init
  }

  /** `Str::snake` of each `#[Append]` method name, in reflection order. */
  function AppendNames(reg: Registry, methods: seq<string>): seq<string> {
    seq(|methods|, i requires 0 <= i < |methods| => reg.inflector.snake(methods[i]))
  }

  /** The relation a property's attribute registers, with the keys it was given. */
  datatype LazyRelation =
    | LazyBelongsTo(related: ClassName, key: string, ownerKey: Option<string>, relation: Option<string>,
                    load: seq<string>)
    | LazyHasMany(related: string, foreignKey: Option<string>, localKey: Option<string>, load: seq<string>)
    | LazyHasManyThrough(related: string, through: string, firstKey: Option<string>, secondKey: Option<string>,
                         localKey: Option<string>, secondLocalKey: Option<string>, load: seq<string>)
    | LazyHasOne(related: ClassName, foreignKey: Option<string>, localKey: Option<string>, load: seq<string>)
    | LazyHasOneThrough(related: ClassName, through: string, firstKey: Option<string>, secondKey: Option<string>,
                        localKey: Option<string>, secondLocalKey: Option<string>, load: seq<string>)

  /** Every property carrying a `BelongsTo` is typed with a model class `mid` can instantiate. */
  predicate BelongsToTypesKnown(reg: Registry, props: seq<Property>) {
    forall k :: 0 <= k < |props| ==> AnyBelongsTo(props[k].relations) ==> Known(reg, props[k].typeName)
  }

  /** A `BelongsTo` among the first `k` attributes is one among them all. */
  lemma AnyBelongsToPrefix(rs: seq<Relationship>, k: nat)
    requires k <= |rs|
    ensures AnyBelongsTo(rs[..k]) ==> AnyBelongsTo(rs)
  {
    if AnyBelongsTo(rs[..k]) {
      var j :| 0 <= j < k && rs[..k][j].BelongsTo?;
      assert rs[j] == rs[..k][j];
    }
  }

  lemma PropertiesTyped(reg: Registry, c: ClassName)
    requires WellFormed(reg) && Known(reg, c)
    ensures BelongsToTypesKnown(reg, Info(reg, c).properties)
  {
    if c != ROOT_MODEL {
      assert c in reg.classes;
      var props := Info(reg, c).properties;
      forall k | 0 <= k < |props| && AnyBelongsTo(props[k].relations) ensures Known(reg, props[k].typeName) {
        assert props[k] in reg.classes[c].properties;
      }
    }
  }

  /**
   * `#[HasMany(related: Post::class)] protected Collection $posts;` on a user model:
   * the property's type is no model class, yet the registry is well formed, no
   * key is added to `fillable` or `hidden`, and the lazy `hasMany` targets `Post`.
   */
  lemma HasManyOnCollection()
    ensures var posts := Property("posts", "Illuminate\\Support\\Collection", None, [],
                                  [HasMany("App\\Models\\Post", None, None, false, [])]);
            var user := ClassInfo("User", ROOT_MODEL, [], [posts], [], "user_id", "id", []);
            var reg := Registry(map["App\\Models\\User" := user], Inflector(s => s, s => s));
            && WellFormed(reg)
            && !Known(reg, posts.typeName)
            && BelongsToKeys(reg, [posts]) == []
            && LazyEntries(reg, [posts]) == [("posts", LazyHasMany("App\\Models\\Post", None, None, []))]
  {
    var posts := Property("posts", "Illuminate\\Support\\Collection", None, [],
                          [HasMany("App\\Models\\Post", None, None, false, [])]);
    var user := ClassInfo("User", ROOT_MODEL, [], [posts], [], "user_id", "id", []);
    var reg := Registry(map["App\\Models\\User" := user], Inflector(s => s, s => s));
    var c := "App\\Models\\User";
    assert !AnyBelongsTo(posts.relations);
    assert Fuel(reg) == 2;
    assert Steps(reg, Superclass, ROOT_MODEL, 2) == 0;
    assert Next(reg, Superclass, c) == Some(ROOT_MODEL);
    assert Steps(reg, Superclass, c, 2) == 1 + Steps(reg, Superclass, ROOT_MODEL, 1);
    assert Steps(reg, TableParent, ROOT_MODEL, 2) == 0;
    assert Steps(reg, TableParent, c, 2) == 0;
    assert [posts][..0] == [];
    assert posts.relations[..0] == [];
  }

  /** The conventional foreign key of the property's declared model class: `mid($propertyTypeName)`. */
  function ConventionalKey(reg: Registry, p: Property): string
    requires Known(reg, p.typeName)
  {
    Mid(reg, ClassString(p.typeName), None)
  }

  /**
   * The closure registered for one relationship attribute. A `BelongsTo`
   * falls back to the conventional key only when its own `foreignKey` is null;
   * `HasOne` and `HasOneThrough` relate to the property's declared type,
   * `HasMany` and `HasManyThrough` to the class the attribute names.
   */
  function Lazy(reg: Registry, p: Property, r: Relationship): LazyRelation
    requires r.BelongsTo? ==> Known(reg, p.typeName)
  {
    match r
    case BelongsTo(fk, ownerKey, relation, _, load) =>
      LazyBelongsTo(p.typeName, if fk.Some? then fk.value else ConventionalKey(reg, p), ownerKey, relation, load)
    case HasMany(related, fk, localKey, _, load) => LazyHasMany(related, fk, localKey, load)
    case HasManyThrough(related, through, k1, k2, lk, slk, _, load) =>
      LazyHasManyThrough(related, through, k1, k2, lk, slk, load)
    case HasOne(fk, localKey, _, load) => LazyHasOne(p.typeName, fk, localKey, load)
    case HasOneThrough(through, k1, k2, lk, slk, _, load) =>
      LazyHasOneThrough(p.typeName, through, k1, k2, lk, slk, load)
  }

  /** The conventional keys the `BelongsTo` attributes among `rs` (all on `p`) append. */
  function BelongsToKeysOf(reg: Registry, p: Property, rs: seq<Relationship>): seq<string>
    requires AnyBelongsTo(rs) ==> Known(reg, p.typeName)
    decreases |rs|
  {
    if rs == [] then []
    else
      var init := BelongsToKeysOf(reg, p, rs[..|rs| - 1]);
      if rs[|rs| - 1].BelongsTo? then init + [ConventionalKey(reg, p)] else init
  }

  function BelongsToKeys(reg: Registry, props: seq<Property>): seq<string>
    requires BelongsToTypesKnown(reg, props)
    decreases |props|
  {
    if props == [] then []
    else
      var p := props[|props| - 1];
      BelongsToKeys(reg, props[..|props| - 1]) + BelongsToKeysOf(reg, p, p.relations)
  }

  /** The property's name once per eager relationship among `rs`. */
  function EagerNamesOf(p: Property, rs: seq<Relationship>): seq<string>
    decreases |rs|
  {
    if rs == [] then []
    else
      var init := EagerNamesOf(p, rs[..|rs| - 1]);
      if rs[|rs| - 1].eager then init + [p.name] else init
  }

  function EagerNames(props: seq<Property>): seq<string>
    decreases |props|
  {
    if props == [] then []
    else EagerNames(props[..|props| - 1]) + EagerNamesOf(props[|props| - 1], props[|props| - 1].relations)
  }

  /** One assignment to `dynamicRelations` per relationship attribute among `rs`. */
  function LazyEntriesOf(reg: Registry, p: Property, rs: seq<Relationship>): OMap<LazyRelation>
    requires AnyBelongsTo(rs) ==> Known(reg, p.typeName)
    decreases |rs|
  {
    if rs == [] then []
    else LazyEntriesOf(reg, p, rs[..|rs| - 1]) + [(p.name, Lazy(reg, p, rs[|rs| - 1]))]
  }

  function LazyEntries(reg: Registry, props: seq<Property>): OMap<LazyRelation>
    requires BelongsToTypesKnown(reg, props)
    decreases |props|
  {
    if props == [] then []
    else
      var p := props[|props| - 1];
      LazyEntries(reg, props[..|props| - 1]) + LazyEntriesOf(reg, p, p.relations)
  }

  /** What one more relationship attribute of `p` contributes. */
  lemma RelationStepOf(reg: Registry, p: Property, j: nat)
    requires j < |p.relations| && (AnyBelongsTo(p.relations) ==> Known(reg, p.typeName))
    ensures BelongsToKeysOf(reg, p, p.relations[..j + 1]) == BelongsToKeysOf(reg, p, p.relations[..j]) +
              (if p.relations[j].BelongsTo? then [ConventionalKey(reg, p)] else [])
    ensures EagerNamesOf(p, p.relations[..j + 1]) == EagerNamesOf(p, p.relations[..j]) +
              (if p.relations[j].eager then [p.name] else [])
    ensures LazyEntriesOf(reg, p, p.relations[..j + 1]) ==
              LazyEntriesOf(reg, p, p.relations[..j]) + [(p.name, Lazy(reg, p, p.relations[j]))]
  {
    assert p.relations[..j + 1][..j] == p.relations[..j];
  }

  /** What one more property contributes to each of the three accumulations. */
  lemma RelationsStep(reg: Registry, props: seq<Property>, i: nat)
    requires BelongsToTypesKnown(reg, props) && i < |props|
    ensures BelongsToTypesKnown(reg, props[..i]) && BelongsToTypesKnown(reg, props[..i + 1])
    ensures BelongsToKeys(reg, props[..i + 1]) == BelongsToKeys(reg, props[..i]) + BelongsToKeysOf(reg, props[i], props[i].relations)
    ensures EagerNames(props[..i + 1]) == EagerNames(props[..i]) + EagerNamesOf(props[i], props[i].relations)
    ensures LazyEntries(reg, props[..i + 1]) == LazyEntries(reg, props[..i]) + LazyEntriesOf(reg, props[i], props[i].relations)
  {
    assert props[..i + 1][..i] == props[..i];
  }

  // ---------------------------------------------------------------------
  // What the contributions mean

  /** With unique keys, a name is flagged exactly when its column carries the flag. */
  lemma {:induction false} FlaggedNamesIff(defs: OMap<Column>, flag: Flag, k: string)
    requires UniqueKeys(defs)
    ensures k in FlaggedNames(defs, flag) <==> Get(defs, k).Some? && HasFlag(Get(defs, k).value, flag)
    decreases |defs|
  {
    if defs != [] {
      var init := defs[..|defs| - 1];
      var e := defs[|defs| - 1];
      assert defs == init + [e];
      UniqueKeysSnoc(init, e);
      FlaggedNamesIff(init, flag, k);
      GetSome(init, k);
    }
  }

  /** With unique keys, `casts` receives exactly the truthy casts, keyed by column name. */
  lemma {:induction false} CastEntriesGet(defs: OMap<Column>, k: string)
    requires UniqueKeys(defs)
    ensures Get(CastEntries(defs), k) ==
              if Get(defs, k).Some? && Get(defs, k).value.cast.Some? && TruthyString(Get(defs, k).value.cast.value)
              then Some(Get(defs, k).value.cast.value) else None
    decreases |defs|
  {
    if defs != [] {
      var init := defs[..|defs| - 1];
      var e := defs[|defs| - 1];
      assert defs == init + [e];
      UniqueKeysSnoc(init, e);
      CastEntriesGet(init, k);
      GetSome(init, k);
      var ci := CastEntries(init);
      if e.1.cast.Some? && TruthyString(e.1.cast.value) {
        assert (ci + [(e.0, e.1.cast.value)])[..|ci|] == ci;
      }
    }
  }

  /** A relationship attribute of a property, by position. */
  predicate RelationAt(props: seq<Property>, i: int, j: int) {
    0 <= i < |props| && 0 <= j < |props[i].relations|
  }

  /** `rs` holds a `BelongsTo` exactly when `BelongsToKeysOf` appends something, and then only the conventional key. */
  lemma {:induction false} BelongsToKeysOfIff(reg: Registry, p: Property, rs: seq<Relationship>, x: string)
    requires AnyBelongsTo(rs) ==> Known(reg, p.typeName)
    ensures x in BelongsToKeysOf(reg, p, rs) <==>
              (exists j :: 0 <= j < |rs| && rs[j].BelongsTo?) && x == Info(reg, p.typeName).foreignKey
    decreases |rs|
  {
    if rs != [] {
      var init := rs[..|rs| - 1];
      BelongsToKeysOfIff(reg, p, init, x);
      if exists j :: 0 <= j < |init| && init[j].BelongsTo? {
        var j :| 0 <= j < |init| && init[j].BelongsTo?;
        assert rs[j] == init[j];
      }
      if exists j :: 0 <= j < |rs| && rs[j].BelongsTo? {
        var j :| 0 <= j < |rs| && rs[j].BelongsTo?;
        if j < |rs| - 1 {
          assert init[j] == rs[j];
        }
      }
    }
  }

  /**
   * `fillable` and `hidden` gain, from the relationships, exactly the
   * conventional foreign keys of the classes some `BelongsTo` points at: a
   * `foreignKey` given on the attribute never reaches these lists.
   */
  lemma {:induction false} BelongsToKeysIff(reg: Registry, props: seq<Property>, x: string)
    requires BelongsToTypesKnown(reg, props)
    ensures x in BelongsToKeys(reg, props) <==>
              exists i, j :: RelationAt(props, i, j) && props[i].relations[j].BelongsTo? &&
                             Known(reg, props[i].typeName) && x == Info(reg, props[i].typeName).foreignKey
    decreases |props|
  {
    if props != [] {
      var n := |props| - 1;
      var init := props[..n];
      var p := props[n];
      assert BelongsToTypesKnown(reg, init);
      BelongsToKeysIff(reg, init, x);
      BelongsToKeysOfIff(reg, p, p.relations, x);
      if x in BelongsToKeys(reg, init) {
        var i, j :| RelationAt(init, i, j) && init[i].relations[j].BelongsTo? &&
                    Known(reg, init[i].typeName) && x == Info(reg, init[i].typeName).foreignKey;
        assert props[i] == init[i];
      } else if x in BelongsToKeysOf(reg, p, p.relations) {
        var j :| 0 <= j < |p.relations| && p.relations[j].BelongsTo?;
        assert RelationAt(props, n, j);
      }
      if exists i, j :: RelationAt(props, i, j) && props[i].relations[j].BelongsTo? &&
                        Known(reg, props[i].typeName) && x == Info(reg, props[i].typeName).foreignKey {
        var i, j :| RelationAt(props, i, j) && props[i].relations[j].BelongsTo? &&
                    Known(reg, props[i].typeName) && x == Info(reg, props[i].typeName).foreignKey;
        if i < n {
          assert init[i] == props[i] && RelationAt(init, i, j);
        }
      }
    }
  }

  /** `with` gains exactly the names of properties with an eager relationship. */
  lemma {:induction false} EagerNamesIff(props: seq<Property>, x: string)
    ensures x in EagerNames(props) <==>
              exists i, j :: RelationAt(props, i, j) && props[i].relations[j].eager && x == props[i].name
    decreases |props|
  {
    if props != [] {
      var n := |props| - 1;
      var init := props[..n];
      var p := props[n];
      EagerNamesIff(init, x);
      EagerNamesOfIff(p, p.relations);
      if x in EagerNames(init) {
        var i, j :| RelationAt(init, i, j) && init[i].relations[j].eager && x == init[i].name;
        assert props[i] == init[i];
      } else if x in EagerNamesOf(p, p.relations) {
        var j :| 0 <= j < |p.relations| && p.relations[j].eager;
        assert RelationAt(props, n, j);
      }
      if exists i, j :: RelationAt(props, i, j) && props[i].relations[j].eager && x == props[i].name {
        var i, j :| RelationAt(props, i, j) && props[i].relations[j].eager && x == props[i].name;
        if i < n {
          assert init[i] == props[i] && RelationAt(init, i, j);
        }
      }
    }
  }

  lemma {:induction false} EagerNamesOfIff(p: Property, rs: seq<Relationship>)
    ensures forall x :: x in EagerNamesOf(p, rs) <==> (exists j :: 0 <= j < |rs| && rs[j].eager) && x == p.name
    decreases |rs|
  {
    if rs != [] {
      var init := rs[..|rs| - 1];
      EagerNamesOfIff(p, init);
      if exists j :: 0 <= j < |init| && init[j].eager {
        var j :| 0 <= j < |init| && init[j].eager;
        assert rs[j] == init[j];
      }
      if exists j :: 0 <= j < |rs| && rs[j].eager {
        var j :| 0 <= j < |rs| && rs[j].eager;
        if j < |rs| - 1 {
          assert init[j] == rs[j];
        }
      }
    }
  }

  /** The lazy `BelongsTo` uses the attribute's own foreign key when one is given, the conventional one otherwise. */
  lemma LazyBelongsToKey(reg: Registry, p: Property, r: Relationship)
    requires Known(reg, p.typeName) && r.BelongsTo?
    ensures Lazy(reg, p, r).LazyBelongsTo? && Lazy(reg, p, r).related == p.typeName
    ensures r.foreignKey.Some? ==> Lazy(reg, p, r).key == r.foreignKey.value
    ensures r.foreignKey.None? ==> Lazy(reg, p, r).key == Info(reg, p.typeName).foreignKey
  {
  }

  /** Every relationship attribute registers under its property's name, and nothing else does. */
  lemma {:induction false} LazyEntriesKeys(reg: Registry, props: seq<Property>, x: string)
    requires BelongsToTypesKnown(reg, props)
    ensures x in Keys(LazyEntries(reg, props)) <==> exists i :: 0 <= i < |props| && props[i].relations != [] && props[i].name == x
    decreases |props|
  {
    if props != [] {
      var n := |props| - 1;
      var init := props[..n];
      var p := props[n];
      assert BelongsToTypesKnown(reg, init);
      LazyEntriesKeys(reg, init, x);
      LazyEntriesOfKeys(reg, p, p.relations, x);
      KeysAppend(LazyEntries(reg, init), LazyEntriesOf(reg, p, p.relations));
      if exists i :: 0 <= i < |init| && init[i].relations != [] && init[i].name == x {
        var i :| 0 <= i < |init| && init[i].relations != [] && init[i].name == x;
        assert props[i] == init[i];
      }
      if exists i :: 0 <= i < |props| && props[i].relations != [] && props[i].name == x {
        var i :| 0 <= i < |props| && props[i].relations != [] && props[i].name == x;
        if i < n {
          assert init[i] == props[i];
        }
      }
    }
  }

  lemma {:induction false} LazyEntriesOfKeys(reg: Registry, p: Property, rs: seq<Relationship>, x: string)
    requires AnyBelongsTo(rs) ==> Known(reg, p.typeName)
    ensures x in Keys(LazyEntriesOf(reg, p, rs)) <==> rs != [] && x == p.name
    decreases |rs|
  {
    if rs != [] {
      var init := rs[..|rs| - 1];
      LazyEntriesOfKeys(reg, p, init, x);
      KeysSnoc(LazyEntriesOf(reg, p, init), (p.name, Lazy(reg, p, rs[|rs| - 1])));
    }
  }

  lemma DefinitionsUnique(reg: Registry, kind: TraitKind, c: ClassName)
    requires WellFormed(reg) && Known(reg, c)
    ensures UniqueKeys(DefinitionsOf(reg, kind, c))
  {
    match kind
    case ColumnsTrait => ColumnKeys(reg, c);
    case ModelsTrait =>
      assert UniqueKeys<Column>([]);
      AssignAllKeys([], DeclaredEntries(reg, ModelBaseInstance, Info(reg, c).properties));
  }

  /**
   * After initialisation `fillable` (or `hidden`) has no duplicates and holds
   * exactly what it held before, the columns with that flag, and the
   * conventional foreign key of every class a `BelongsTo` points at.
   */
  lemma InitializedFlagList(reg: Registry, kind: TraitKind, c: ClassName, before: seq<string>, flag: Flag, x: string)
    requires WellFormed(reg) && Known(reg, c)
    ensures BelongsToTypesKnown(reg, Info(reg, c).properties)
    ensures var defs := DefinitionsOf(reg, kind, c);
            var props := Info(reg, c).properties;
            var after := Dedup(before + FlaggedNames(defs, flag) + BelongsToKeys(reg, props));
            && NoDups(after)
            && (x in after <==>
                  || x in before
                  || (Get(defs, x).Some? && HasFlag(Get(defs, x).value, flag))
                  || exists i, j :: RelationAt(props, i, j) && props[i].relations[j].BelongsTo? &&
                                    Known(reg, props[i].typeName) && x == Info(reg, props[i].typeName).foreignKey)
  {
    PropertiesTyped(reg, c);
    var defs := DefinitionsOf(reg, kind, c);
    var props := Info(reg, c).properties;
    var all := before + FlaggedNames(defs, flag) + BelongsToKeys(reg, props);
    DefinitionsUnique(reg, kind, c);
    FlaggedNamesIff(defs, flag, x);
    BelongsToKeysIff(reg, props, x);
    DedupMember(all, x);
    DedupNoDups(all);
  }

  /** After initialisation `with` has no duplicates and gains exactly the properties with an eager relationship. */
  lemma InitializedEagerLoads(reg: Registry, c: ClassName, before: seq<string>, x: string)
    requires WellFormed(reg) && Known(reg, c)
    ensures var props := Info(reg, c).properties;
            var after := Dedup(before + EagerNames(props));
            && NoDups(after)
            && (x in after <==>
                  (x in before ||
                   exists i, j :: RelationAt(props, i, j) && props[i].relations[j].eager && x == props[i].name))
  {
    var props := Info(reg, c).properties;
    EagerNamesIff(props, x);
    DedupMember(before + EagerNames(props), x);
    DedupNoDups(before + EagerNames(props));
  }

  /**
   * Before `array_unique`, `casts` maps each resolved column with a truthy
   * cast to that cast, and keeps every other entry it had.
   */
  lemma CastsBeforeUnique(reg: Registry, kind: TraitKind, c: ClassName, before: OMap<string>, k: string)
    requires WellFormed(reg) && Known(reg, c)
    ensures var col := Get(DefinitionsOf(reg, kind, c), k);
            Get(AssignAll(before, CastEntries(DefinitionsOf(reg, kind, c))), k) ==
              if col.Some? && col.value.cast.Some? && TruthyString(col.value.cast.value) then Some(col.value.cast.value)
              else Get(before, k)
  {
    var defs := DefinitionsOf(reg, kind, c);
    DefinitionsUnique(reg, kind, c);
    AssignAllGet(before, CastEntries(defs), k);
    CastEntriesGet(defs, k);
    GetSome(CastEntries(defs), k);
  }

  /**
   * The root model's three timestamp columns all cast to `datetime`, so
   * `array_unique` leaves a cast on `created_at` alone.
   */
  lemma RootModelCasts(reg: Registry)
    requires WellFormed(reg) && "int" !in reg.classes && CARBON !in reg.classes
    ensures UniqueValues(AssignAll([], CastEntries(DefinitionsOf(reg, ColumnsTrait, ROOT_MODEL)))) ==
            [("created_at", "datetime")]
  {
    RootColumnDefinitions(reg);
    RootCastEntries();
    var ce := [("created_at", "datetime"), ("updated_at", "datetime"), ("deleted_at", "datetime")];
    assert UniqueKeys([] + ce);
    AssignAllFresh([], ce);
    assert [] + ce == ce;
    assert ce[..1][..0] == [] && ce[..2][..1] == ce[..1] && ce[..3][..2] == ce[..2];
    assert UniqueValues(ce[..1]) == [("created_at", "datetime")];
    assert Values(ce[..1])[0] == "datetime";
    assert UniqueValues(ce[..2]) == [("created_at", "datetime")];
    assert Values(ce[..2])[0] == "datetime";
  }

  lemma RootCastEntries()
    ensures CastEntries(RootColumns) == [("created_at", "datetime"), ("updated_at", "datetime"), ("deleted_at", "datetime")]
  {
    var d := RootColumns;
    assert d[..1][..0] == [] && d[..2][..1] == d[..1] && d[..3][..2] == d[..2] && d[..4] == d;
    assert CastEntries(d[..1]) == [];
    assert CastEntries(d[..2]) == [("created_at", "datetime")];
    assert CastEntries(d[..3]) == [("created_at", "datetime"), ("updated_at", "datetime")];
  }

  /**
   * The event hooks run initialisation more than once on an instance; a
   * second run leaves `fillable`, `hidden`, `appends` and `with` as the first
   * left them.
   */
  lemma ListsIdempotent(before: seq<string>, added: seq<string>, more: seq<string>)
    ensures Dedup(Dedup(before + added + more) + added + more) == Dedup(before + added + more)
  {
    assert before + added + more == before + (added + more);
    assert Dedup(before + added + more) + added + more == Dedup(before + (added + more)) + (added + more);
    AppendDedupIdempotent(before, added + more);
  }

  // ---------------------------------------------------------------------
  // The instance

  /** The state `initializeHasColumnAttributes()` reads and writes on a model instance. */
  class ModelInstance {
    var table: string
    var fillable: seq<string>
    var hidden: seq<string>
    var casts: OMap<string>
    var appends: seq<string>
    var eagerLoads: seq<string>
    var dynamicRelations: OMap<LazyRelation>

    /** A fresh instance carries the lists its class declares, and no lazy relations yet. */
    constructor(table: string, fillable: seq<string>, hidden: seq<string>, casts: OMap<string>,
                appends: seq<string>, eagerLoads: seq<string>)
      ensures this.table == table && this.fillable == fillable && this.hidden == hidden
      ensures this.casts == casts && this.appends == appends && this.eagerLoads == eagerLoads
      ensures dynamicRelations == []
    {
      this.table := table;
      this.fillable := fillable;
      this.hidden := hidden;
      this.casts := casts;
      this.appends := appends;
      this.eagerLoads := eagerLoads;
      dynamicRelations := [];
    }

    /** `initializeHasColumnAttributes()` for class `c` using trait `kind`. */
    method Initialize(reg: Registry, kind: TraitKind, c: ClassName)
      requires WellFormed(reg) && Known(reg, c)
      modifies this
      ensures table == TableName(reg, c)
      ensures BelongsToTypesKnown(reg, Info(reg, c).properties)
      ensures fillable == Dedup(old(fillable) + FlaggedNames(DefinitionsOf(reg, kind, c), Fillable)
                                + BelongsToKeys(reg, Info(reg, c).properties))
      ensures hidden == Dedup(old(hidden) + FlaggedNames(DefinitionsOf(reg, kind, c), Hidden)
                              + BelongsToKeys(reg, Info(reg, c).properties))
      ensures casts == UniqueValues(AssignAll(old(casts), CastEntries(DefinitionsOf(reg, kind, c))))
      ensures appends == Dedup(old(appends) + AppendNames(reg, Info(reg, c).appendMethods))
      ensures eagerLoads == Dedup(old(eagerLoads) + EagerNames(Info(reg, c).properties))
      ensures dynamicRelations == AssignAll(old(dynamicRelations), LazyEntries(reg, Info(reg, c).properties))
    {
      var defs;
      match kind {
        case ColumnsTrait => defs := GetColumnDefinitions(reg, c);
        case ModelsTrait => defs := GetSimpleColumnDefinitions(reg, c);
      }
      assert defs == DefinitionsOf(reg, kind, c);
      PropertiesTyped(reg, c);
      var props := Info(reg, c).properties;
      var flagged, hiddenNames, castEntries := ColumnFlags(defs);
      var appended := CollectAppends(reg, Info(reg, c).appendMethods);
      assert appended == AppendNames(reg, Info(reg, c).appendMethods);
      var keys, eager, lazy := CollectRelations(reg, props);
      Merge(TableName(reg, c), flagged, hiddenNames, castEntries, appended, keys, eager, lazy);
    }

    /**
     * The assignments that close `initializeHasColumnAttributes()`: the table, then each
     * list appended to and deduplicated, `casts` merged and deduplicated by value, and the
     * lazy relations registered.
     */
    method Merge(table': string, flagged: seq<string>, hiddenNames: seq<string>, castEntries: OMap<string>,
                 appended: seq<string>, keys: seq<string>, eager: seq<string>, lazy: OMap<LazyRelation>)
      modifies this
      ensures table == table'
      ensures fillable == Dedup(old(fillable) + flagged + keys)
      ensures hidden == Dedup(old(hidden) + hiddenNames + keys)
      ensures casts == UniqueValues(AssignAll(old(casts), castEntries))
      ensures appends == Dedup(old(appends) + appended)
      ensures eagerLoads == Dedup(old(eagerLoads) + eager)
      ensures dynamicRelations == AssignAll(old(dynamicRelations), lazy)
    {
      table := table';
      fillable := Dedup(fillable + flagged + keys);
      hidden := Dedup(hidden + hiddenNames + keys);
      appends := Dedup(appends + appended);
      eagerLoads := Dedup(eagerLoads + eager);
      casts := UniqueValues(AssignAll(casts, castEntries));
      dynamicRelations := AssignAll(dynamicRelations, lazy);
    }
  }

  /**
   * The first loop, over the resolved columns: the names it appends to `fillable`
   * and to `hidden`, and the assignments it makes to `casts`, in order.
   */
  method ColumnFlags(defs: OMap<Column>) returns (fillable: seq<string>, hidden: seq<string>, casts: OMap<string>)
    ensures fillable == FlaggedNames(defs, Fillable)
    ensures hidden == FlaggedNames(defs, Hidden)
    ensures casts == CastEntries(defs)
  {
    fillable, hidden, casts := [], [], [];
    var i := 0;
    while i < |defs|
      invariant 0 <= i <= |defs|
      invariant fillable == FlaggedNames(defs[..i], Fillable)
      invariant hidden == FlaggedNames(defs[..i], Hidden)
      invariant casts == CastEntries(defs[..i])
    {
      var (name, column) := defs[i];
      assert defs[..i + 1][..i] == defs[..i];
      if column.fillable {
        fillable := fillable + [name];
      }
      if column.hidden {
        hidden := hidden + [name];
      }
      if column.cast.Some? && TruthyString(column.cast.value) {
        casts := casts + [(name, column.cast.value)];
      }
      i := i + 1;
    }
    assert defs[..i] == defs;
  }

  /** The second loop: the snake-cased name of each `#[Append]` method, in order. */
  method CollectAppends(reg: Registry, methods: seq<string>) returns (appends: seq<string>)
    ensures |appends| == |methods|
    ensures forall i :: 0 <= i < |methods| ==> appends[i] == reg.inflector.snake(methods[i])
  {
    appends := [];
    var i := 0;
    while i < |methods|
      invariant 0 <= i <= |methods|
      invariant |appends| == i
      invariant forall k :: 0 <= k < i ==> appends[k] == reg.inflector.snake(methods[k])
    {
      appends := appends + [reg.inflector.snake(methods[i])];
      i := i + 1;
    }
  }

  /**
   * The third loop, over properties: the keys a `BelongsTo` adds to `fillable` and
   * `hidden`, the names added to `with`, and the lazy relations assigned, in order.
   */
  method CollectRelations(reg: Registry, props: seq<Property>)
    returns (keys: seq<string>, eager: seq<string>, lazy: OMap<LazyRelation>)
    requires BelongsToTypesKnown(reg, props)
    ensures keys == BelongsToKeys(reg, props)
    ensures eager == EagerNames(props)
    ensures lazy == LazyEntries(reg, props)
  {
    keys, eager, lazy := [], [], [];
    var i := 0;
    while i < |props|
      invariant 0 <= i <= |props|
      invariant BelongsToTypesKnown(reg, props[..i])
      invariant keys == BelongsToKeys(reg, props[..i])
      invariant eager == EagerNames(props[..i])
      invariant lazy == LazyEntries(reg, props[..i])
    {
      RelationsStep(reg, props, i);
      var keys', eager', lazy' := RelationContributions(reg, props[i]);
      keys, eager, lazy := keys + keys', eager + eager', lazy + lazy';
      i := i + 1;
    }
    assert props[..i] == props;
  }

  /**
   * The inner loop over one property's attributes: the keys a `BelongsTo` adds to
   * `fillable` and `hidden`, the names added to `with`, and the lazy relations assigned.
   */
  method RelationContributions(reg: Registry, p: Property)
    returns (keys: seq<string>, eager: seq<string>, lazy: OMap<LazyRelation>)
    requires AnyBelongsTo(p.relations) ==> Known(reg, p.typeName)
    ensures keys == BelongsToKeysOf(reg, p, p.relations)
    ensures eager == EagerNamesOf(p, p.relations)
    ensures lazy == LazyEntriesOf(reg, p, p.relations)
  {
    var rs := p.relations;
    keys, eager, lazy := [], [], [];
    var j := 0;
    while j < |rs|
      invariant 0 <= j <= |rs|
      invariant keys == BelongsToKeysOf(reg, p, rs[..j])
      invariant eager == EagerNamesOf(p, rs[..j])
      invariant lazy == LazyEntriesOf(reg, p, rs[..j])
    {
      var r := rs[j];
      RelationStepOf(reg, p, j);
      // a BelongsTo adds the conventional key, whatever its own foreignKey says
      if r.BelongsTo? {
        keys := keys + [Mid(reg, ClassString(p.typeName), None)];
      }
      if r.eager {
        eager := eager + [p.name];
      }
      lazy := lazy + [(p.name, Lazy(reg, p, r))];
      j := j + 1;
    }
    assert rs[..j] == rs;
  }
}
