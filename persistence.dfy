/**
 * How a model of the first trait reaches the database: the payload
 * preprocessing of `Model::create(...)`, the hydration of a fetched row
 * (`newFromBuilder`), the split save of a class that shares a parent table,
 * and the route `delete()` takes. The database is a map from table name to
 * rows; a row is an ordered map from column name to a scalar.
 */
module Persistence {
  import opened Php
  import opened OrderedMap
  import opened Attributes
  import opened Metadata
  import opened ColumnResolution

  type Row = OMap<Value>

  /** The tables of the connection; a table the map lacks reads as empty. */
  type Store = map<string, seq<Row>>

  function Rows(store: Store, table: string): seq<Row> {
    if table in store then store[table] else []
  }

  /** `$row->{$column}`: a column the row lacks reads as null. */
  function Cell(row: Row, column: string): Value {
    match Get(row, column)
    case None => VNull
    case Some(v) => v
  }

  /** The row satisfies `where($column, $value)`. */
  predicate Matches(row: Row, column: string, value: Value) {
    Cell(row, column) == value
  }

  /** `->where($column, $value)->first()`: the first matching row, in table order. */
  function FirstMatch(rows: seq<Row>, column: string, value: Value): (r: Option<Row>)
    ensures r.Some? <==> exists i :: 0 <= i < |rows| && Matches(rows[i], column, value)
    ensures r.Some? ==> r.value in rows && Matches(r.value, column, value)
  {
    if rows == [] then None
    else if Matches(rows[0], column, value) then Some(rows[0])
    else
      var r := FirstMatch(rows[1..], column, value);
      assert forall i :: 1 <= i < |rows| ==> rows[i] == rows[1..][i - 1];
      r
  }

  /**
   * The root model uses `SoftDeletes`, so it and every class descending from
   * it query through the `whereNull('deleted_at')` global scope.
   */
  predicate SoftDeleting(reg: Registry, s: ClassName)
    requires WellFormed(reg)
  {
    s == ROOT_MODEL || IsStrictSubclass(reg, s, ROOT_MODEL)
  }

  /** The rows the `SoftDeletes` scope lets through, in table order: those whose `deleted_at` is null. */
  function NotTrashed(rows: seq<Row>): (r: seq<Row>)
    ensures forall row :: row in r <==> row in rows && Cell(row, "deleted_at") == VNull
    decreases |rows|
  {
    if rows == [] then []
    else (if Cell(rows[0], "deleted_at") == VNull then [rows[0]] else []) + NotTrashed(rows[1..])
  }

  /** `$class::find($key)`: the first row of the class's table under its key, within the class's global scope. */
  function Find(reg: Registry, store: Store, s: ClassName, key: Value): Option<Row>
    requires WellFormed(reg) && Known(reg, s)
  {
    var rows := Rows(store, TableName(reg, s));
    FirstMatch(if SoftDeleting(reg, s) then NotTrashed(rows) else rows, Info(reg, s).keyName, key)
  }

  /**
   * `find` finds a row iff the table holds one under the key that the scope
   * lets through: for a soft-deleting class, one whose `deleted_at` is null.
   */
  lemma FindSpec(reg: Registry, store: Store, s: ClassName, key: Value)
    requires WellFormed(reg) && Known(reg, s)
    ensures var rows := Rows(store, TableName(reg, s));
            Find(reg, store, s, key).Some? <==>
              exists i :: 0 <= i < |rows| && Matches(rows[i], Info(reg, s).keyName, key) &&
                          (SoftDeleting(reg, s) ==> Cell(rows[i], "deleted_at") == VNull)
  {
    if SoftDeleting(reg, s) {
      NotTrashedMatch(Rows(store, TableName(reg, s)), Info(reg, s).keyName, key);
    }
  }

  lemma NotTrashedMatch(rows: seq<Row>, k: string, key: Value)
    ensures FirstMatch(NotTrashed(rows), k, key).Some? <==>
              exists i :: 0 <= i < |rows| && Matches(rows[i], k, key) && Cell(rows[i], "deleted_at") == VNull
  {
    var live := NotTrashed(rows);
    if FirstMatch(live, k, key).Some? {
      var j :| 0 <= j < |live| && Matches(live[j], k, key);
      assert live[j] in rows;
      var i :| 0 <= i < |rows| && rows[i] == live[j];
      assert Matches(rows[i], k, key) && Cell(rows[i], "deleted_at") == VNull;
    }
    if exists i :: 0 <= i < |rows| && Matches(rows[i], k, key) && Cell(rows[i], "deleted_at") == VNull {
      var i :| 0 <= i < |rows| && Matches(rows[i], k, key) && Cell(rows[i], "deleted_at") == VNull;
      assert rows[i] in live;
      var j :| 0 <= j < |live| && live[j] == rows[i];
      assert Matches(live[j], k, key);
    }
  }

  // ---------------------------------------------------------------------
  // create(): the payload before it reaches Eloquent

  const INTERNAL := "__internal__"

  /** `$parameters[0]['__internal__'] ?? false` is truthy: the call comes from a child's create. */
  predicate Internal(payload: Row) {
    Get(payload, INTERNAL).Some? && Truthy(Get(payload, INTERNAL).value)
  }

  /** The column definitions whose default is truthy, as (name, default) entries in definition order. */
  function DefaultEntries(defs: OMap<Column>): Row
    decreases |defs|
  {
    if defs == [] then []
    else
      var init := DefaultEntries(defs[..|defs| - 1]);
      var e := defs[|defs| - 1];
      if Truthy(e.1.defaultValue) then init + [(e.0, e.1.defaultValue)] else init
  }

  /**
   * The defaults loop. `diffKeys` is given the payload's keys as a list, whose
   * own keys are positions, so no column is skipped: every truthy default is
   * written over whatever the caller passed.
   */
  function ApplyDefaults(payload: Row, defs: OMap<Column>): Row {
    AssignAll(payload, DefaultEntries(defs))
  }

  /** One turn of the renaming loop: a key naming a model class moves to that model's foreign key. */
  function RenameStep(reg: Registry, test: ModelTest, m: Row, e: (string, Value)): Row
    requires WellFormed(reg)
  {
    if IsModelType(reg, test, e.0) then Assign(Remove(m, e.0), Mid(reg, Instance(e.0), None), e.1) else m
  }

  /** The renaming loop over the snapshot `es` (foreach iterates a copy), applied to `m`. */
  function RenameAll(reg: Registry, test: ModelTest, m: Row, es: Row): Row
    requires WellFormed(reg)
    decreases |es|
  {
    if es == [] then m
    else RenameStep(reg, test, RenameAll(reg, test, m, es[..|es| - 1]), es[|es| - 1])
  }

  lemma RenameAllStep(reg: Registry, test: ModelTest, m: Row, i: nat)
    requires WellFormed(reg) && i < |m|
    ensures RenameAll(reg, test, m, m[..i + 1]) == RenameStep(reg, test, RenameAll(reg, test, m, m[..i]), m[i])
  {
    assert m[..i + 1][..i] == m[..i];
  }

  function RenameModelKeys(reg: Registry, test: ModelTest, payload: Row): Row
    requires WellFormed(reg)
  {
    RenameAll(reg, test, payload, payload)
  }

  /**
   * What `create` hands on: the nested `create` on the parent class, when
   * there is one, and the payload of the class's own `create`.
   */
  datatype CreateCalls = CreateCalls(parentCreate: Option<(ClassName, Row)>, payload: Row)

  /**
   * `__callStatic('create', [$payload])` of the first trait. `parentId` is
   * the id of the parent row the nested create inserts.
   */
  function PrepareCreate(reg: Registry, c: ClassName, payload: Row, parentId: Value): CreateCalls
    requires WellFormed(reg) && Known(reg, c)
  {
    if Internal(payload) then CreateCalls(None, payload)
    else
      var renamed := RenameModelKeys(reg, EloquentSubclass, ApplyDefaults(payload, ColumnDefinitions(reg, c)));
      match Parent(reg, c)
      case None => CreateCalls(None, renamed)
      case Some(p) =>
        WellFormedParent(reg, c);
        var forParent := Assign(Assign(renamed, "type", VStr(c)), INTERNAL, VBool(true));
        CreateCalls(Some((p, forParent)), Assign(Remove(forParent, INTERNAL), Mid(reg, Instance(p), None), parentId))
  }

  /** `__callStatic('create', [$payload])` of the second trait: only the renaming, for `ModelBase` classes. */
  function PrepareModelsCreate(reg: Registry, payload: Row): CreateCalls
    requires WellFormed(reg)
  {
    CreateCalls(None, RenameModelKeys(reg, ModelBaseInstance, payload))
  }

  /**
   * The second trait's `create` makes no nested call and leaves no key naming
   * a `ModelBase` class (when no foreign key itself names one); a payload
   * without such keys reaches Eloquent unchanged, with no defaults filled in.
   */
  lemma ModelsCreateSpec(reg: Registry, payload: Row)
    requires WellFormed(reg)
    ensures PrepareModelsCreate(reg, payload).parentCreate == None
    ensures (forall j | 0 <= j < |payload| && IsModelType(reg, ModelBaseInstance, payload[j].0) ::
               !IsModelType(reg, ModelBaseInstance, Mid(reg, Instance(payload[j].0), None))) ==>
            forall k | k in Keys(PrepareModelsCreate(reg, payload).payload) :: !IsModelType(reg, ModelBaseInstance, k)
    ensures (forall j | 0 <= j < |payload| :: !IsModelType(reg, ModelBaseInstance, payload[j].0)) ==>
            PrepareModelsCreate(reg, payload).payload == payload
  {
    if forall j | 0 <= j < |payload| && IsModelType(reg, ModelBaseInstance, payload[j].0) ::
         !IsModelType(reg, ModelBaseInstance, Mid(reg, Instance(payload[j].0), None)) {
      NoModelKeysRemain(reg, ModelBaseInstance, payload);
    }
    if forall j | 0 <= j < |payload| :: !IsModelType(reg, ModelBaseInstance, payload[j].0) {
      RenameIdentity(reg, ModelBaseInstance, payload, payload);
    }
  }

  /** The first trait's `create` preprocessing, loop by loop. */
  method CreatePayload(reg: Registry, c: ClassName, payload: Row, parentId: Value) returns (calls: CreateCalls)
    requires WellFormed(reg) && Known(reg, c)
    ensures calls == PrepareCreate(reg, c, payload, parentId)
  {
    if Internal(payload) {
      return CreateCalls(None, payload);
    }
    var columns := GetColumnDefinitions(reg, c);
    var parameters := payload;
    var i := 0;
    while i < |columns|
      invariant 0 <= i <= |columns|
      invariant parameters == AssignAll(payload, DefaultEntries(columns[..i]))
    {
      var (key, column) := columns[i];
      assert columns[..i + 1][..i] == columns[..i];
      if Truthy(column.defaultValue) {
        AssignAllSnoc(payload, DefaultEntries(columns[..i]), (key, column.defaultValue));
        parameters := Assign(parameters, key, column.defaultValue);
      }
      i := i + 1;
    }
    assert columns[..i] == columns;
    parameters := RenameKeys(reg, EloquentSubclass, parameters);
    var parentClass := Parent(reg, c);
    if parentClass.Some? {
      WellFormedParent(reg, c);
      parameters := Assign(parameters, "type", VStr(c));
      parameters := Assign(parameters, INTERNAL, VBool(true));
      var forParent := parameters;
      parameters := Remove(parameters, INTERNAL);
      parameters := Assign(parameters, Mid(reg, Instance(parentClass.value), None), parentId);
      calls := CreateCalls(Some((parentClass.value, forParent)), parameters);
    } else {
      calls := CreateCalls(None, parameters);
    }
  }

  /** The body of the renaming loop for one entry of the snapshot. */
  method RenameEntry(reg: Registry, test: ModelTest, parameters: Row, e: (string, Value)) returns (renamed: Row)
    requires WellFormed(reg)
    ensures renamed == RenameStep(reg, test, parameters, e)
  {
    var (key, value) := e;
    renamed := parameters;
    if IsModelType(reg, test, key) {
      renamed := Assign(Remove(parameters, key), Mid(reg, Instance(key), None), value);
    }
  }

  /** The renaming loop, shared by both traits' `create`. */
  method RenameKeys(reg: Registry, test: ModelTest, payload: Row) returns (parameters: Row)
    requires WellFormed(reg)
    ensures parameters == RenameModelKeys(reg, test, payload)
  {
    parameters := payload;
    var i := 0;
    while i < |payload|
      invariant 0 <= i <= |payload|
      invariant parameters == RenameAll(reg, test, payload, payload[..i])
    {
      RenameAllStep(reg, test, payload, i);
      parameters := RenameEntry(reg, test, parameters, payload[i]);
      i := i + 1;
    }
    assert payload[..i] == payload;
  }

  // ---------------------------------------------------------------------
  // What create() promises

  lemma {:induction false} DefaultEntriesGet(defs: OMap<Column>, k: string)
    requires UniqueKeys(defs)
    ensures Get(DefaultEntries(defs), k) ==
              if Get(defs, k).Some? && Truthy(Get(defs, k).value.defaultValue)
              then Some(Get(defs, k).value.defaultValue) else None
    decreases |defs|
  {
    if defs != [] {
      var init := defs[..|defs| - 1];
      var e := defs[|defs| - 1];
      assert defs == init + [e];
      UniqueKeysSnoc(init, e);
      DefaultEntriesGet(init, k);
      GetSome(init, k);
      var di := DefaultEntries(init);
      if Truthy(e.1.defaultValue) {
        assert (di + [(e.0, e.1.defaultValue)])[..|di|] == di;
      }
    }
  }

  /**
   * After the defaults loop a column with a truthy default holds that default,
   * whether or not the caller supplied a value; every other key is as passed.
   */
  lemma DefaultsOverwrite(payload: Row, defs: OMap<Column>, k: string)
    requires UniqueKeys(defs)
    ensures Get(ApplyDefaults(payload, defs), k) ==
              if Get(defs, k).Some? && Truthy(Get(defs, k).value.defaultValue)
              then Some(Get(defs, k).value.defaultValue) else Get(payload, k)
  {
    AssignAllGet(payload, DefaultEntries(defs), k);
    DefaultEntriesGet(defs, k);
    GetSome(DefaultEntries(defs), k);
  }

  /** `unset($m[$k])` then reading `$m[$x]`. */
  lemma RemoveGet(m: Row, k: string, x: string)
    ensures Get(Remove(m, k), x) == if x == k then None else Get(m, x)
  {
    OnlyGet(m, [k], x);
  }

  /** A key no renamed entry touches (neither the class name nor its foreign key) reads as before. */
  lemma {:induction false} RenameUntouched(reg: Registry, test: ModelTest, m: Row, es: Row, x: string)
    requires WellFormed(reg)
    requires forall j | 0 <= j < |es| && IsModelType(reg, test, es[j].0) ::
               x != es[j].0 && x != Mid(reg, Instance(es[j].0), None)
    ensures Get(RenameAll(reg, test, m, es), x) == Get(m, x)
    decreases |es|
  {
    if es != [] {
      var init := es[..|es| - 1];
      var e := es[|es| - 1];
      assert forall j | 0 <= j < |init| :: init[j] == es[j];
      RenameUntouched(reg, test, m, init, x);
      if IsModelType(reg, test, e.0) {
        var prev := RenameAll(reg, test, m, init);
        AssignGet(Remove(prev, e.0), Mid(reg, Instance(e.0), None), e.1, x);
        RemoveGet(prev, e.0, x);
      }
    }
  }

  /**
   * The value under a model-class key ends up under that model's foreign key,
   * unless a later model-class key writes the same foreign key (or is it).
   */
  lemma {:induction false} RenameMovesValue(reg: Registry, test: ModelTest, m: Row, es: Row, i: nat)
    requires WellFormed(reg) && i < |es| && IsModelType(reg, test, es[i].0)
    requires forall j | i < j < |es| && IsModelType(reg, test, es[j].0) ::
               Mid(reg, Instance(es[j].0), None) != Mid(reg, Instance(es[i].0), None) &&
               es[j].0 != Mid(reg, Instance(es[i].0), None)
    ensures Get(RenameAll(reg, test, m, es), Mid(reg, Instance(es[i].0), None)) == Some(es[i].1)
    decreases |es|
  {
    var init := es[..|es| - 1];
    var e := es[|es| - 1];
    var fk := Mid(reg, Instance(es[i].0), None);
    var prev := RenameAll(reg, test, m, init);
    if i == |es| - 1 {
      AssignGet(Remove(prev, e.0), fk, e.1, fk);
    } else {
      assert init[i] == es[i];
      assert forall j | i < j < |init| :: init[j] == es[j];
      RenameMovesValue(reg, test, m, init, i);
      if IsModelType(reg, test, e.0) {
        AssignGet(Remove(prev, e.0), Mid(reg, Instance(e.0), None), e.1, fk);
        RemoveGet(prev, e.0, fk);
      }
    }
  }

  /**
   * A model-class key left after the loop was in `m` and is not a key of the
   * snapshot, provided no foreign key written is itself a model class name.
   */
  lemma {:induction false} RenameDropsModelKeys(reg: Registry, test: ModelTest, m: Row, es: Row)
    requires WellFormed(reg)
    requires forall j | 0 <= j < |es| && IsModelType(reg, test, es[j].0) ::
               !IsModelType(reg, test, Mid(reg, Instance(es[j].0), None))
    ensures forall k | k in Keys(RenameAll(reg, test, m, es)) && IsModelType(reg, test, k) ::
              k in Keys(m) && k !in Keys(es)
    decreases |es|
  {
    if es != [] {
      var init := es[..|es| - 1];
      var e := es[|es| - 1];
      assert forall j | 0 <= j < |init| :: init[j] == es[j];
      RenameDropsModelKeys(reg, test, m, init);
      KeysSnoc(init, e);
      assert es == init + [e];
      var prev := RenameAll(reg, test, m, init);
      if IsModelType(reg, test, e.0) {
        var fk := Mid(reg, Instance(e.0), None);
        OnlyKeys(prev, [e.0]);
        AssignKeys(Remove(prev, e.0), fk, e.1);
      }
    }
  }

  /** After `create`'s renaming no key of the payload names a model class. */
  lemma NoModelKeysRemain(reg: Registry, test: ModelTest, payload: Row)
    requires WellFormed(reg)
    requires forall j | 0 <= j < |payload| && IsModelType(reg, test, payload[j].0) ::
               !IsModelType(reg, test, Mid(reg, Instance(payload[j].0), None))
    ensures forall k | k in Keys(RenameModelKeys(reg, test, payload)) :: !IsModelType(reg, test, k)
  {
    RenameDropsModelKeys(reg, test, payload, payload);
  }

  /** A payload without model-class keys passes the renaming loop unchanged. */
  lemma {:induction false} RenameIdentity(reg: Registry, test: ModelTest, m: Row, es: Row)
    requires WellFormed(reg)
    requires forall j | 0 <= j < |es| :: !IsModelType(reg, test, es[j].0)
    ensures RenameAll(reg, test, m, es) == m
    decreases |es|
  {
    if es != [] {
      var init := es[..|es| - 1];
      assert forall j | 0 <= j < |init| :: init[j] == es[j];
      RenameIdentity(reg, test, m, init);
    }
  }

  /** A payload already marked internal reaches Eloquent untouched, with no nested create. */
  lemma InternalPassesThrough(reg: Registry, c: ClassName, payload: Row, parentId: Value)
    requires WellFormed(reg) && Known(reg, c) && Internal(payload)
    ensures PrepareCreate(reg, c, payload, parentId) == CreateCalls(None, payload)
  {
  }

  /**
   * For a class with a Table parent: the parent is created first from the
   * prepared payload marked internal and carrying `type`; the class's own
   * payload drops the marker, links the new parent row, and otherwise agrees
   * with what the parent received.
   */
  lemma ChildCreate(reg: Registry, c: ClassName, payload: Row, parentId: Value, x: string)
    requires WellFormed(reg) && Known(reg, c) && !Internal(payload) && Parent(reg, c).Some?
    ensures Known(reg, Parent(reg, c).value)
    ensures var calls := PrepareCreate(reg, c, payload, parentId);
            var fk := Info(reg, Parent(reg, c).value).foreignKey;
            && calls.parentCreate.Some?
            && calls.parentCreate.value.0 == Parent(reg, c).value
            && Get(calls.parentCreate.value.1, "type") == Some(VStr(c))
            && Get(calls.parentCreate.value.1, INTERNAL) == Some(VBool(true))
            && Get(calls.payload, fk) == Some(parentId)
            && (fk != INTERNAL ==> INTERNAL !in Keys(calls.payload))
            && (x != fk && x != INTERNAL ==> Get(calls.payload, x) == Get(calls.parentCreate.value.1, x))
  {
    WellFormedParent(reg, c);
    var p := Parent(reg, c).value;
    var renamed := RenameModelKeys(reg, EloquentSubclass, ApplyDefaults(payload, ColumnDefinitions(reg, c)));
    var fk := Mid(reg, Instance(p), None);
    var forParent := Assign(Assign(renamed, "type", VStr(c)), INTERNAL, VBool(true));
    assert PrepareCreate(reg, c, payload, parentId) ==
           CreateCalls(Some((p, forParent)), Assign(Remove(forParent, INTERNAL), fk, parentId));
    LinkedPayloads(renamed, c, fk, parentId, x);
  }

  /** The two payloads of a child's create, stated on the renamed payload alone. */
  lemma LinkedPayloads(renamed: Row, c: ClassName, fk: string, parentId: Value, x: string)
    ensures var forParent := Assign(Assign(renamed, "type", VStr(c)), INTERNAL, VBool(true));
            var own := Assign(Remove(forParent, INTERNAL), fk, parentId);
            && Get(forParent, "type") == Some(VStr(c))
            && Get(forParent, INTERNAL) == Some(VBool(true))
            && Get(own, fk) == Some(parentId)
            && (fk != INTERNAL ==> INTERNAL !in Keys(own))
            && (x != fk && x != INTERNAL ==> Get(own, x) == Get(forParent, x))
  {
    var typed := Assign(renamed, "type", VStr(c));
    var forParent := Assign(typed, INTERNAL, VBool(true));
    var removed := Remove(forParent, INTERNAL);
    var own := Assign(removed, fk, parentId);
    AssignGet(typed, INTERNAL, VBool(true), "type");
    AssignGet(renamed, "type", VStr(c), "type");
    AssignGet(typed, INTERNAL, VBool(true), INTERNAL);
    AssignGet(removed, fk, parentId, fk);
    AssignGet(removed, fk, parentId, x);
    RemoveGet(forParent, INTERNAL, x);
    AssignGet(removed, fk, parentId, INTERNAL);
    RemoveGet(forParent, INTERNAL, INTERNAL);
    GetSome(own, INTERNAL);
  }

  /**
   * The nested create on the parent class does no preprocessing of its own:
   * no defaults, no renaming and, when the parent has a Table parent too, no
   * row for that grandparent.
   */
  lemma ParentCreateIsPlain(reg: Registry, c: ClassName, payload: Row, parentId: Value, grandParentId: Value)
    requires WellFormed(reg) && Known(reg, c) && !Internal(payload) && Parent(reg, c).Some?
    ensures Known(reg, Parent(reg, c).value)
    ensures var forParent := PrepareCreate(reg, c, payload, parentId).parentCreate.value.1;
            PrepareCreate(reg, Parent(reg, c).value, forParent, grandParentId) == CreateCalls(None, forParent)
  {
    ChildCreate(reg, c, payload, parentId, INTERNAL);
  }

  // ---------------------------------------------------------------------
  // newFromBuilder(): hydrating a fetched row

  /** The three lists an instance holds once initialised. */
  datatype Lists = Lists(fillable: seq<string>, hidden: seq<string>, casts: OMap<string>)

  /** What initialisation guarantees of them: no repeated name, one cast per key, no repeated cast. */
  predicate Initialised(l: Lists) {
    NoDups(l.fillable) && NoDups(l.hidden) && UniqueKeys(l.casts) && NoDups(Values(l.casts))
  }

  /** `array_unique([...$a->x ?? [], ...$b->x ?? []])` for each list. */
  function MergeLists(a: Lists, b: Lists): Lists {
    Lists(Dedup(a.fillable + b.fillable), Dedup(a.hidden + b.hidden), UniqueValues(AssignAll(a.casts, b.casts)))
  }

  /** A hydrated model: its class, its raw attributes and its lists. */
  datatype Hydrated = Hydrated(cls: ClassName, attributes: Row, lists: Lists)

  /** The row's `type` is a string naming a strict subclass of `c`. */
  predicate NamesSubclass(reg: Registry, c: ClassName, attributes: Row)
    requires WellFormed(reg)
  {
    var t := Get(attributes, "type");
    t.Some? && t.value.VStr? && IsStrictSubclass(reg, t.value.s, c)
  }

  /**
   * `newFromBuilder($attributes)` called on a model of class `c`. `listsOf`
   * gives the lists a freshly initialised instance of a class holds.
   */
  function NewFromBuilder(reg: Registry, store: Store, listsOf: ClassName -> Lists, c: ClassName, attributes: Row): Hydrated
    requires WellFormed(reg) && Known(reg, c)
    decreases Depth(reg, TableParent, c)
  {
    if NamesSubclass(reg, c, attributes) then
      var cls := Get(attributes, "type").value.s;
      if LooselyNull(Cell(attributes, "id")) then Hydrated(c, attributes, listsOf(c))
      else
        var child := FirstMatch(Rows(store, TableName(reg, cls)), Mid(reg, ClassString(c), None), Cell(attributes, "id"));
        Hydrated(cls, if child.Some? then AssignAll(attributes, child.value) else [], MergeLists(listsOf(cls), listsOf(c)))
    else
      match Parent(reg, c)
      case None => Hydrated(c, attributes, listsOf(c))
      case Some(p) =>
        WellFormedParent(reg, c);
        var fk := Mid(reg, Instance(p), None);
        match FirstMatch(Rows(store, TableName(reg, p)), Info(reg, p).keyName, Cell(attributes, fk))
        case None => Hydrated(c, attributes, listsOf(c))
        case Some(row) =>
          var parent := NewFromBuilder(reg, store, listsOf, p, row);
          Hydrated(c, AssignAll(parent.attributes, Remove(attributes, fk)), MergeLists(listsOf(c), listsOf(c)))
  }

  /** In a map with unique keys, an entry is what `Get` finds for its key. */
  lemma EntryGet<V>(m: OMap<V>, e: (string, V))
    requires UniqueKeys(m) && e in m
    ensures Get(m, e.0) == Some(e.1)
  {
    var i :| 0 <= i < |m| && m[i] == e;
    GetAt(m, i);
  }

  /**
   * The merged lists hold every name of either side once, and every surviving
   * cast is the one the right-hand side gives for its key, or the left-hand
   * side's when the right-hand side has none; no cast value repeats.
   */
  lemma MergeListsSpec(a: Lists, b: Lists, x: string, e: (string, string))
    requires UniqueKeys(a.casts)
    ensures var r := MergeLists(a, b);
            && NoDups(r.fillable) && NoDups(r.hidden) && NoDups(Values(r.casts))
            && (x in r.fillable <==> x in a.fillable || x in b.fillable)
            && (x in r.hidden <==> x in a.hidden || x in b.hidden)
            && (e in r.casts ==> Get(if e.0 in Keys(b.casts) then b.casts else a.casts, e.0) == Some(e.1))
  {
    var merged := AssignAll(a.casts, b.casts);
    DedupNoDups(a.fillable + b.fillable);
    DedupNoDups(a.hidden + b.hidden);
    DedupElements(a.fillable + b.fillable);
    DedupElements(a.hidden + b.hidden);
    UniqueValuesValues(merged);
    DedupNoDups(Values(merged));
    if e in UniqueValues(merged) {
      AssignAllKeys(a.casts, b.casts);
      EntryGet(merged, e);
      AssignAllGet(a.casts, b.casts, e.0);
    }
  }

  /** Assigning entries a map already holds changes nothing. */
  lemma {:induction false} AssignAllHeld<V>(m: OMap<V>, es: OMap<V>)
    requires UniqueKeys(m)
    requires forall j | 0 <= j < |es| :: Get(m, es[j].0) == Some(es[j].1)
    ensures AssignAll(m, es) == m
    decreases |es|
  {
    if es != [] {
      var init := es[..|es| - 1];
      var e := es[|es| - 1];
      assert forall j | 0 <= j < |init| :: init[j] == es[j];
      AssignAllHeld(m, init);
      GetSome(m, e.0);
      forall i | 0 <= i < |m|
        ensures Replace(m, e.0, e.1)[i] == m[i]
      {
        GetAt(m, i);
      }
    }
  }

  /** `array_unique` of a map whose values are already distinct keeps it whole. */
  lemma {:induction false} UniqueValuesOfDistinct<V>(m: OMap<V>)
    requires NoDups(Values(m))
    ensures UniqueValues(m) == m
    decreases |m|
  {
    if m != [] {
      var init := m[..|m| - 1];
      assert Values(init) == Values(m)[..|m| - 1];
      UniqueValuesOfDistinct(init);
      assert m[|m| - 1].1 == Values(m)[|m| - 1];
      assert m == init + [m[|m| - 1]];
    }
  }

  /** Merging an instance's initialised lists with themselves, as the child-role branch does, changes nothing. */
  lemma MergeSelf(l: Lists)
    requires Initialised(l)
    ensures MergeLists(l, l) == l
  {
    DedupAbsorb(l.fillable, l.fillable);
    DedupOfNoDups(l.fillable);
    DedupAbsorb(l.hidden, l.hidden);
    DedupOfNoDups(l.hidden);
    forall j | 0 <= j < |l.casts|
      ensures Get(l.casts, l.casts[j].0) == Some(l.casts[j].1)
    {
      GetAt(l.casts, j);
    }
    AssignAllHeld(l.casts, l.casts);
    UniqueValuesOfDistinct(l.casts);
  }

  /**
   * A row whose `type` names a subclass and whose id is not null becomes an
   * instance of that subclass: with a subclass row its attributes are the
   * fetched ones overlaid by the subclass row's, without one it has none.
   * A null id keeps the plain hydration of `c`.
   */
  lemma HydratePolymorphic(reg: Registry, store: Store, listsOf: ClassName -> Lists, c: ClassName, attributes: Row, k: string)
    requires WellFormed(reg) && Known(reg, c) && NamesSubclass(reg, c, attributes)
    ensures var r := NewFromBuilder(reg, store, listsOf, c, attributes);
            var cls := Get(attributes, "type").value.s;
            var child := FirstMatch(Rows(store, TableName(reg, cls)), Mid(reg, ClassString(c), None), Cell(attributes, "id"));
            && (LooselyNull(Cell(attributes, "id")) ==> r == Hydrated(c, attributes, listsOf(c)))
            && (!LooselyNull(Cell(attributes, "id")) ==>
                  && r.cls == cls
                  && r.lists == MergeLists(listsOf(cls), listsOf(c))
                  && (child.None? ==> r.attributes == [])
                  && (child.Some? ==>
                        Get(r.attributes, k) == if k in Keys(child.value) then Get(child.value, k) else Get(attributes, k)))
  {
    var cls := Get(attributes, "type").value.s;
    var child := FirstMatch(Rows(store, TableName(reg, cls)), Mid(reg, ClassString(c), None), Cell(attributes, "id"));
    if child.Some? {
      AssignAllGet(attributes, child.value, k);
    }
  }

  /**
   * Any other row is hydrated as `c`; for a class with a Table parent whose
   * row is found by the link column, the attributes are the parent's
   * hydrated attributes overlaid by the fetched row without the link column.
   */
  lemma HydrateChildRole(reg: Registry, store: Store, listsOf: ClassName -> Lists, c: ClassName, attributes: Row, k: string)
    requires WellFormed(reg) && Known(reg, c) && !NamesSubclass(reg, c, attributes)
    ensures Parent(reg, c).Some? ==> Known(reg, Parent(reg, c).value)
    ensures var r := NewFromBuilder(reg, store, listsOf, c, attributes);
            && r.cls == c
            && (Parent(reg, c).None? ==> r.attributes == attributes && r.lists == listsOf(c))
            && (Parent(reg, c).Some? ==>
                  var p := Parent(reg, c).value;
                  var fk := Info(reg, p).foreignKey;
                  var row := FirstMatch(Rows(store, TableName(reg, p)), Info(reg, p).keyName, Cell(attributes, fk));
                  && (row.None? ==> r.attributes == attributes)
                  && (row.Some? ==>
                        var parent := NewFromBuilder(reg, store, listsOf, p, row.value);
                        Get(r.attributes, k) ==
                          if k != fk && k in Keys(attributes) then Get(attributes, k) else Get(parent.attributes, k))
                  && (Initialised(listsOf(c)) ==> r.lists == listsOf(c)))
  {
    if Parent(reg, c).Some? {
      WellFormedParent(reg, c);
      var p := Parent(reg, c).value;
      var fk := Info(reg, p).foreignKey;
      var row := FirstMatch(Rows(store, TableName(reg, p)), Info(reg, p).keyName, Cell(attributes, fk));
      if row.Some? {
        var parent := NewFromBuilder(reg, store, listsOf, p, row.value);
        AssignAllGet(parent.attributes, Remove(attributes, fk), k);
        RemoveGet(attributes, fk, k);
        OnlyKeys(attributes, [fk]);
        GetSome(attributes, k);
        if Initialised(listsOf(c)) {
          MergeSelf(listsOf(c));
        }
      }
    }
  }

  // ---------------------------------------------------------------------
  // save(): a class with a Table parent writes two tables

  /** `Collection::diff($ys)`: the names of `xs` not in `ys`, in order. */
  function Without(xs: seq<string>, ys: seq<string>): seq<string>
    decreases |xs|
  {
    if xs == [] then []
    else
      var init := Without(xs[..|xs| - 1], ys);
      if xs[|xs| - 1] in ys then init else init + [xs[|xs| - 1]]
  }

  lemma {:induction false} WithoutIff(xs: seq<string>, ys: seq<string>, x: string)
    ensures x in Without(xs, ys) <==> x in xs && x !in ys
    decreases |xs|
  {
    if xs != [] {
      var init := xs[..|xs| - 1];
      WithoutIff(init, ys, x);
      assert xs == init + [xs[|xs| - 1]];
    }
  }

  /** The dirty attributes that belong to the parent's columns. */
  function ParentAttributes(reg: Registry, c: ClassName, dirty: Row): Row
    requires WellFormed(reg) && Known(reg, c) && Parent(reg, c).Some?
  {
    WellFormedParent(reg, c);
    Only(dirty, Keys(ColumnDefinitions(reg, Parent(reg, c).value)))
  }

  /** The dirty attributes that belong to the class's own columns and not to the parent's. */
  function ChildAttributes(reg: Registry, c: ClassName, dirty: Row): Row
    requires WellFormed(reg) && Known(reg, c) && Parent(reg, c).Some?
  {
    WellFormedParent(reg, c);
    Only(dirty, Without(Keys(ColumnDefinitions(reg, c)), Keys(ColumnDefinitions(reg, Parent(reg, c).value))))
  }

  /** One query-builder write: an update of every row matching a `where`, or an insert. */
  datatype Write =
    | Update(table: string, column: string, value: Value, changes: Row)
    | Insert(table: string, row: Row)

  /** The writes `save()` makes inside its transaction, own table first. */
  function SaveWrites(reg: Registry, store: Store, c: ClassName, attributes: Row, dirty: Row, now: Value): seq<Write>
    requires WellFormed(reg) && Known(reg, c) && Parent(reg, c).Some?
  {
    WellFormedParent(reg, c);
    var p := Parent(reg, c).value;
    var childAttributes := ChildAttributes(reg, c, dirty);
    var parentAttributes := ParentAttributes(reg, c, dirty);
    var fk := Mid(reg, ClassString(p), None);
    var table := TableName(reg, c);
    var childWrites :=
      if childAttributes == [] then []
      else if FirstMatch(Rows(store, table), fk, Cell(attributes, fk)).Some? then
        [Update(table, fk, Cell(attributes, fk), childAttributes)]
      else [Insert(table, AssignAll(childAttributes, [("created_at", now), ("updated_at", now)]))];
    var parentWrites :=
      if parentAttributes == [] then []
      else [Update(TableName(reg, p), Info(reg, p).keyName, Cell(attributes, Info(reg, c).keyName), parentAttributes)];
    childWrites + parentWrites
  }

  /** The rows after `update($changes)` on those matching the `where`. */
  function UpdateRows(rows: seq<Row>, column: string, value: Value, changes: Row): (r: seq<Row>)
    ensures |r| == |rows|
  {
    seq(|rows|, i requires 0 <= i < |rows| =>
      if Matches(rows[i], column, value) then AssignAll(rows[i], changes) else rows[i])
  }

  function ApplyWrite(store: Store, w: Write): Store {
    match w
    case Update(t, column, value, changes) =>
      if t in store then store[t := UpdateRows(store[t], column, value, changes)] else store
    case Insert(t, row) => store[t := Rows(store, t) + [row]]
  }

  function ApplyWrites(store: Store, ws: seq<Write>): Store
    decreases |ws|
  {
    if ws == [] then store else ApplyWrites(ApplyWrite(store, ws[0]), ws[1..])
  }

  /**
   * The dirty attributes split cleanly: a key goes to the parent when the
   * parent has that column, to the class's own table when only the class
   * has it, and nowhere otherwise; values are carried unchanged.
   */
  lemma SplitDirty(reg: Registry, c: ClassName, dirty: Row, k: string)
    requires WellFormed(reg) && Known(reg, c) && Parent(reg, c).Some?
    ensures Known(reg, Parent(reg, c).value)
    ensures var parentColumns := Keys(ColumnDefinitions(reg, Parent(reg, c).value));
            var ownColumns := Keys(ColumnDefinitions(reg, c));
            && !(k in Keys(ParentAttributes(reg, c, dirty)) && k in Keys(ChildAttributes(reg, c, dirty)))
            && (k in Keys(ParentAttributes(reg, c, dirty)) <==> k in Keys(dirty) && k in parentColumns)
            && (k in Keys(ChildAttributes(reg, c, dirty)) <==>
                  k in Keys(dirty) && k in ownColumns && k !in parentColumns)
            && Get(ParentAttributes(reg, c, dirty), k) == (if k in parentColumns then Get(dirty, k) else None)
            && Get(ChildAttributes(reg, c, dirty), k) ==
                 (if k in ownColumns && k !in parentColumns then Get(dirty, k) else None)
  {
    WellFormedParent(reg, c);
    var parentColumns := Keys(ColumnDefinitions(reg, Parent(reg, c).value));
    var ownColumns := Keys(ColumnDefinitions(reg, c));
    var childColumns := Without(ownColumns, parentColumns);
    WithoutIff(ownColumns, parentColumns, k);
    OnlyKeys(dirty, parentColumns);
    OnlyKeys(dirty, childColumns);
    OnlyGet(dirty, parentColumns, k);
    OnlyGet(dirty, childColumns, k);
  }

  /**
   * What `save()` writes: nothing for an empty side; on its own table an
   * update of the rows linked to the parent when one exists, else an insert
   * stamped with `now`; on the parent's table an update of the row whose
   * primary key is the model's key.
   */
  lemma SaveWritesSpec(reg: Registry, store: Store, c: ClassName, attributes: Row, dirty: Row, now: Value)
    requires WellFormed(reg) && Known(reg, c) && Parent(reg, c).Some?
    ensures Known(reg, Parent(reg, c).value)
    ensures var ws := SaveWrites(reg, store, c, attributes, dirty, now);
            var p := Parent(reg, c).value;
            var fk := Info(reg, p).foreignKey;
            var own := ChildAttributes(reg, c, dirty);
            var shared := ParentAttributes(reg, c, dirty);
            var linked := exists i :: 0 <= i < |Rows(store, TableName(reg, c))| &&
                                      Matches(Rows(store, TableName(reg, c))[i], fk, Cell(attributes, fk));
            && |ws| == (if own == [] then 0 else 1) + (if shared == [] then 0 else 1)
            && (own != [] && linked ==> ws[0] == Update(TableName(reg, c), fk, Cell(attributes, fk), own))
            && (own != [] && !linked ==>
                  && ws[0].Insert? && ws[0].table == TableName(reg, c)
                  && Get(ws[0].row, "created_at") == Some(now) && Get(ws[0].row, "updated_at") == Some(now)
                  && forall k | k != "created_at" && k != "updated_at" :: Get(ws[0].row, k) == Get(own, k))
            && (shared != [] ==>
                  ws[|ws| - 1] == Update(TableName(reg, p), Info(reg, p).keyName, Cell(attributes, Info(reg, c).keyName), shared))
  {
    WellFormedParent(reg, c);
    var p := Parent(reg, c).value;
    var fk := Mid(reg, ClassString(p), None);
    var own := ChildAttributes(reg, c, dirty);
    var shared := ParentAttributes(reg, c, dirty);
    var found := FirstMatch(Rows(store, TableName(reg, c)), fk, Cell(attributes, fk));
    var childWrites :=
      if own == [] then []
      else if found.Some? then [Update(TableName(reg, c), fk, Cell(attributes, fk), own)]
      else [Insert(TableName(reg, c), AssignAll(own, [("created_at", now), ("updated_at", now)]))];
    var parentWrites :=
      if shared == [] then []
      else [Update(TableName(reg, p), Info(reg, p).keyName, Cell(attributes, Info(reg, c).keyName), shared)];
    assert SaveWrites(reg, store, c, attributes, dirty, now) == childWrites + parentWrites;
    Stamped(own, now);
    if own != [] && found.None? {
      assert childWrites[0].row == AssignAll(own, [("created_at", now), ("updated_at", now)]);
    }
  }

  /** The inserted row: the attributes with both timestamps set to `now`. */
  lemma Stamped(own: Row, now: Value)
    ensures var row := AssignAll(own, [("created_at", now), ("updated_at", now)]);
            && Get(row, "created_at") == Some(now) && Get(row, "updated_at") == Some(now)
            && forall k | k != "created_at" && k != "updated_at" :: Get(row, k) == Get(own, k)
  {
    var stamps: Row := [("created_at", now), ("updated_at", now)];
    forall k ensures Get(AssignAll(own, stamps), k) ==
                     if k == "created_at" || k == "updated_at" then Some(now) else Get(own, k)
    {
      AssignAllGet(own, stamps, k);
      assert Keys(stamps) == ["created_at", "updated_at"];
      assert stamps[..1][..0] == [];
      assert Get(stamps, k) == if k == "updated_at" then Some(now) else Get(stamps[..1], k);
    }
  }

  /** `UpdateRows` changes exactly the matching rows, each by assigning the changes. */
  lemma UpdateRowsSpec(rows: seq<Row>, column: string, value: Value, changes: Row, i: nat, k: string)
    requires i < |rows|
    ensures var r := UpdateRows(rows, column, value, changes);
            && (!Matches(rows[i], column, value) ==> r[i] == rows[i])
            && (Matches(rows[i], column, value) ==>
                  Get(r[i], k) == if k in Keys(changes) then Get(changes, k) else Get(rows[i], k))
  {
    AssignAllGet(rows[i], changes, k);
  }

  /** A write touches only its own table. */
  lemma ApplyWritesFrame(store: Store, ws: seq<Write>, t: string)
    requires forall j | 0 <= j < |ws| :: ws[j].table != t
    ensures Rows(ApplyWrites(store, ws), t) == Rows(store, t)
    ensures t in ApplyWrites(store, ws) <==> t in store
    decreases |ws|
  {
    if ws != [] {
      ApplyWritesFrame(ApplyWrite(store, ws[0]), ws[1..], t);
    }
  }

  /** `save()` leaves every table other than the class's and its parent's as it was. */
  lemma SaveFrame(reg: Registry, store: Store, c: ClassName, attributes: Row, dirty: Row, now: Value, t: string)
    requires WellFormed(reg) && Known(reg, c) && Parent(reg, c).Some?
    requires t != TableName(reg, c)
    ensures Known(reg, Parent(reg, c).value)
    ensures t != TableName(reg, Parent(reg, c).value) ==>
              Rows(ApplyWrites(store, SaveWrites(reg, store, c, attributes, dirty, now)), t) == Rows(store, t)
  {
    SaveWritesTables(reg, store, c, attributes, dirty, now);
    var ws := SaveWrites(reg, store, c, attributes, dirty, now);
    if t != TableName(reg, Parent(reg, c).value) {
      ApplyWritesFrame(store, ws, t);
    }
  }

  /** Every write of `save()` goes to the class's own table or to its parent's. */
  lemma SaveWritesTables(reg: Registry, store: Store, c: ClassName, attributes: Row, dirty: Row, now: Value)
    requires WellFormed(reg) && Known(reg, c) && Parent(reg, c).Some?
    ensures Known(reg, Parent(reg, c).value)
    ensures var ws := SaveWrites(reg, store, c, attributes, dirty, now);
            forall j | 0 <= j < |ws| :: ws[j].table == TableName(reg, c) || ws[j].table == TableName(reg, Parent(reg, c).value)
  {
    SaveWritesSpec(reg, store, c, attributes, dirty, now);
  }

  // ---------------------------------------------------------------------
  // The parent as the truthiness test reads it

  /**
   * A `Table` parent of null, `""` or `"0"` reads as no parent at all: the
   * class gets no link column, `create` makes no nested call on a parent
   * class, and `delete()` never takes the child-role branch.
   */
  lemma FalsyParentIgnored(reg: Registry, store: Store, c: ClassName, payload: Row, parentId: Value, attributes: Row)
    requires WellFormed(reg) && Known(reg, c)
    requires GetParent(reg, c) == None || GetParent(reg, c) == Some("") || GetParent(reg, c) == Some("0")
    ensures Parent(reg, c) == None
    ensures LinkKey(reg, c) == []
    ensures Keys(LinkParent(reg, c, Declared(reg, c))) == Dedup(KeptNames(reg, c))
    ensures PrepareCreate(reg, c, payload, parentId).parentCreate == None
    ensures !DeleteRouteOf(reg, store, c, attributes).ChildRoleDelete?
  {
    LinkedKeys(reg, c);
    assert KeptNames(reg, c) + LinkKey(reg, c) == KeptNames(reg, c);
  }

  /**
   * Any other parent name is linked: the class's columns end with the
   * parent's foreign key, `create` first creates the parent row, and a
   * deletion that does not go to a subclass takes the child-role branch.
   */
  lemma TruthyParentLinked(reg: Registry, store: Store, c: ClassName, payload: Row, parentId: Value, attributes: Row)
    requires WellFormed(reg) && Known(reg, c)
    requires GetParent(reg, c).Some? && GetParent(reg, c) != Some("") && GetParent(reg, c) != Some("0")
    ensures Parent(reg, c) == GetParent(reg, c) && Known(reg, GetParent(reg, c).value)
    ensures LinkKey(reg, c) == [Info(reg, GetParent(reg, c).value).foreignKey]
    ensures Info(reg, GetParent(reg, c).value).foreignKey in Keys(LinkParent(reg, c, Declared(reg, c)))
    ensures !Internal(payload) ==> PrepareCreate(reg, c, payload, parentId).parentCreate.Some? &&
                                   PrepareCreate(reg, c, payload, parentId).parentCreate.value.0 == GetParent(reg, c).value
    ensures DeleteRouteOf(reg, store, c, attributes).EloquentDelete? ==> Info(reg, c).children != []
  {
    WellFormedParent(reg, c);
    LinkedKeys(reg, c);
    var fk := Info(reg, GetParent(reg, c).value).foreignKey;
    DedupMember(KeptNames(reg, c) + [fk], fk);
  }

  // ---------------------------------------------------------------------
  // delete(): which way a deletion goes

  datatype DeleteRoute =
    | DelegateToChild(child: ClassName)   // `$child->delete()` on the subclass row
    | ChildRoleDelete(parent: ClassName)  // the transaction over the class's and the parent's tables
    | EloquentDelete                      // `parent::delete()`

  /** The branch `delete()` takes for a model of class `c` with the given attributes. */
  function DeleteRouteOf(reg: Registry, store: Store, c: ClassName, attributes: Row): DeleteRoute
    requires WellFormed(reg) && Known(reg, c)
  {
    var t := Cell(attributes, "type");
    if |Info(reg, c).children| > 0 && Truthy(t) && t.VStr? && Known(reg, t.s) then
      if && IsStrictSubclass(reg, t.s, c)
         && !(c == t.s || IsStrictSubclass(reg, c, t.s))
         && Find(reg, store, t.s, Cell(attributes, Info(reg, c).keyName)).Some?
      then DelegateToChild(t.s)
      else EloquentDelete
    else
      match Parent(reg, c)
      case None => EloquentDelete
      case Some(p) => ChildRoleDelete(p)
  }

  /**
   * Deletion delegates to the subclass exactly when the class has subclasses,
   * `type` names one of them and that subclass holds a row under the model's
   * key that its `SoftDeletes` scope does not hide; it takes the child-role
   * branch exactly when the first test fails and the class has a Table parent.
   */
  lemma DeleteRouteSpec(reg: Registry, store: Store, c: ClassName, attributes: Row)
    requires WellFormed(reg) && Known(reg, c)
    ensures var r := DeleteRouteOf(reg, store, c, attributes);
            var t := Cell(attributes, "type");
            var polymorphic := |Info(reg, c).children| > 0 && Truthy(t) && t.VStr? && Known(reg, t.s);
            && (r.DelegateToChild? <==>
                  polymorphic && IsStrictSubclass(reg, t.s, c) &&
                  exists i :: 0 <= i < |Rows(store, TableName(reg, t.s))| &&
                              Matches(Rows(store, TableName(reg, t.s))[i], Info(reg, t.s).keyName,
                                      Cell(attributes, Info(reg, c).keyName)) &&
                              (SoftDeleting(reg, t.s) ==> Cell(Rows(store, TableName(reg, t.s))[i], "deleted_at") == VNull))
            && (r.DelegateToChild? ==> r.child == t.s)
            && (r.ChildRoleDelete? <==> !polymorphic && Parent(reg, c).Some?)
            && (r.ChildRoleDelete? ==> r.parent == Parent(reg, c).value)
  {
    var t := Cell(attributes, "type");
    if |Info(reg, c).children| > 0 && Truthy(t) && t.VStr? && Known(reg, t.s) && IsStrictSubclass(reg, t.s, c) {
      SubclassNotSuperclass(reg, t.s, c);
      FindSpec(reg, store, t.s, Cell(attributes, Info(reg, c).keyName));
    }
  }

  /** A strict subclass is never also a superclass (or the class itself): the superclass chain has no cycle. */
  lemma SubclassNotSuperclass(reg: Registry, t: ClassName, c: ClassName)
    requires WellFormed(reg) && Known(reg, c) && IsStrictSubclass(reg, t, c)
    ensures c != t && !IsStrictSubclass(reg, c, t)
  {
    AncestorsDeeper(reg, t, c);
    if IsStrictSubclass(reg, c, t) {
      AncestorsDeeper(reg, c, t);
    }
  }

  /** Every described ancestor lies strictly lower on the superclass chain. */
  lemma {:induction false} AncestorsDeeper(reg: Registry, t: ClassName, c: ClassName)
    requires WellFormed(reg) && Known(reg, t) && Known(reg, c) && c in Ancestors(reg, t)
    ensures Depth(reg, Superclass, c) < Depth(reg, Superclass, t)
    decreases Depth(reg, Superclass, t)
  {
    var s := Info(reg, t).superclass;
    DepthDecreases(reg, Superclass, t);
    if Known(reg, s) && c != s {
      AncestorsDeeper(reg, s, c);
    }
  }

  /** The rows that survive `->where($column, $value)->delete()`, in order. */
  function Unmatched(rows: seq<Row>, column: string, value: Value): seq<Row>
    decreases |rows|
  {
    if rows == [] then []
    else
      var init := Unmatched(rows[..|rows| - 1], column, value);
      if Matches(rows[|rows| - 1], column, value) then init else init + [rows[|rows| - 1]]
  }

  lemma {:induction false} UnmatchedIff(rows: seq<Row>, column: string, value: Value, row: Row)
    ensures row in Unmatched(rows, column, value) <==> row in rows && !Matches(row, column, value)
    decreases |rows|
  {
    if rows != [] {
      UnmatchedIff(rows[..|rows| - 1], column, value, row);
      assert rows == rows[..|rows| - 1] + [rows[|rows| - 1]];
    }
  }

  function DeleteWhere(store: Store, t: string, column: string, value: Value): Store {
    if t in store then store[t := Unmatched(store[t], column, value)] else store
  }

  /**
   * The child-role deletion as the transaction evidently means it: the class's
   * rows linked to the parent, then the parent's row under the model's key.
   */
  function ChildRoleDeletion(reg: Registry, store: Store, c: ClassName, attributes: Row): Store
    requires WellFormed(reg) && Known(reg, c) && Parent(reg, c).Some?
  {
    WellFormedParent(reg, c);
    var p := Parent(reg, c).value;
    var fk := Mid(reg, ClassString(p), None);
    var linked := DeleteWhere(store, TableName(reg, c), fk, Cell(attributes, fk));
    DeleteWhere(linked, TableName(reg, p), Info(reg, p).keyName, Cell(attributes, Info(reg, c).keyName))
  }

  /** The outcome of the child-role branch as written: the closure fails, the transaction rolls back, the call raises. */
  datatype DeleteOutcome = Raised | Deleted

  function ChildRoleDeleteAsWritten(store: Store): (DeleteOutcome, Store) {
    (Raised, store)
  }

  /**
   * After the corrected child-role deletion no row of the class's table is
   * linked to the parent any more and the parent's row is gone; every other
   * row of those tables remains, and no other table changes.
   */
  lemma ChildRoleDeletionSpec(reg: Registry, store: Store, c: ClassName, attributes: Row, t: string, row: Row)
    requires WellFormed(reg) && Known(reg, c) && Parent(reg, c).Some?
    ensures Known(reg, Parent(reg, c).value)
    ensures var p := Parent(reg, c).value;
            var fk := Info(reg, p).foreignKey;
            var key := Info(reg, p).keyName;
            var after := ChildRoleDeletion(reg, store, c, attributes);
            var own := TableName(reg, c);
            var shared := TableName(reg, p);
            && (t != own && t != shared ==> Rows(after, t) == Rows(store, t))
            && (own != shared ==>
                  && (row in Rows(after, own) <==> row in Rows(store, own) && !Matches(row, fk, Cell(attributes, fk)))
                  && (row in Rows(after, shared) <==>
                        row in Rows(store, shared) && !Matches(row, key, Cell(attributes, Info(reg, c).keyName))))
  {
    WellFormedParent(reg, c);
    var p := Parent(reg, c).value;
    var fk := Info(reg, p).foreignKey;
    var own := TableName(reg, c);
    var shared := TableName(reg, p);
    UnmatchedIff(Rows(store, own), fk, Cell(attributes, fk), row);
    UnmatchedIff(Rows(store, shared), Info(reg, p).keyName, Cell(attributes, Info(reg, c).keyName), row);
  }

  /**
   * The discrepancy: on a store holding a linked row, the branch as written
   * deletes nothing, while the intended deletion removes that row.
   */
  lemma ChildRoleDeleteLosesNothing(reg: Registry, store: Store, c: ClassName, attributes: Row, i: nat)
    requires WellFormed(reg) && Known(reg, c) && Parent(reg, c).Some?
    requires Known(reg, Parent(reg, c).value)
    requires TableName(reg, c) != TableName(reg, Parent(reg, c).value)
    requires i < |Rows(store, TableName(reg, c))|
    requires Matches(Rows(store, TableName(reg, c))[i], Info(reg, Parent(reg, c).value).foreignKey,
                     Cell(attributes, Info(reg, Parent(reg, c).value).foreignKey))
    ensures Rows(store, TableName(reg, c))[i] in Rows(ChildRoleDeleteAsWritten(store).1, TableName(reg, c))
    ensures Rows(store, TableName(reg, c))[i] !in Rows(ChildRoleDeletion(reg, store, c, attributes), TableName(reg, c))
  {
    ChildRoleDeletionSpec(reg, store, c, attributes, TableName(reg, c), Rows(store, TableName(reg, c))[i]);
  }

  // ---------------------------------------------------------------------
  // The connection

  /** The database connection: the writes of one transaction replace its tables together. */
  class Database {
    var tables: Store

    constructor (tables: Store)
      ensures this.tables == tables
    {
      this.tables := tables;
    }

    /** `DB::transaction(...)` over a list of writes. */
    method Transaction(writes: seq<Write>)
      modifies this
      ensures tables == ApplyWrites(old(tables), writes)
    {
      var next := tables;
      var i := 0;
      while i < |writes|
        invariant 0 <= i <= |writes|
        invariant ApplyWrites(next, writes[i..]) == ApplyWrites(old(tables), writes)
      {
        assert writes[i..][1..] == writes[i + 1..];
        next := ApplyWrite(next, writes[i]);
        i := i + 1;
      }
      tables := next;
    }

    /** `save()` of a model whose class has a Table parent; it always reports success. */
    method Save(reg: Registry, c: ClassName, attributes: Row, dirty: Row, now: Value) returns (saved: bool)
      requires WellFormed(reg) && Known(reg, c) && Parent(reg, c).Some?
      modifies this
      ensures saved
      ensures tables == ApplyWrites(old(tables), SaveWrites(reg, old(tables), c, attributes, dirty, now))
    {
      var writes := SaveWrites(reg, tables, c, attributes, dirty, now);
      Transaction(writes);
      saved := true;
    }

    /** The child-role branch of `delete()`, with the transaction deleting what it evidently means to. */
    method DeleteChildRole(reg: Registry, c: ClassName, attributes: Row) returns (deleted: bool)
      requires WellFormed(reg) && Known(reg, c) && Parent(reg, c).Some?
      modifies this
      ensures deleted
      ensures tables == ChildRoleDeletion(reg, old(tables), c, attributes)
    {
      WellFormedParent(reg, c);
      var p := Parent(reg, c).value;
      var fk := Mid(reg, ClassString(p), None);
      var own := DeleteWhere(tables, TableName(reg, c), fk, Cell(attributes, fk));
      tables := DeleteWhere(own, TableName(reg, p), Info(reg, p).keyName, Cell(attributes, Info(reg, c).keyName));
      deleted := true;
    }
  }
}
