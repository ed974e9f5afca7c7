/**
 * `MigrationAutoCreateCommand`: the directive each resolved column renders,
 * the body of a create migration, the diff against the live column listing,
 * the placement of added columns, and the choice between a create and an
 * update migration. The live listing and the timestamp are inputs.
 */
module Migration {
  import opened Php
  import opened OrderedMap
  import opened Attributes
  import opened Metadata

  /** The separator `implode` puts between generated lines: a newline and twelve spaces. */
  const INDENT: string := "\n            "

  /** `{$column->type}` in a string: a null type interpolates as nothing. */
  function TypeText(c: Column): string {
    match c.columnType
    case None => ""
    case Some(t) => t
  }

  function NullableSuffix(c: Column): string {
    if c.nullable then "->nullable()" else ""
  }

  /** Present whenever the default is not null; the value is interpolated as PHP does. */
  function DefaultSuffix(c: Column): string {
    if c.defaultValue != VNull then "->default('" + Interpolate(c.defaultValue) + "')" else ""
  }

  /** Present when the length is neither null nor zero. */
  function LengthArgument(c: Column): string {
    if c.length.Some? && c.length.value != 0 then ", " + IntToString(c.length.value) else ""
  }

  function IndexSuffix(c: Column): string {
    if c.index then "->index()" else ""
  }

  /** The `default` arm of the `match`: `$table->TYPE('NAME'[, LEN])` and the suffixes. */
  function GenericDirective(c: Column, name: string): string {
    CallText(c, name) + NullableSuffix(c) + DefaultSuffix(c) + IndexSuffix(c)
  }

  function CallText(c: Column, name: string): string {
    "$table->" + TypeText(c) + "('" + name + "'" + LengthArgument(c) + ")"
  }

  /** `getDefinitions($column, $name)`: the `match` on the type, then the overrides by name. */
  function Definition(c: Column, name: string): string {
    var byType :=
      if c.columnType == Some("id") then "$table->id()"
      else if c.columnType == Some("timestamps") then "$table->timestamps()"
      else if c.columnType == Some("rememberToken") then "$table->rememberToken()"
      else GenericDirective(c, name);
    if name == "deleted_at" then "$table->softDeletes()"
    else if name == "updated_at" then ""
    else if name == "created_at" then "$table->timestamps()"
    else byType
  }

  predicate IsFixedType(c: Column) {
    c.columnType == Some("id") || c.columnType == Some("timestamps") || c.columnType == Some("rememberToken")
  }

  predicate IsTimestampName(name: string) {
    name == "deleted_at" || name == "updated_at" || name == "created_at"
  }

  /** The three timestamp names override whatever the column declares. */
  lemma NameOverrides(c: Column)
    ensures Definition(c, "deleted_at") == "$table->softDeletes()"
    ensures Definition(c, "updated_at") == ""
    ensures Definition(c, "created_at") == "$table->timestamps()"
  {
  }

  /** The three fixed types ignore nullable, default, length and index. */
  lemma FixedDirectives(c: Column, name: string)
    requires !IsTimestampName(name) && IsFixedType(c)
    ensures Definition(c, name) == Definition(c.(nullable := false, defaultValue := VNull, length := None, index := false), name)
    ensures c.columnType == Some("id") ==> Definition(c, name) == "$table->id()"
  {
  }

  predicate StartsWith(s: string, prefix: string) {
    |prefix| <= |s| && s[..|prefix|] == prefix
  }

  predicate EndsWith(s: string, suffix: string) {
    |suffix| <= |s| && s[|s| - |suffix|..] == suffix
  }

  /** Only `updated_at` renders nothing; every other definition is a `$table->` call. */
  lemma DefinitionShape(c: Column, name: string)
    ensures Definition(c, name) == "" <==> name == "updated_at"
    ensures name != "updated_at" ==> StartsWith(Definition(c, name), "$table->")
  {
    if name == "updated_at" {
    } else if IsTimestampName(name) || IsFixedType(c) {
      FixedDirectiveShape(c, name);
    } else {
      GenericDirectiveShape(c, name);
    }
  }

  lemma FixedDirectiveShape(c: Column, name: string)
    requires name != "updated_at" && (IsTimestampName(name) || IsFixedType(c))
    ensures StartsWith(Definition(c, name), "$table->")
  {
    var head := "$table->";
    var d := Definition(c, name);
    assert d in ["$table->softDeletes()", "$table->timestamps()", "$table->id()", "$table->rememberToken()"];
    assert d[..|head|] == head;
  }

  lemma GenericDirectiveShape(c: Column, name: string)
    requires !IsTimestampName(name) && !IsFixedType(c)
    ensures StartsWith(Definition(c, name), "$table->")
  {
    var head := "$table->";
    var call := CallText(c, name);
    assert Definition(c, name) == call + NullableSuffix(c) + DefaultSuffix(c) + IndexSuffix(c);
    assert call[..|head|] == head;
    StartsWithExtended(call, NullableSuffix(c), head);
    StartsWithExtended(call + NullableSuffix(c), DefaultSuffix(c), head);
    StartsWithExtended(call + NullableSuffix(c) + DefaultSuffix(c), IndexSuffix(c), head);
  }

  /** A string whose tail differs from `->index()` at the `k`-th character from the end does not end in it. */
  lemma TailMismatch(d: string, pre: string, tail: string, k: nat)
    requires d == pre + tail && 1 <= k <= |tail| && k <= 9
    requires tail[|tail| - k] != "->index()"[9 - k]
    ensures !EndsWith(d, "->index()")
  {
    assert d[|d| - k] == tail[|tail| - k];
    if |d| >= 9 {
      assert d[|d| - 9..][9 - k] == d[|d| - k];
    }
  }

  /** The call closes with `)` after the quoted name or after the length's last digit. */
  lemma CallTextEnding(c: Column, name: string)
    ensures |CallText(c, name)| >= 2 && CallText(c, name)[|CallText(c, name)| - 2] != '('
  {
    var call := "$table->" + TypeText(c) + "('" + name;
    if LengthArgument(c) == "" {
      assert CallText(c, name) == call + "')";
    } else {
      var len := IntToString(c.length.value);
      assert CallText(c, name) == (call + "', ") + (len + ")");
    }
  }

  /** Without `->index()`, a generic line ends in `')` (a default), `e()` (nullable), or the call's own ending. */
  lemma UnindexedEnding(c: Column, name: string)
    requires !c.index
    ensures !EndsWith(GenericDirective(c, name), "->index()")
  {
    var d := GenericDirective(c, name);
    var call := CallText(c, name);
    if c.defaultValue != VNull {
      var pre := call + NullableSuffix(c) + "->default('" + Interpolate(c.defaultValue);
      assert d == pre + "')";
      TailMismatch(d, pre, "')", 2);
    } else if c.nullable {
      assert d == call + "->nullable()";
      TailMismatch(d, call, "->nullable()", 3);
    } else {
      assert d == [] + call;
      CallTextEnding(c, name);
      TailMismatch(d, [], call, 2);
    }
  }

  /** A generic line ends in `->index()` exactly when the column is indexed. */
  lemma IndexSuffixIff(c: Column, name: string)
    requires !IsTimestampName(name) && !IsFixedType(c)
    ensures EndsWith(Definition(c, name), "->index()") <==> c.index
  {
    var d := GenericDirective(c, name);
    assert Definition(c, name) == d;
    if c.index {
      var pre := CallText(c, name) + NullableSuffix(c) + DefaultSuffix(c);
      assert d == pre + "->index()";
      assert d[|d| - 9..] == "->index()";
    } else {
      UnindexedEnding(c, name);
    }
  }

  /** The length argument reads back as the declared length. */
  lemma LengthArgumentRoundTrip(c: Column)
    requires c.length.Some? && c.length.value != 0
    ensures LengthArgument(c)[..2] == ", " && ParseInt(LengthArgument(c)[2..]) == c.length.value
  {
    assert LengthArgument(c)[2..] == IntToString(c.length.value);
    IntToStringRoundTrip(c.length.value);
  }

  // ---------------------------------------------------------------------
  // generateFields(): the body of a create migration

  /** The map, append and filter steps: non-empty definitions with `;` appended, in resolved order. */
  function CreateLines(columns: OMap<Column>): (lines: seq<string>)
    decreases |columns|
  {
    if columns == [] then []
    else
      var d := Definition(columns[0].1, columns[0].0);
      (if |d| >= 1 then [d + ";"] else []) + CreateLines(columns[1..])
  }

  /** `generateFields($columns)`. */
  function GenerateFields(columns: OMap<Column>): string {
    Join(CreateLines(columns), INDENT)
  }

  /** Every column renders its definition and `;`; the timestamp-name overrides still apply. */
  function AllLines(columns: OMap<Column>): (lines: seq<string>)
    ensures |lines| == |columns|
    ensures forall i :: 0 <= i < |columns| ==> lines[i] == Definition(columns[i].1, columns[i].0) + ";"
  {
    seq(|columns|, i requires 0 <= i < |columns| => Definition(columns[i].1, columns[i].0) + ";")
  }

  /** The create body has one line per column except `updated_at`, in resolved order, each ending in `;`. */
  lemma {:induction false} CreateLinesSkipUpdatedAt(columns: OMap<Column>)
    ensures CreateLines(columns) == AllLines(Remove(columns, "updated_at"))
    decreases |columns|
  {
    if columns != [] {
      var c := columns[0];
      var rest := columns[1..];
      CreateLinesSkipUpdatedAt(rest);
      DefinitionShape(c.1, c.0);
      ExceptCons(c, rest, ["updated_at"]);
      assert columns == [c] + rest;
    }
  }

  /** `Except` read from the front. */
  lemma {:induction false} ExceptCons(e: (string, Column), m: OMap<Column>, ks: seq<string>)
    ensures Except([e] + m, ks) == (if e.0 in ks then [] else [e]) + Except(m, ks)
    decreases |m|
  {
    if m == [] {
      assert ([e] + m)[..0] == [];
    } else {
      var init := m[..|m| - 1];
      var last := m[|m| - 1];
      assert ([e] + m)[..|[e] + m| - 1] == [e] + init;
      ExceptCons(e, init, ks);
    }
  }

  /** A model with `id`, `amount`, `created_at` and `updated_at`, as resolved. */
  const InvoiceColumns: OMap<Column> := [
    ("id", Column(name := Some("id"), columnType := Some("id"))),
    ("amount", Column(columnType := Some("integer"))),
    ("created_at", Column(name := Some("created_at"), columnType := Some("timestamp"))),
    ("updated_at", Column(name := Some("updated_at"), columnType := Some("timestamp")))]

  /** Its create body: the id, the amount and the timestamps directives, in that order. */
  lemma InvoiceCreateLines()
    ensures CreateLines(InvoiceColumns) == ["$table->id();", "$table->integer('amount');", "$table->timestamps();"]
  {
    var columns := InvoiceColumns;
    InvoiceAmountLines();
    assert columns[1..] == columns[1..];
    assert "$table->id()" + ";" == "$table->id();";
  }

  lemma InvoiceAmountLines()
    ensures CreateLines(InvoiceColumns[1..]) == ["$table->integer('amount');", "$table->timestamps();"]
  {
    var columns := InvoiceColumns;
    var amount := columns[1].1;
    assert CallText(amount, "amount") == "$table->integer('amount')";
    assert Definition(amount, "amount") == "$table->integer('amount')";
    InvoiceTimestampsLines();
    assert columns[1..][1..] == columns[2..];
    assert "$table->integer('amount')" + ";" == "$table->integer('amount');";
  }

  lemma InvoiceTimestampsLines()
    ensures CreateLines(InvoiceColumns[2..]) == ["$table->timestamps();"]
  {
    var columns := InvoiceColumns;
    assert columns[3..][1..] == [];
    assert CreateLines(columns[3..]) == [];
    assert Definition(columns[2].1, columns[2].0) == "$table->timestamps()";
    assert "$table->timestamps()" + ";" == "$table->timestamps();";
    assert columns[2..][1..] == columns[3..];
  }


  lemma InvoiceCreateBody()
    ensures GenerateFields(InvoiceColumns) ==
            "$table->id();" + INDENT + "$table->integer('amount');" + INDENT + "$table->timestamps();"
  {
    InvoiceCreateLines();
    var lines := CreateLines(InvoiceColumns);
    assert lines[1..][1..] == ["$table->timestamps();"];
  }

  // ---------------------------------------------------------------------
  // generateUpdateMigration(): the diff against the live listing

  /** `$columns->except($existingColumns)`: resolved columns not yet live, in resolved order. */
  function Added(columns: OMap<Column>, live: seq<string>): OMap<Column> {
    Except(columns, live)
  }

  /** `$existingColumns->diff($columns->keys())`: live columns no longer resolved, in live order. */
  function Removed(columns: OMap<Column>, live: seq<string>): seq<string>
    decreases |live|
  {
    if live == [] then []
    else
      var init := Removed(columns, live[..|live| - 1]);
      if live[|live| - 1] in Keys(columns) then init else init + [live[|live| - 1]]
  }

  lemma {:induction false} RemovedIff(columns: OMap<Column>, live: seq<string>)
    ensures forall x :: x in Removed(columns, live) <==> x in live && x !in Keys(columns)
    decreases |live|
  {
    if live != [] {
      var init := live[..|live| - 1];
      assert live == init + [live[|live| - 1]];
      RemovedIff(columns, init);
    }
  }

  /**
   * The diff: a resolved name is added exactly when it is not live, a live
   * name is removed exactly when it is not resolved, and the update is a
   * no-op exactly when the two name sets agree.
   */
  lemma DiffSpec(columns: OMap<Column>, live: seq<string>)
    ensures forall k :: k in Keys(Added(columns, live)) <==> k in Keys(columns) && k !in live
    ensures forall x :: x in Removed(columns, live) <==> x in live && x !in Keys(columns)
    ensures (Added(columns, live) == [] && Removed(columns, live) == []) <==>
              (forall k :: k in Keys(columns) <==> k in live)
  {
    OnlyKeys(columns, live);
    RemovedIff(columns, live);
    if Added(columns, live) != [] {
      assert Keys(Added(columns, live))[0] in Keys(Added(columns, live));
    }
    if Removed(columns, live) != [] {
      assert Removed(columns, live)[0] in Removed(columns, live);
    }
  }

  // ---------------------------------------------------------------------
  // generateOrderedFields(): where each added column goes

  /** The nearest name before position `idx` that is live. */
  function NearestLive(keys: seq<string>, idx: nat, live: seq<string>): Option<string>
    requires idx <= |keys|
  {
    if idx == 0 then None
    else if keys[idx - 1] in live then Some(keys[idx - 1])
    else NearestLive(keys, idx - 1, live)
  }

  /** `NearestLive` finds the live name closest before `idx`, or reports that there is none. */
  lemma {:induction false} NearestLiveSpec(keys: seq<string>, idx: nat, live: seq<string>)
    requires idx <= |keys|
    ensures NearestLive(keys, idx, live).None? <==> forall j :: 0 <= j < idx ==> keys[j] !in live
    ensures NearestLive(keys, idx, live).Some? ==>
              exists j :: 0 <= j < idx && keys[j] == NearestLive(keys, idx, live).value && keys[j] in live &&
                          forall j' :: j < j' < idx ==> keys[j'] !in live
  {
    if idx > 0 && keys[idx - 1] !in live {
      NearestLiveSpec(keys, idx - 1, live);
    }
  }

  /** The backward `for` loop with `break` that finds `$afterColumn`. */
  method AfterColumn(keys: seq<string>, currentIndex: nat, live: seq<string>) returns (afterColumn: Option<string>)
    requires currentIndex <= |keys|
    ensures afterColumn == NearestLive(keys, currentIndex, live)
    ensures afterColumn.None? <==> forall j :: 0 <= j < currentIndex ==> keys[j] !in live
    ensures afterColumn.Some? ==>
              exists j :: 0 <= j < currentIndex && keys[j] == afterColumn.value && keys[j] in live &&
                          forall j' :: j < j' < currentIndex ==> keys[j'] !in live
  {
    afterColumn := None;
    var i := currentIndex;
    while i > 0
      invariant 0 <= i <= currentIndex
      invariant forall j :: i <= j < currentIndex ==> keys[j] !in live
      invariant NearestLive(keys, currentIndex, live) == NearestLive(keys, i, live)
      decreases i
    {
      if keys[i - 1] in live {
        afterColumn := Some(keys[i - 1]);
        break;
      }
      i := i - 1;
    }
    NearestLiveSpec(keys, currentIndex, live);
  }

  /** `->after('X')` when a truthy live predecessor exists, else `->first()`. */
  function PositionSuffix(afterColumn: Option<string>): string {
    if afterColumn.Some? && TruthyString(afterColumn.value) then "->after('" + afterColumn.value + "')"
    else "->first()"
  }

  /** One added column's line: its definition, its position and `;`, never filtered. */
  function OrderedLine(columns: OMap<Column>, live: seq<string>, name: string, column: Column): string {
    var keys := Keys(columns);
    var index := if name in keys then FirstIndex(keys, name) else 0;
    Definition(column, name) + PositionSuffix(NearestLive(keys, index, live)) + ";"
  }

  /** The closure `generateOrderedFields` maps over each added column; `array_search` misses only for a name not resolved. */
  method OrderedFieldLine(columns: OMap<Column>, live: seq<string>, name: string, column: Column) returns (line: string)
    ensures line == OrderedLine(columns, live, name, column)
    ensures name in Keys(columns) && (forall j :: 0 <= j < FirstIndex(Keys(columns), name) ==> Keys(columns)[j] !in live) ==>
              EndsWith(line, "->first();")
  {
    var keys := Keys(columns);
    var currentIndex := if name in keys then FirstIndex(keys, name) else 0;
    var afterColumn := AfterColumn(keys, currentIndex, live);
    line := Definition(column, name) + PositionSuffix(afterColumn) + ";";
  }

  function OrderedLines(columns: OMap<Column>, added: OMap<Column>, live: seq<string>): (lines: seq<string>)
    ensures |lines| == |added|
    ensures forall i :: 0 <= i < |added| ==> lines[i] == OrderedLine(columns, live, added[i].0, added[i].1)
  {
    seq(|added|, i requires 0 <= i < |added| => OrderedLine(columns, live, added[i].0, added[i].1))
  }

  /** `generateOrderedFields($table, $newColumns, $columns)`. */
  function GenerateOrderedFields(columns: OMap<Column>, added: OMap<Column>, live: seq<string>): string {
    Join(OrderedLines(columns, added, live), INDENT)
  }

  /**
   * An added `updated_at` renders as nothing but its position and `;`: a line
   * that is not a statement on `$table`.
   */
  lemma AddedUpdatedAtLine(columns: OMap<Column>, live: seq<string>, column: Column)
    ensures OrderedLine(columns, live, "updated_at", column) == "->first();" ||
            exists x :: OrderedLine(columns, live, "updated_at", column) == "->after('" + x + "');"
    ensures !StartsWith(OrderedLine(columns, live, "updated_at", column), "$table->")
  {
    var keys := Keys(columns);
    var index := if "updated_at" in keys then FirstIndex(keys, "updated_at") else 0;
    var after := NearestLive(keys, index, live);
    var line := OrderedLine(columns, live, "updated_at", column);
    if after.Some? && TruthyString(after.value) {
      assert line == "->after('" + after.value + "');";
    } else {
      assert line == "->first();";
    }
    assert line[0] == '-';
  }

  /**
   * The added-column lines with an empty definition skipped, as
   * `generateFields` already does for a new table.
   */
  function AddedLines(columns: OMap<Column>, added: OMap<Column>, live: seq<string>): seq<string>
    decreases |added|
  {
    if added == [] then []
    else
      var init := AddedLines(columns, added[..|added| - 1], live);
      var e := added[|added| - 1];
      if Definition(e.1, e.0) == "" then init else init + [OrderedLine(columns, live, e.0, e.1)]
  }

  /** The corrected `generateOrderedFields`. */
  function GenerateAddedFields(columns: OMap<Column>, added: OMap<Column>, live: seq<string>): string {
    Join(AddedLines(columns, added, live), INDENT)
  }

  /** The corrected lines are those of every added column but `updated_at`, in order. */
  lemma {:induction false} AddedLinesSkipUpdatedAt(columns: OMap<Column>, added: OMap<Column>, live: seq<string>)
    ensures AddedLines(columns, added, live) == OrderedLines(columns, Remove(added, "updated_at"), live)
    decreases |added|
  {
    if added != [] {
      var init := added[..|added| - 1];
      var e := added[|added| - 1];
      AddedLinesSkipUpdatedAt(columns, init, live);
      DefinitionShape(e.1, e.0);
      var kept := Remove(init, "updated_at");
      if e.0 != "updated_at" {
        assert OrderedLines(columns, kept + [e], live) ==
               OrderedLines(columns, kept, live) + [OrderedLine(columns, live, e.0, e.1)];
      }
    }
  }

  /** Every corrected line is a statement on `$table`. */
  lemma AddedLinesWellFormed(columns: OMap<Column>, added: OMap<Column>, live: seq<string>, i: nat)
    requires i < |AddedLines(columns, added, live)|
    ensures StartsWith(AddedLines(columns, added, live)[i], "$table->")
  {
    AddedLinesSkipUpdatedAt(columns, added, live);
    var kept := Remove(added, "updated_at");
    var name := kept[i].0;
    assert name in Keys(kept) by {
      assert Keys(kept)[i] == name;
    }
    assert name != "updated_at" by {
      OnlyKeys(added, ["updated_at"]);
    }
    OrderedLineWellFormed(columns, live, name, kept[i].1);
  }

  /** The line of any added column other than `updated_at` is a statement on `$table`. */
  lemma OrderedLineWellFormed(columns: OMap<Column>, live: seq<string>, name: string, column: Column)
    requires name != "updated_at"
    ensures StartsWith(OrderedLine(columns, live, name, column), "$table->")
  {
    DefinitionShape(column, name);
    var keys := Keys(columns);
    var index := if name in keys then FirstIndex(keys, name) else 0;
    StartsWithExtended(Definition(column, name), PositionSuffix(NearestLive(keys, index, live)) + ";", "$table->");
    assert OrderedLine(columns, live, name, column) ==
           Definition(column, name) + (PositionSuffix(NearestLive(keys, index, live)) + ";");
  }

  lemma StartsWithExtended(s: string, rest: string, prefix: string)
    requires StartsWith(s, prefix)
    ensures StartsWith(s + rest, prefix)
  {
    assert (s + rest)[..|prefix|] == s[..|prefix|];
  }

  /** The names of `s` appear in `live`, and in `live`'s order. */
  predicate InOrderOf(s: seq<string>, live: seq<string>) {
    && (forall x :: x in s ==> x in live)
    && forall i, j :: 0 <= i < j < |s| ==> s[i] in live && s[j] in live && FirstIndex(live, s[i]) < FirstIndex(live, s[j])
  }

  /**
   * The removed names come in the order of the live listing (a table's
   * column listing never repeats a name), and so once each.
   */
  lemma {:induction false} RemovedInLiveOrder(columns: OMap<Column>, live: seq<string>)
    requires NoDups(live)
    ensures InOrderOf(Removed(columns, live), live)
    ensures NoDups(Removed(columns, live))
    decreases |live|
  {
    if live != [] {
      var n := |live|;
      var init, x := live[..n - 1], live[n - 1];
      assert live == init + [x];
      assert forall i :: 0 <= i < |init| ==> init[i] == live[i];
      RemovedInLiveOrder(columns, init);
      InOrderSnoc(Removed(columns, init), init, x);
    }
    var r := Removed(columns, live);
    forall i, j | 0 <= i < j < |r| ensures r[i] != r[j] {
      assert FirstIndex(live, r[i]) < FirstIndex(live, r[j]);
    }
  }

  /** Appending a new last name to `live` keeps an order, and extends it by that name. */
  lemma InOrderSnoc(r0: seq<string>, init: seq<string>, x: string)
    requires NoDups(init + [x])
    requires InOrderOf(r0, init)
    ensures InOrderOf(r0, init + [x])
    ensures InOrderOf(r0 + [x], init + [x])
  {
    var live := init + [x];
    forall y | y in r0
      ensures FirstIndex(live, y) == FirstIndex(init, y) < |init|
    {
      FirstIndexInPrefix(init, [x], y);
    }
    assert x !in init by {
      assert forall k :: 0 <= k < |init| ==> init[k] == live[k] != live[|init|];
    }
    assert FirstIndex(live, x) == |init|;
    var r := r0 + [x];
    forall i, j | 0 <= i < j < |r|
      ensures r[i] in live && r[j] in live && FirstIndex(live, r[i]) < FirstIndex(live, r[j])
    {
      assert r[i] == r0[i] && r[i] in r0;
      if j < |r0| {
        assert r[j] == r0[j];
      }
    }
  }

  function DropLines(removed: seq<string>): (lines: seq<string>)
    ensures |lines| == |removed|
    ensures forall i :: 0 <= i < |removed| ==> lines[i] == "$table->dropColumn('" + removed[i] + "');"
  {
    seq(|removed|, i requires 0 <= i < |removed| => "$table->dropColumn('" + removed[i] + "');")
  }

  /** An incremental migration: live `a`, `c`; resolved `a`, `b`, `c`, `d`; each addition goes after its nearest live predecessor. */
  lemma IncrementalExample(col: Column)
    ensures var columns := [("a", col), ("b", col), ("c", col), ("d", col)];
            var live := ["a", "c"];
            && Keys(Added(columns, live)) == ["b", "d"]
            && Removed(columns, live) == []
            && OrderedLines(columns, Added(columns, live), live) ==
               [Definition(col, "b") + "->after('a');", Definition(col, "d") + "->after('c');"]
  {
    var columns := [("a", col), ("b", col), ("c", col), ("d", col)];
    var live := ["a", "c"];
    var added := [("b", col), ("d", col)];
    IncrementalAdded(col);
    IncrementalRemoved(col);
    IncrementalPositions(col);
    assert Keys(added) == ["b", "d"];
    var lines := OrderedLines(columns, added, live);
    assert |lines| == 2;
    assert lines[0] == OrderedLine(columns, live, "b", col);
    assert lines[1] == OrderedLine(columns, live, "d", col);
  }

  lemma IncrementalAdded(col: Column)
    ensures Added([("a", col), ("b", col), ("c", col), ("d", col)], ["a", "c"]) == [("b", col), ("d", col)]
  {
    var columns := [("a", col), ("b", col), ("c", col), ("d", col)];
    var live := ["a", "c"];
    assert columns[..1][..0] == [];
    assert Except(columns[..1], live) == [];
    assert columns[..2][..1] == columns[..1];
    assert Except(columns[..2], live) == [("b", col)];
    assert columns[..3][..2] == columns[..2];
    assert Except(columns[..3], live) == [("b", col)];
    assert columns[..4] == columns;
  }

  lemma IncrementalRemoved(col: Column)
    ensures Removed([("a", col), ("b", col), ("c", col), ("d", col)], ["a", "c"]) == []
  {
    var columns := [("a", col), ("b", col), ("c", col), ("d", col)];
    var live := ["a", "c"];
    assert Keys(columns) == ["a", "b", "c", "d"];
    assert live[|live| - 1] == "c" && live[..1] == ["a"] && live[..1][..0] == [];
  }

  lemma IncrementalPositions(col: Column)
    ensures var columns := [("a", col), ("b", col), ("c", col), ("d", col)];
            && OrderedLine(columns, ["a", "c"], "b", col) == Definition(col, "b") + "->after('a');"
            && OrderedLine(columns, ["a", "c"], "d", col) == Definition(col, "d") + "->after('c');"
  {
    var columns := [("a", col), ("b", col), ("c", col), ("d", col)];
    var live := ["a", "c"];
    var keys := Keys(columns);
    assert keys == ["a", "b", "c", "d"];
    assert FirstIndex(keys, "b") == 1;
    assert FirstIndex(keys, "d") == 3;
    assert NearestLive(keys, 1, live) == Some("a");
    assert NearestLive(keys, 3, live) == Some("c");
    assert TruthyString("a") && TruthyString("c");
  }


  // ---------------------------------------------------------------------
  // handle(): which migration, if any

  /** The generated file: its name and the variable parts of the stub. */
  datatype MigrationFile =
    | CreateTable(filename: string, table: string, fields: string)
    | UpdateTable(filename: string, table: string, additions: string, drops: string)

  /** The `down()` body each stub carries. */
  function DownBody(m: MigrationFile): string {
    match m
    case CreateTable(_, table, _) => "Schema::dropIfExists(\"" + table + "\");"
    case UpdateTable(_, table, _, _) => "// Manually revert changes here if necessary."
  }

  /** `generateInitialMigration`. */
  function InitialMigration(table: string, columns: OMap<Column>, stamp: string): MigrationFile {
    CreateTable(stamp + "_create_" + table + "_table.php", table, GenerateFields(columns))
  }

  /** `generateUpdateMigration`, with the corrected added-column lines: nothing when the diff is empty. */
  function UpdateMigration(table: string, columns: OMap<Column>, live: seq<string>, stamp: string): Option<MigrationFile> {
    var added := Added(columns, live);
    var removed := Removed(columns, live);
    if added == [] && removed == [] then None
    else Some(UpdateTable(stamp + "_update_" + table + "_table.php", table,
                          GenerateAddedFields(columns, added, live), Join(DropLines(removed), INDENT)))
  }

  /**
   * The choice in `handle` for one model: only a class with a `Table` attribute
   * gets a migration; a create migration when its table does not exist, an
   * update migration (or none) when it does. `liveTables` maps each existing
   * table to its column listing.
   */
  function PlanMigration(reg: Registry, c: ClassName, columns: OMap<Column>,
                         liveTables: map<string, seq<string>>, stamp: string): Option<MigrationFile>
    requires Known(reg, c)
  {
    if ClassTable(reg, c).None? then None
    else
      var table := TableName(reg, c);
      if table !in liveTables then Some(InitialMigration(table, columns, stamp))
      else UpdateMigration(table, columns, liveTables[table], stamp)
  }

  /**
   * The outcomes of the choice: no `Table` attribute, no file; a missing table,
   * a create migration whose down drops it; an existing table, an update
   * migration exactly when the diff is not empty, with a comment-only down,
   * the added columns' lines, and one `dropColumn` line per removed name.
   */
  lemma PlanMigrationSpec(reg: Registry, c: ClassName, columns: OMap<Column>,
                          liveTables: map<string, seq<string>>, stamp: string)
    requires Known(reg, c)
    ensures ClassTable(reg, c).None? ==> PlanMigration(reg, c, columns, liveTables, stamp).None?
    ensures ClassTable(reg, c).Some? && TableName(reg, c) !in liveTables ==>
              var m := PlanMigration(reg, c, columns, liveTables, stamp);
              m.Some? && m.value.CreateTable? && m.value.fields == GenerateFields(columns) &&
              DownBody(m.value) == "Schema::dropIfExists(\"" + TableName(reg, c) + "\");"
    ensures ClassTable(reg, c).Some? && TableName(reg, c) in liveTables ==>
              var m := PlanMigration(reg, c, columns, liveTables, stamp);
              var live := liveTables[TableName(reg, c)];
              (m.None? <==> forall k :: k in Keys(columns) <==> k in live) &&
              (m.Some? ==> m.value.UpdateTable? && DownBody(m.value) == "// Manually revert changes here if necessary." &&
                           m.value.additions == GenerateAddedFields(columns, Added(columns, live), live) &&
                           m.value.drops == Join(DropLines(Removed(columns, live)), INDENT))
  {
    if ClassTable(reg, c).Some? && TableName(reg, c) in liveTables {
      DiffSpec(columns, liveTables[TableName(reg, c)]);
    }
  }
}
