# Eloquent columns, modelled in Dafny

`laravel-eloquent-columns` lets a Laravel model declare its database columns as PHP attributes on its
properties (`#[Column]`, `#[Table]`, `#[ValidationRule]`, relationship markers). From those declarations the
package derives:

- the model's column set;
- its `fillable`, `hidden`, `casts`, `appends` and `with` lists and its lazy relations;
- the payload that `create` passes on;
- the split between a class's own table and its `Table` parent's table when loading, saving and deleting;
- the text of create and update migrations.

This project models that logic in Dafny and proves what it promises. Reflection, the filesystem, the clock and
the database are replaced by explicit inputs:

- a `Registry` of class descriptions;
- the live column listing;
- a timestamp string;
- a `Store` of tables of rows.

## Files

| file | module | models |
|---|---|---|
| `php.dfy` | `Php` | scalars, truthiness, loose `== null`, integer interpolation, `array_unique` on lists (`Dedup`), `implode` |
| `ordered_map.dfy` | `OrderedMap` | string-keyed PHP arrays in insertion order: assignment in place, `array_merge`, `only`/`except`, `unset`, `array_unique` on maps |
| `attributes.dfy` | `Attributes` | the `Column`, `Table`, `ValidationRule` and relationship attribute records |
| `registry.dfy` | `Metadata` | class descriptions, the root model, superclass and `Table`-parent chains, `getParent`, `getBaseClass`, `mid`, `getTableName` |
| `column_resolution.dfy` | `ColumnResolution` | `getColumnDefinitions` of the first trait: name resolution, the inheritance filter, the parent link and `type` columns |
| `models_trait.dfy` | `ModelsTrait` | `getColumnDefinitions` and `getValidationRules` of the second (`ModelBase`) trait |
| `initializer.dfy` | `Initializer` | `initializeHasColumnAttributes` as a class `ModelInstance` with its list fields |
| `persistence.dfy` | `Persistence` | `create` preprocessing, `newFromBuilder`, `save`, the `delete` routing, and a `Database` class holding the tables |
| `migration.dfy` | `Migration` | `getDefinitions`, `generateFields`, the diff, `generateOrderedFields`, the create-or-update choice of `handle` |

### Modelling choices

- **Ordered arrays.** A PHP ordered array is an `OMap<V> = seq<(string, V)>`. Assigning to a present key
  replaces its value in place; assigning to a new key appends it.
- **Classes.** Classes are names looked up in a `Registry`.
  - `Str::snake` and `Str::pluralStudly` are function-valued inputs.
  - `getForeignKey()` and `getKeyName()` are per-class fields.
  - `getChildren()` is a per-class list.
  - `class_exists` and `is_subclass_of` read the registry.
- **Termination.** The registry is well formed: both the superclass chain and the `Table`-parent chain are
  acyclic. Recursion along them is measured by the chain's depth.
- **Database.** A `Store` maps table names to rows. A table the store lacks reads as empty. A `where($c, $v)`
  matches a row whose cell equals `$v`, and a column the row lacks reads as null.
- **Imperative code.** Code that changes things step by step stays a `method` with loops, proved equal to a
  specification function:
  - the loops of `getColumnDefinitions`, `getValidationRules` and `create`;
  - the backward search of `generateOrderedFields`;
  - `initializeHasColumnAttributes`;
  - the transaction of `save`.
- **Two traits.** Both traits' `initializeHasColumnAttributes` are the same code; `Initializer.ModelInstance.Initialize`
  takes the trait as a parameter. The first trait's `getValidationRules`
  (src/Traits/HasColumnAttributes.php:173-189) is the same code as the second trait's and is modelled once by
  `ModelsTrait.GetValidationRules`.

### Behaviour of the code worth knowing

- **Inheritance filter.** The filter at src/Traits/HasColumnAttributes.php:133-142 runs on every declared
  property, the class's own included. A class's own column is dropped when its `Table` parent has it and the
  root model does not (`ColumnResolution.DroppedIff`).
- **Three-level chains.** The filter compares a class's names only with its direct parent's resolved columns
  (src/Traits/HasColumnAttributes.php:137). If the middle class of a three-level chain itself drops `x`, the
  grandchild's filter compares against the middle class's columns, which lack `x`, and keeps it.
- **`created_at` and `updated_at`.** The name test at src/Console/Commands/MigrationAutoCreateCommand.php:208-214
  always renders `created_at` as `$table->timestamps()` and `updated_at` as nothing, whatever else the model
  declares (`Migration.NameOverrides`).
- **Polymorphic load with a null id.** When the row's `type` names a subclass but its id is loosely null,
  src/Traits/HasColumnAttributes.php:327-329 returns Eloquent's plain model straight away. The child-role merge
  below it is skipped (`Persistence.HydratePolymorphic`).

## Model

| member | source | states |
|---|---|---|
| `Php.LooselyNullIsFalsy` | src/Traits/HasColumnAttributes.php:327-329 | a loosely-null id is also falsy, while `"0"` is falsy but not loosely null |
| `Php.IntToStringRoundTrip` | src/Console/Commands/MigrationAutoCreateCommand.php:198 | an interpolated integer length reads back as the same integer, sign included |
| `Php.DedupKeepsFirstOccurrences` | src/Traits/HasColumnAttributes.php:312-315 | `array_unique` on a list has no repeats, keeps exactly the same elements, and keeps their first occurrences in order |
| `Php.DedupOfNoDups` | src/Traits/HasColumnAttributes.php:312-315 | `array_unique` leaves a list without repeats unchanged |
| `OrderedMap.AssignKeys` | src/Traits/HasColumnAttributes.php:144-147 | `$m[$k] = $v` keeps every key's position, appends only a new key, and keeps keys unique |
| `OrderedMap.AssignGet` | src/Traits/HasColumnAttributes.php:144-147 | after `$m[$k] = $v` the key reads `$v` and every other key reads as before |
| `OrderedMap.AssignAllKeys` | src/Traits/HasColumnAttributes.php:359-362 | `array_merge` keeps the first array's keys, then adds the second's new keys in first-seen order, all unique |
| `OrderedMap.AssignAllGet` | src/Traits/HasColumnAttributes.php:359-362 | `array_merge` is right-biased: a key of the second array reads its value there, any other key reads as in the first |
| `OrderedMap.OnlyGet` | src/Traits/HasColumnAttributes.php:409-410 | `only` keeps exactly the listed keys with their values; `except` keeps exactly the others |
| `OrderedMap.OnlyKeys` | src/Traits/HasColumnAttributes.php:409-410 | `only` and `except` keep order, keep the keys that pass the test, and keep keys unique |
| `OrderedMap.UniqueValuesValues` | src/Traits/HasColumnAttributes.php:316 | `array_unique` on a map dedupes its values and keeps only entries already there |
| `OrderedMap.UniqueValuesGet` | src/Traits/HasColumnAttributes.php:316 | `array_unique` on a map keeps an entry iff no earlier entry has the same value |
| `Attributes.ColumnDefaults` | src/Attributes/Models/Column.php:12-23 | a bare `Column` has: type `string`; fillable; not hidden; no name, cast, default or length; not nullable; not indexed |
| `Metadata.TableNameWithoutTable` | src/Traits/HasColumnAttributes.php:100-108 | a class with no `Table` attribute takes the snake-cased plural of its short name as table, and has no parent |
| `Metadata.TableNameFromTable` | src/Traits/HasColumnAttributes.php:191-198 | a class whose first `Table` attribute sits at index `i` takes that attribute's table and parent, whatever other attributes come before it |
| `Metadata.DepthDecreases` | src/Traits/HasColumnAttributes.php:137 | on an acyclic chain each step lowers the depth, which is what makes the recursion through `Table` parents terminate |
| `Metadata.WellFormedParent` | src/Traits/HasColumnAttributes.php:137 | a class's `Table` parent is a described class, strictly closer to the end of the parent chain |
| `Metadata.KnownIsEloquentModel` | src/Models/Model.php:13 | every described class is a strict subclass of Laravel's Model |
| `Metadata.BaseClassIsRoot` | src/Traits/HasColumnAttributes.php:232-241 | `getBaseClass` yields the package's root model iff the class descends from it, and null otherwise |
| `Metadata.IsModelType` | src/Traits/HasColumnAttributes.php:123-130 | a property type that passes either trait's model test names a described class |
| `Metadata.MidRule` | src/helpers.php:8-15 | `mid` returns a column that is not null, `""` or `"0"` unchanged, and otherwise the model's foreign key; a class name and an instance of it give the same result |
| `Metadata.GetSimpleTableName` | src/Traits/Models/HasColumnAttributes.php:66-77 | the second trait's scan over all class attributes names the same table as the first trait's lookup among `Table` attributes |
| `ColumnResolution.ResolveRule` | src/Traits/HasColumnAttributes.php:119-131 | the name is the explicit name, else the snake-cased property name; for a model-typed property it is the explicit name, else that model's foreign key, and the type is forced to `integer` |
| `ColumnResolution.ResolveColumn` | src/Traits/HasColumnAttributes.php:119-131 | computes one property's name and column as the resolution rule says |
| `ColumnResolution.IsFiltered` | src/Traits/HasColumnAttributes.php:133-142 | the `continue` is taken exactly when the inheritance filter drops the name |
| `ColumnResolution.GetColumnDefinitions` | src/Traits/HasColumnAttributes.php:110-168 | the nested loops and the synthesised columns build exactly the specified column map |
| `ColumnResolution.DefinitionsStep` | src/Traits/HasColumnAttributes.php:144-147 | a loop iteration assigns a resolved column the filter keeps, and otherwise leaves the map as it was |
| `ColumnResolution.KeptEntriesSpec` | src/Traits/HasColumnAttributes.php:139-141 | the filter keeps exactly the entries whose name it does not drop, in order |
| `ColumnResolution.ColumnKeys` | src/Traits/HasColumnAttributes.php:144-167 | keys are unique and ordered by first declaration, followed by the parent link key and then `type` when either is new |
| `ColumnResolution.LinkedKeys` | src/Traits/HasColumnAttributes.php:151-158 | after the parent link is assigned, the keys are the kept declared names followed by the link key when it is new, with no repeats |
| `ColumnResolution.ColumnLookup` | src/Traits/HasColumnAttributes.php:144-165 | the parent link key maps to the hidden nullable integer column; `type` maps to the hidden nullable string column when there are children and no declared `type`; any other key maps to its last kept declaration |
| `ColumnResolution.TypeColumnLast` | src/Traits/HasColumnAttributes.php:160-165 | with children and no `type` of its own, the class's last column is the synthesised `type` |
| `ColumnResolution.DroppedIff` | src/Traits/HasColumnAttributes.php:133-142 | a declared name is dropped iff: the class descends from the root model, has a `Table` parent, the name is not a root-model column, and the name is a parent column |
| `ColumnResolution.NoParentKeepsAll` | src/Traits/HasColumnAttributes.php:137-141 | without a `Table` parent nothing is dropped |
| `ColumnResolution.RootColumnDefinitions` | src/Models/Model.php:19-29 | the root model's columns are `id`, `created_at`, `updated_at` and `deleted_at`, in that order, with the declared type, flags and casts |
| `ColumnResolution.RootDeclared` | src/Models/Model.php:19-29 | the root model's four properties resolve to exactly those four columns |
| `ColumnResolution.FilterBaseKeys` | src/Traits/HasColumnAttributes.php:133-136 | whenever the filter applies, the base columns it compares with are the root model's four names |
| `ModelsTrait.GetSimpleColumnDefinitions` | src/Traits/Models/HasColumnAttributes.php:79-108 | the nested loops build exactly the declared columns, keyed by resolved name |
| `ModelsTrait.DeclaredKeysIff` | src/Traits/Models/HasColumnAttributes.php:84-103 | a name is declared iff some property carrying a `Column` resolves to it |
| `ModelsTrait.SimpleColumnDefinitionsSpec` | src/Traits/Models/HasColumnAttributes.php:100-107 | keys are unique and in first-declaration order; a repeated name takes its last column; nothing is synthesised |
| `ModelsTrait.RulesOf` | src/Traits/Models/HasColumnAttributes.php:115-122 | a property without a `Column` contributes no rule; one with a `Column` contributes one per rule attribute |
| `ModelsTrait.FoldRulesKeys` | src/Traits/Models/HasColumnAttributes.php:110-126 | the rule map has unique keys, and a name is a key iff some rule was filed under it |
| `ModelsTrait.FoldRulesLookup` | src/Traits/Models/HasColumnAttributes.php:120 | each (name, rule) pair holds the message of its last occurrence |
| `ModelsTrait.RuleTriplesFromColumns` | src/Traits/Models/HasColumnAttributes.php:115-122 | every rule comes from a property carrying a `Column`, filed under the explicit name or else the raw property name |
| `ModelsTrait.AddPropertyRules` | src/Traits/Models/HasColumnAttributes.php:118-121 | the inner loop adds one property's rules in attribute order |
| `ModelsTrait.GetValidationRules` | src/Traits/Models/HasColumnAttributes.php:110-126 | the loops build exactly the specified rule map |
| `Migration.NameOverrides` | src/Console/Commands/MigrationAutoCreateCommand.php:208-214 | whatever the column declares, `deleted_at` renders soft deletes, `created_at` renders timestamps, and `updated_at` renders nothing |
| `Migration.FixedDirectives` | src/Console/Commands/MigrationAutoCreateCommand.php:201-204 | `id`, `timestamps` and `rememberToken` ignore nullable, default, length and index, and `id` renders `$table->id()` |
| `Migration.DefinitionShape` | src/Console/Commands/MigrationAutoCreateCommand.php:193-217 | a definition is empty iff the name is `updated_at`; any other definition is a `$table->` call |
| `Migration.IndexSuffixIff` | src/Console/Commands/MigrationAutoCreateCommand.php:199-205 | a generic line ends in `->index()` iff the column is indexed |
| `Migration.UnindexedEnding` | src/Console/Commands/MigrationAutoCreateCommand.php:195-205 | without `index`, no combination of the other suffixes ends in `->index()` |
| `Migration.CallTextEnding` | src/Console/Commands/MigrationAutoCreateCommand.php:205 | the generic call never has an empty argument list |
| `Migration.LengthArgumentRoundTrip` | src/Console/Commands/MigrationAutoCreateCommand.php:198 | a non-null, non-zero length renders as `, ` followed by text that reads back as the length |
| `Migration.CreateLinesSkipUpdatedAt` | src/Console/Commands/MigrationAutoCreateCommand.php:155-165 | the create body has one line per column other than `updated_at`, in resolved order, each its definition followed by `;` |
| `Migration.InvoiceCreateLines` | src/Console/Commands/MigrationAutoCreateCommand.php:155-165 | an invoice model with `id`, `amount`, `created_at` and `updated_at` renders the id, integer and timestamps lines, in that order |
| `Migration.InvoiceCreateBody` | src/Console/Commands/MigrationAutoCreateCommand.php:155-165 | those three lines are joined with a newline and twelve spaces |
| `Migration.RemovedInLiveOrder` | src/Console/Commands/MigrationAutoCreateCommand.php:109 | the removed names appear in the order of the live listing, each once |
| `Migration.RemovedIff` | src/Console/Commands/MigrationAutoCreateCommand.php:109 | a name is removed iff it is live and no longer resolved |
| `Migration.DiffSpec` | src/Console/Commands/MigrationAutoCreateCommand.php:106-115 | added means resolved and not live; removed means live and not resolved; both are empty iff the two name sets agree |
| `Migration.NearestLiveSpec` | src/Console/Commands/MigrationAutoCreateCommand.php:172-181 | the column found is the live resolved name nearest before the added one, or none exists |
| `Migration.AfterColumn` | src/Console/Commands/MigrationAutoCreateCommand.php:176-181 | the backward loop with `break` finds the nearest live predecessor, or nothing when there is none |
| `Migration.OrderedFieldLine` | src/Console/Commands/MigrationAutoCreateCommand.php:169-189 | an added column's line is its definition, its position suffix and `;`; with no live predecessor it ends in `->first();` |
| `Migration.AddedUpdatedAtLine` | src/Console/Commands/MigrationAutoCreateCommand.php:169-189 | as written, an added `updated_at` yields only `->after('X');` or `->first();`, a line that is not a `$table->` call |
| `Migration.AddedLinesSkipUpdatedAt` | src/Console/Commands/MigrationAutoCreateCommand.php:167-191 | corrected: the added-column lines are those of every added column except `updated_at`, in order, each positioned as written |
| `Migration.AddedLinesWellFormed` | src/Console/Commands/MigrationAutoCreateCommand.php:167-191 | corrected: every added-column line is a `$table->` call |
| `Migration.OrderedLineWellFormed` | src/Console/Commands/MigrationAutoCreateCommand.php:169-189 | the line of any added column other than `updated_at` is a `$table->` call |
| `Migration.IncrementalExample` | src/Console/Commands/MigrationAutoCreateCommand.php:167-191 | with `a` and `c` live and `a` to `d` resolved: `b` and `d` are added after `a` and `c`, and nothing is removed |
| `Migration.PlanMigrationSpec` | src/Console/Commands/MigrationAutoCreateCommand.php:56-63 | no `Table` attribute means no file. A table not live gets a create migration whose down drops the table. A live table gets nothing iff the names agree. Otherwise (corrected:) it gets an update whose down is the comment placeholder, whose additions are the added columns' lines, and whose drops are one `dropColumn('C');` per removed name, joined by the indent (src/Console/Commands/MigrationAutoCreateCommand.php:117-123) |
| `Initializer.FlaggedNamesIff` | src/Traits/HasColumnAttributes.php:247-258 | a column name is added to `fillable` (or `hidden`) iff its column has that flag |
| `Initializer.CastEntriesGet` | src/Traits/HasColumnAttributes.php:259-261 | `casts` receives exactly the truthy casts, keyed by column name |
| `Initializer.BelongsToKeysOfIff` | src/Traits/HasColumnAttributes.php:283-285 | a property adds a key iff it has a `BelongsTo`, and the key is always the related model's conventional foreign key |
| `Initializer.BelongsToKeysIff` | src/Traits/HasColumnAttributes.php:274-286 | the keys added to `fillable` and `hidden` are exactly the conventional foreign keys of the `BelongsTo` targets, even when `foreignKey` is overridden |
| `Initializer.EagerNamesIff` | src/Traits/HasColumnAttributes.php:306-308 | `with` gains exactly the names of properties with a relationship marked `with` |
| `Initializer.LazyBelongsToKey` | src/Traits/HasColumnAttributes.php:283-290 | the lazy `BelongsTo` targets the property's type, with the attribute's `foreignKey` if given and the conventional key otherwise |
| `Initializer.HasManyOnCollection` | src/Traits/HasColumnAttributes.php:274-303 | a `HasMany` on a `Collection`-typed property is accepted: the registry is well formed, the property adds no key, and it registers one lazy `HasMany` |
| `Initializer.LazyEntriesKeys` | src/Traits/HasColumnAttributes.php:274-303 | a lazy relation is registered under a name iff some property of that name carries a relationship |
| `Initializer.DefinitionsUnique` | src/Traits/HasColumnAttributes.php:144-167 | the column definitions that initialisation walks have unique keys, under either trait |
| `Initializer.InitializedFlagList` | src/Traits/HasColumnAttributes.php:247-313 | after initialisation `fillable` (or `hidden`) has no repeats and holds exactly the earlier names, the flagged columns and the `BelongsTo` keys |
| `Initializer.InitializedEagerLoads` | src/Traits/HasColumnAttributes.php:306-315 | after initialisation `with` has no repeats and holds exactly the earlier names and the eager relationship properties |
| `Initializer.CastsBeforeUnique` | src/Traits/HasColumnAttributes.php:259-261 | before deduplication a truthy cast overrides the inherited one, and other keys keep their cast |
| `Initializer.RootModelCasts` | src/Traits/HasColumnAttributes.php:316 | deduplicating by value leaves only `created_at` with a `datetime` cast on the root model |
| `Initializer.RootCastEntries` | src/Models/Model.php:22-29 | the root model's columns give `created_at`, `updated_at` and `deleted_at` a `datetime` cast |
| `Initializer.ListsIdempotent` | src/Traits/HasColumnAttributes.php:312-315 | repeating an append-then-deduplicate pass leaves the list as one pass does |
| `Initializer.ModelInstance.Initialize` | src/Traits/HasColumnAttributes.php:243-317 | sets the table; then appends and deduplicates `fillable`, `hidden`, `appends` and `with`; merges `casts` and dedupes it by value; registers one lazy relation per relationship |
| `Initializer.ColumnFlags` | src/Traits/HasColumnAttributes.php:247-262 | the column loop collects exactly the flagged `fillable` and `hidden` names and the truthy casts of the definitions |
| `Initializer.CollectAppends` | src/Traits/HasColumnAttributes.php:264-272 | the `Append` loop yields exactly one name per `Append` method, the snake-cased method name, in method order; `Initialize` appends these to `appends` |
| `Initializer.CollectRelations` | src/Traits/HasColumnAttributes.php:274-310 | the property loop collects exactly the `BelongsTo` keys, eager names and lazy relations of all properties; only a property carrying a `BelongsTo` needs a model type, so a `HasMany` on a `Collection` is accepted |
| `Initializer.RelationContributions` | src/Traits/HasColumnAttributes.php:275-309 | the attribute loop of one property collects exactly that property's keys, eager names and lazy relations |
| `Persistence.FirstMatch` | src/Traits/HasColumnAttributes.php:334 | `where(...)->first()` finds a row iff one matches, and what it finds is a matching row of the table |
| `Persistence.CreatePayload` | src/Traits/HasColumnAttributes.php:48-81 | the three loops of `create` produce exactly the specified nested call and payload |
| `Persistence.RenameKeys` | src/Traits/HasColumnAttributes.php:59-67 | the renaming loop over a snapshot of the payload produces exactly the specified payload |
| `Persistence.DefaultEntriesGet` | src/Traits/HasColumnAttributes.php:53-57 | the defaults written are exactly the truthy defaults, keyed by column name |
| `Persistence.DefaultsOverwrite` | src/Traits/HasColumnAttributes.php:53-57 | a truthy default is written even over a value the caller supplied; every other key keeps the caller's value |
| `Persistence.RenameUntouched` | src/Traits/HasColumnAttributes.php:59-67 | a key that no renamed entry moves from or to keeps its value |
| `Persistence.RenameMovesValue` | src/Traits/HasColumnAttributes.php:59-67 | a key naming a model class puts its value under that model's foreign key |
| `Persistence.RenameDropsModelKeys` | src/Traits/HasColumnAttributes.php:59-67 | a model-class key left after the loop was already in the map and was not renamed |
| `Persistence.NoModelKeysRemain` | src/Traits/HasColumnAttributes.php:59-67 | after renaming no key names a model class |
| `Persistence.RenameIdentity` | src/Traits/Models/HasColumnAttributes.php:47-58 | a payload with no model-class key passes unchanged, and nothing else is filled in |
| `Persistence.ModelsCreateSpec` | src/Traits/Models/HasColumnAttributes.php:47-62 | the second trait's `create` makes no nested call, leaves no key naming a `ModelBase` class when no foreign key names one, and passes a payload without such keys unchanged, filling in no defaults |
| `Persistence.InternalPassesThrough` | src/Traits/HasColumnAttributes.php:50 | a payload marked internal reaches Eloquent untouched and creates nothing else |
| `Persistence.ChildCreate` | src/Traits/HasColumnAttributes.php:69-77 | a child first creates its parent with `type` set to the child class and marked internal. Its own payload links to the new parent id, drops the internal mark, and otherwise matches the parent's payload |
| `Persistence.ParentCreateIsPlain` | src/Traits/HasColumnAttributes.php:69-77 | the parent's own create does no preprocessing, so it never creates a grandparent row |
| `Persistence.MergeListsSpec` | src/Traits/HasColumnAttributes.php:340-342 | the merged `fillable` and `hidden` are the duplicate-free union; the merged casts have distinct values and each comes from the right-hand side when that side has the key |
| `Persistence.MergeSelf` | src/Traits/HasColumnAttributes.php:367-369 | merging an initialised instance's lists with its own class's lists changes nothing |
| `Persistence.HydratePolymorphic` | src/Traits/HasColumnAttributes.php:323-345 | a row whose type names a subclass becomes that subclass: with a null id on the plain path; with no subclass row, with no attributes; otherwise with the subclass row merged over the loaded row; on that non-null path its lists are the subclass's merged with the loading class's (`Persistence.MergeLists`, :340-342), whose union and no-repeat properties `Persistence.MergeListsSpec` states |
| `Persistence.HydrateChildRole` | src/Traits/HasColumnAttributes.php:347-373 | a child row is overlaid on its hydrated parent row, without the link key. If the parent row is missing the loaded attributes stay as they are. Initialised lists are unchanged |
| `Persistence.WithoutIff` | src/Traits/HasColumnAttributes.php:407 | `diff` keeps exactly the names absent from the other list |
| `Persistence.SplitDirty` | src/Traits/HasColumnAttributes.php:405-410 | the dirty attributes split into disjoint parent and own parts by column set; a key in neither is never written |
| `Persistence.SaveWritesSpec` | src/Traits/HasColumnAttributes.php:412-438 | an empty side writes nothing. The own side updates the linked row if there is one, else inserts with both timestamps set to now. The parent side updates the parent row by key, last |
| `Persistence.Stamped` | src/Traits/HasColumnAttributes.php:424-429 | the inserted row carries `created_at` and `updated_at` set to now and every other own attribute as given |
| `Persistence.UpdateRowsSpec` | src/Traits/HasColumnAttributes.php:419-421 | an update changes only matching rows, each by assigning the changes |
| `Persistence.ApplyWritesFrame` | src/Traits/HasColumnAttributes.php:412-438 | writes to other tables leave a table as it was |
| `Persistence.SaveWritesTables` | src/Traits/HasColumnAttributes.php:412-438 | every write of `save()` targets the class's own table or its parent's table |
| `Persistence.SaveFrame` | src/Traits/HasColumnAttributes.php:403-444 | saving touches no table other than the class's and its parent's |
| `Persistence.FalsyParentIgnored` | src/Traits/HasColumnAttributes.php:151-158 | a `Table` parent of null, `""` or `"0"` counts as no parent: no link column, no nested parent `create` (the same test at line 69), and never the child-role delete (line 383) |
| `Persistence.TruthyParentLinked` | src/Traits/HasColumnAttributes.php:151-158 | any other parent name is the parent: the link column is the parent's foreign key, `create` first creates the parent row, and a delete not routed to a subclass takes the child-role branch |
| `Persistence.NotTrashed` | src/Models/Model.php:17 | the `SoftDeletes` scope lets through exactly the rows whose `deleted_at` is null |
| `Persistence.FindSpec` | src/Traits/HasColumnAttributes.php:381 | `$class::find($key)` finds a row iff the class's table holds one under the key, and for a class descending from the root model (which uses `SoftDeletes`) that row's `deleted_at` is null |
| `Persistence.DeleteRouteSpec` | src/Traits/HasColumnAttributes.php:378-384 | the deletion is delegated iff there are children, the type names a subclass, and `find` sees its row: one under the key that, for a class descending from the soft-deleting root model, is not soft-deleted. Otherwise a class with a `Table` parent takes the child-role branch, and anything else is Eloquent's own delete |
| `Persistence.SubclassNotSuperclass` | src/Traits/HasColumnAttributes.php:381 | an instance is never an instance of a strict subclass of its own class |
| `Persistence.UnmatchedIff` | src/Traits/HasColumnAttributes.php:388-390 | `where(...)->delete()` keeps exactly the rows that do not match |
| `Persistence.ChildRoleDeleteLosesNothing` | src/Traits/HasColumnAttributes.php:384-398 | a linked own row survives the deletion as written, and the corrected deletion removes it |
| `Persistence.ChildRoleDeletionSpec` | src/Traits/HasColumnAttributes.php:384-398 | corrected: other tables are untouched. The own table loses exactly the rows linked to the parent. The parent table loses exactly the rows with the instance's key |
| `Persistence.Database.Transaction` | src/Traits/HasColumnAttributes.php:412-438 | the transaction's writes replace the tables together, in order |
| `Persistence.Database.Save` | src/Traits/HasColumnAttributes.php:403-444 | saving a class with a `Table` parent applies exactly its writes in one transaction and returns true |
| `Persistence.Database.DeleteChildRole` | src/Traits/HasColumnAttributes.php:384-398 | corrected: the child-role delete applies exactly the corrected deletion and returns true |

## Left out

- Discovery through the filesystem is not modelled; the children, the model list, the live column listing and the timestamp are inputs. This covers:
  - the directory walk of `getChildren`;
  - the scan of `app/Models` in `handle`;
  - `File::put` and the `date(...)` file names.
- Reflection, attribute instantiation, `Str::snake`, `Str::pluralStudly`, `getForeignKey` and `getKeyName` are inputs held in the registry.
- The registry describes only model classes. `class_exists` on any other class name reads as false.
- The console messages of `handle`, and its early stop on a missing class or trait, are console plumbing and are not modelled.
- The Eloquent relation builders behind the lazy relations, and the `__get`/`__call` dispatch, are framework calls. The model records only which property gets which relationship kind, target and keys.
- `getMorphClass` is framework polymorphism and is not modelled.
- The casts (`AsCurrency`, `AsString`) and the service provider are not modelled: they are float arithmetic and wiring.
- The `HasManyThrough`, `Append` and `ModelBase` classes are not part of this model. `HasManyThrough` is a record with the fields the initialiser reads.
- Eloquent's own `create`, `save` and `delete` are not modelled; `find` is modelled only as the lookup by key within the `SoftDeletes` scope (`Persistence.Find`).
  - The id of the parent row that a child's `create` makes is a parameter.
  - The new instance's `syncOriginal`, connection and dirty tracking are not modelled; the dirty attributes are an input.
- SQL type coercion in a `where` is not modelled: matching is equality of values, a missing column reads as null, and a missing table as empty.
- Persistence.Database.Save: covers only classes with a `Table` parent. Without one, `save()` is Eloquent's own.
- Persistence.DeleteRouteSpec: gives only the branch taken. The delegated `$child->delete()` and Eloquent's own delete are not carried out.
- Persistence.DeleteRouteSpec: reads `class_exists` as "the registry describes the class". A `type` naming an existing non-model class is routed like an unknown name, although the source would go straight to `parent::delete()`.
- Persistence.ParentCreateIsPlain: the nested `create` of a parent that has a `Table` parent of its own creates no grandparent row. The model records this and does not go further up the chain.
- Column defaults are scalars (null, bool, int, string), but `Column::$default` is `mixed` (src/Attributes/Models/Column.php:20). A float default, which `getDefinitions` interpolates (src/Console/Commands/MigrationAutoCreateCommand.php:197) and `create` tests for truthiness (src/Traits/HasColumnAttributes.php:54), is not modelled. Neither is an array default, on which the interpolation raises.
- Every property has a type name in the model. In the source, `getType()->getName()` (src/Traits/HasColumnAttributes.php:122 and :279) raises on an untyped or union-typed property that carries any attribute; those raising paths are not modelled.
- The root model's children are fixed to none. In the source, `getChildren` (src/Traits/HasColumnAttributes.php:200-230) scans the root model's own directory, where `ModelBase` also lives (it is imported from the root model's namespace at src/Traits/Models/HasColumnAttributes.php:17), so the answer for the root depends on the files there, which the model does not describe.
- `Metadata.WellFormed` excludes three kinds of input on which the source does not return normally; the model does not describe them:
  - a `Table` parent that is not a described class, on which `$parentClass::getColumnDefinitions()` and `resolve($parentClass)` raise (src/Traits/HasColumnAttributes.php:137 and :152);
  - a property carrying a `BelongsTo` whose type is not a described model, on which `mid($propertyTypeName)` raises (src/Traits/HasColumnAttributes.php:284);
  - a cycle of `Table` parents, on which `getColumnDefinitions`, `create` and `newFromBuilder` recurse without end. A cycle of superclasses is refused by PHP itself.
- A repeated `Table` attribute on one class is refused by PHP at reflection time (the attribute is not repeatable); the model reads the first one and does not model that error.
- Migration.PlanMigrationSpec: states the update's additions as the corrected `GenerateAddedFields`. The code calls `generateOrderedFields` (src/Console/Commands/MigrationAutoCreateCommand.php:120), so for an added `updated_at` it also emits the malformed line that `Migration.AddedUpdatedAtLine` shows; every other added line is the same in both.
- `Migration.UpdateMigration` and `Persistence.Database.DeleteChildRole` use the corrected behaviour of the two findings below. The behaviour as written is `Migration.GenerateOrderedFields` and `Persistence.ChildRoleDeleteAsWritten`.

## Findings

| source | as written | input that shows it | evidently intended | confidence | as-written member | corrected member |
|---|---|---|---|---|---|---|
| src/Console/Commands/MigrationAutoCreateCommand.php:169-189 | added-column lines are not filtered for emptiness, so an added `updated_at` renders as `->after('X');` or `->first();` with no `$table->` receiver | a model descending from the root model (which declares `updated_at`) whose live table lacks `updated_at` | skip empty definitions as `generateFields` does, leaving every added line a `$table->` call | not executed | `Migration.AddedUpdatedAtLine` | `Migration.AddedLinesWellFormed` |
| src/Traits/HasColumnAttributes.php:384-398 | the closure captures the undefined `$childAttributes` and `$parentAttributes` but not `$parent`, so `$parent->getKeyName()` fails after the first delete; the transaction rolls back and `delete()` raises, with nothing deleted | `delete()` on an instance of a class with a `Table` parent and no children, where the own table holds a linked row | delete the own rows linked by `mid(parent)`, then the parent row by key, in one transaction, and return true | not executed | `Persistence.ChildRoleDeleteLosesNothing` | `Persistence.ChildRoleDeletionSpec` |
