# RoomMigrations schema reconciliation in Dafny

RoomMigrations is an annotation processor for Android Room. It reads the
`@Entity` classes of an application and derives one RoomModel per table:
a table name, a list of columns, and a list of indices. For each model it
generates a `Migration` class. When run, that class brings the live SQLite
table in line with the model:

- It creates the table when it is missing.
- It adds model columns the table lacks.
- It rebuilds the table through a shadow copy when the table has columns the model lacks.
  Dropping the old table removes all of its indices, `sqlite_autoindex` ones included.
- It creates missing indices, deleting duplicate rows first for unique ones.
- It issues DROP INDEX for live indices the model does not declare, except
  SQLite's own `sqlite_autoindex` ones.

This project models four parts:

- **The schema derivation** (`RoomModelParser`, `JavaTypeToSql`). An
  entity is given by the annotation facts the parser reads. Its fields form
  a tree of plain, embedded and ignored fields.
- **The SQL fragments the generated class embeds** (`Ddl`). Each builder is
  paired with a decoder and a round-trip lemma.
- **The statements the generated `migrate` method executes** (`Migration`).
  They are a function of the model and of what its queries read. A
  reference definition of the plan, written without the list-difference
  loop, is proved equal to it.
- **A small SQLite schema semantics** (`Sqlite`, `MigrationRun`). It
  compares names exactly, where SQLite ignores the case of ASCII letters.
  Under it the migration is proved to reach the model and to be idempotent,
  for models with distinct names and databases whose names differ beyond
  case. "## Left out" lists what these conditions exclude.

Modules, one per file:

- `Wrappers`: Option and Result.
- `Text`: string helpers and their decoders.
- `Models`: RoomColumn, RoomIndex and RoomModel.
- `JavaTypeToSql`: the type mapping.
- `SeqDiff`: the iterator-remove list difference.
- `Ddl`: the fragments and their decoders.
- `Sqlite`: statements, rendering and schema effects.
- `Migration`: `tableMeta` and the statement plan.
- `MigrationRun`: the plan executed.
- `RoomModelParser`: the parser.

Where the code and its documented intent differ, the model follows the code:

- One entity whose field type cannot be resolved aborts the whole parse. It
  does not abort only that entity.
- The duplicate-row deletion runs for every unique model index whenever
  any model index is missing, not only for the missing ones.
- `DROP INDEX IF EXISTS`, the rebuild's `DROP TABLE` and its `RENAME` carry
  no terminating semicolon. The dropped index name is not backquoted.
- The index declared by `@ColumnInfo(index = true)` inside a prefixed
  embedded field names the column without the prefix. That column is then
  not a column of the model (`RoomModelParser.EmbeddedIndexIgnoresPrefix`).
- A model index named like a model column replaces that column's
  `tableMeta` entry, because index entries are put last.

## Model

| member | source | states |
|---|---|---|
| Text.NatToStringRoundTrip | migrations/src/main/java/android/arch/persistence/room/migrations/MigrationSpec.kt:186-190 | the decimal text of the shadow-table suffix reads back as the same number |
| Text.QuotedListRoundTrip | migrations/src/main/java/android/arch/persistence/room/migrations/MigrationSpec.kt:59-64 | a comma-separated list of backquoted names decodes back to the same names and leaves the rest of the text |
| Models.SqlTypeName | migrations/src/main/java/android/arch/persistence/room/migrations/models/RoomColumn.kt:19 | each storage type's name parses back to that type, so the three names are distinct |
| Models.ModelToStringShowsOnlyTableName | migrations/src/main/java/android/arch/persistence/room/migrations/models/RoomModel.kt:21-23 | two models print the same exactly when their table names are equal |
| Models.ColumnToStringDeterminesFlags | migrations/src/main/java/android/arch/persistence/room/migrations/models/RoomColumn.kt:20-22 | for one name, two columns print the same exactly when nullability, primary key, autoincrement and type agree |
| Models.ColumnToStringOmitsDefault | migrations/src/main/java/android/arch/persistence/room/migrations/models/RoomColumn.kt:20-22 | the printed column does not depend on its default value |
| JavaTypeToSql.ToSqlType | migrations/src/main/java/android/arch/persistence/room/migrations/JavaTypeToSql.kt:15-28 | TEXT exactly for a String, REAL exactly for a Double or Float, INTEGER exactly for an Integer, Boolean or Long, after boxing |
| JavaTypeToSql.ToSqlDefaultValue | migrations/src/main/java/android/arch/persistence/room/migrations/JavaTypeToSql.kt:30-36 | the default is never empty; it is "0" exactly for INTEGER, "0.0" exactly for REAL, "''" exactly for TEXT |
| JavaTypeToSql.BoxIdempotent | migrations/src/main/java/android/arch/persistence/room/migrations/JavaTypeToSql.kt:16 | boxing a boxed name changes nothing |
| JavaTypeToSql.PrimitiveMapsLikeWrapper | migrations/src/main/java/android/arch/persistence/room/migrations/JavaTypeToSql.kt:16-17 | a primitive maps to the same storage type as its wrapper class |
| JavaTypeToSql.MappedTypesAreExactlySix | migrations/src/main/java/android/arch/persistence/room/migrations/JavaTypeToSql.kt:17-27 | a type is mapped exactly when its boxed name is one of the six wrapper names |
| JavaTypeToSql.IntegerPrimitives | migrations/src/main/java/android/arch/persistence/room/migrations/JavaTypeToSql.kt:15-28 | example: int, long and boolean map to INTEGER, as their wrapper classes do |
| JavaTypeToSql.RealPrimitives | migrations/src/main/java/android/arch/persistence/room/migrations/JavaTypeToSql.kt:15-28 | example: double and float map to REAL, as their wrapper classes do |
| JavaTypeToSql.UnmappedPrimitives | migrations/src/main/java/android/arch/persistence/room/migrations/JavaTypeToSql.kt:15-28 | example: short, byte and char have no mapping, and neither do their wrapper classes |
| Ddl.ColumnDefRoundTrip | migrations/src/main/java/android/arch/persistence/room/migrations/MigrationSpec.kt:206-220 | a column definition decodes to its name, type, key flags and NOT NULL, plus a DEFAULT exactly for a non-key non-null column with a non-empty default |
| Ddl.AddColumnIsDefinitionWithoutKey | migrations/src/main/java/android/arch/persistence/room/migrations/MigrationSpec.kt:94-100 | the ADD COLUMN fragment is the table's column definition with the key flags cleared |
| Ddl.AddColumnRoundTrip | migrations/src/main/java/android/arch/persistence/room/migrations/MigrationSpec.kt:94-100 | an ADD COLUMN fragment decodes to its table and column, never with PRIMARY KEY or AUTOINCREMENT, with DEFAULT exactly for a non-null column with a non-empty default |
| Ddl.CreateIndexRoundTrip | migrations/src/main/java/android/arch/persistence/room/migrations/MigrationSpec.kt:59-64 | a CREATE INDEX fragment decodes to the index name, table, uniqueness and columns in order |
| Ddl.NullableColumnRoundTrip | migrations/src/main/java/android/arch/persistence/room/migrations/MigrationSpec.kt:199-203 | the copy expression decodes to the column name, wrapped in ifnull with the default exactly for a non-null non-key column |
| SeqDiff.RemoveFirst | migrations/src/main/java/android/arch/persistence/room/migrations/MigrationSpec.kt:178 | removing a name takes away its first occurrence, if any, and keeps the order of the rest |
| SeqDiff.Diff | migrations/src/main/java/android/arch/persistence/room/migrations/MigrationSpec.kt:175-179 | the names left to add are the target minus the live names as multisets, the names left over are the live minus the target, and both keep their original order |
| SeqDiff.DiffEmptyIffPermutation | migrations/src/main/java/android/arch/persistence/room/migrations/MigrationSpec.kt:175-185 | nothing is left on either side exactly when target and live names are the same multiset |
| SeqDiff.DiffMembership | migrations/src/main/java/android/arch/persistence/room/migrations/MigrationSpec.kt:175-179 | a name of the target that is not live is left to add; a live name not in the target is left over |
| SeqDiff.DiffMissingIsAbsent | migrations/src/main/java/android/arch/persistence/room/migrations/MigrationSpec.kt:175-179 | for distinct target names, the names left to add are the target filtered by absence from the live names |
| SeqDiff.NothingMissingIffCovered | migrations/src/main/java/android/arch/persistence/room/migrations/MigrationSpec.kt:245-252 | no target name is left to add exactly when the live names hold every target name at least as often as the target does |
| SeqDiff.CoveredByDistinct | migrations/src/main/java/android/arch/persistence/room/migrations/MigrationSpec.kt:245-252 | against distinct live names, the target is covered exactly when it repeats no name and all its names are live |
| Sqlite.IndicesOn | migrations/src/main/java/android/arch/persistence/room/migrations/MigrationSpec.kt:227 | the index query of a table reads exactly the names of the indices on that table |
| Sqlite.NoCaseAgrees | migrations/src/main/java/android/arch/persistence/room/migrations/MigrationSpec.kt:131 | among names that differ beyond case, a lookup that ignores case finds a name exactly when the exact lookup does |
| Migration.MetaKeys | migrations/src/main/java/android/arch/persistence/room/migrations/MigrationSpec.kt:94-106 | the keys of tableMeta are exactly the model's column names and index names |
| Migration.MetaColumnEntry | migrations/src/main/java/android/arch/persistence/room/migrations/MigrationSpec.kt:94-102 | the entry for a column name, when no later column reuses it and no index has it, is that column's ADD COLUMN fragment |
| Migration.MetaIndexEntry | migrations/src/main/java/android/arch/persistence/room/migrations/MigrationSpec.kt:104-106 | the entry for an index name, when no later index reuses it, is that index's CREATE INDEX fragment, even when a column has the same name |
| Migration.MetaValues | migrations/src/main/java/android/arch/persistence/room/migrations/MigrationSpec.kt:94-106 | every tableMeta value is the ADD COLUMN of some model column or the CREATE INDEX of some model index |
| Migration.ShadowName | migrations/src/main/java/android/arch/persistence/room/migrations/MigrationSpec.kt:186-190 | the shadow table's name extends the table name with "_" and differs from it |
| Migration.MissingColumns | migrations/src/main/java/android/arch/persistence/room/migrations/MigrationSpec.kt:175-183 | a column is selected exactly when it is a model column whose name is not live |
| Migration.MissingIndices | migrations/src/main/java/android/arch/persistence/room/migrations/MigrationSpec.kt:245-261 | an index is selected exactly when it is a model index whose name is not live |
| Migration.MissingIndicesNames | migrations/src/main/java/android/arch/persistence/room/migrations/MigrationSpec.kt:259-261 | the names of the selected indices are the model's index names that are not live, in model order |
| Migration.MissingIndicesNone | migrations/src/main/java/android/arch/persistence/room/migrations/MigrationSpec.kt:252-262 | when every model index is live, no index is selected for creation |
| Migration.MissingIffNotAllLive | migrations/src/main/java/android/arch/persistence/room/migrations/MigrationSpec.kt:245-252 | for distinct model index names, some name is left to add exactly when some model index is not live, so the creation block runs exactly then |
| Migration.IndexLookupKinds | migrations/src/main/java/android/arch/persistence/room/migrations/MigrationSpec.kt:259-261 | for any model, the lookups of the unmatched index names produce only CREATE INDEX statements, even for a name a column shares |
| Migration.ColumnLookups | migrations/src/main/java/android/arch/persistence/room/migrations/MigrationSpec.kt:181-183 | looking up tableMeta for the unmatched column names yields the ADD COLUMN of each missing model column, in model order |
| Migration.IndexLookups | migrations/src/main/java/android/arch/persistence/room/migrations/MigrationSpec.kt:259-261 | for any model, looking up tableMeta for the unmatched index names yields, per name, the CREATE INDEX of the last model index with that name |
| Migration.LastNamed | migrations/src/main/java/android/arch/persistence/room/migrations/MigrationSpec.kt:104-106 | the index chosen for a name has that name and no later model index has it, so its entry is the one tableMeta keeps |
| Migration.CreatedIndicesDistinct | migrations/src/main/java/android/arch/persistence/room/migrations/MigrationSpec.kt:245-261 | with distinct index names, the indices created are exactly the model indices not found live, in model order |
| Migration.IndexLookupsDistinct | migrations/src/main/java/android/arch/persistence/room/migrations/MigrationSpec.kt:259-261 | with distinct index names, the lookups are the CREATE INDEX of each missing model index, in model order |
| Migration.StaleIffUnknownLive | migrations/src/main/java/android/arch/persistence/room/migrations/MigrationSpec.kt:185 | the rebuild happens exactly when some live column is not a model column |
| Migration.AddColumnsPlan | migrations/src/main/java/android/arch/persistence/room/migrations/MigrationSpec.kt:156-197 | addColumns is the ADD COLUMN of each missing column, followed by the four-statement rebuild exactly when a live column is not a model column |
| Migration.DedupsOfUnique | migrations/src/main/java/android/arch/persistence/room/migrations/MigrationSpec.kt:253-258 | a duplicate-row deletion on a table for a column list is issued exactly for the model table and a unique index over that list |
| Migration.AddIndexesPlan | migrations/src/main/java/android/arch/persistence/room/migrations/MigrationSpec.kt:222-270 | for any model, addIndexes is the deletions and the CREATE INDEX of each created index unless the live names cover the model names as a multiset, then the drops of stale indices |
| Migration.AddIndexesPlanDistinct | migrations/src/main/java/android/arch/persistence/room/migrations/MigrationSpec.kt:222-270 | with distinct index names, addIndexes is the deletions and CREATE INDEX of each missing index when some index is missing, then the drops of stale indices |
| Migration.DropStaleMembers | migrations/src/main/java/android/arch/persistence/room/migrations/MigrationSpec.kt:264-267 | a DROP INDEX statement is issued for a name exactly when it is one of the given names and not an automatic index |
| Migration.DropStaleEmpty | migrations/src/main/java/android/arch/persistence/room/migrations/MigrationSpec.kt:264-267 | no DROP INDEX statement is issued exactly when every given name is an automatic index |
| Migration.StaleAllAuto | migrations/src/main/java/android/arch/persistence/room/migrations/MigrationSpec.kt:245-249 | every left-over live index name is automatic exactly when every live name outside the model is automatic |
| Migration.NoDropsIffOnlyAuto | migrations/src/main/java/android/arch/persistence/room/migrations/MigrationSpec.kt:245-267 | the index pass issues no DROP INDEX statement exactly when every live index outside the model is automatic |
| Migration.TablePassKinds | migrations/src/main/java/android/arch/persistence/room/migrations/MigrationSpec.kt:130-145 | the table pass issues no DROP INDEX statement (a rebuild's DROP TABLE still removes all of the table's indices, see RunRebuild) |
| Migration.RebuildKinds | migrations/src/main/java/android/arch/persistence/room/migrations/MigrationSpec.kt:186-194 | the rebuild issues no ADD COLUMN, CREATE INDEX or DROP INDEX statement; its DROP TABLE removes all of the old table's indices, automatic ones included |
| Migration.DroppedIndices | migrations/src/main/java/android/arch/persistence/room/migrations/MigrationSpec.kt:144 | migrate issues a DROP INDEX statement for a name exactly when the model has indices and the name is live, not declared and not automatic |
| Migration.AddColumnsEmpty | migrations/src/main/java/android/arch/persistence/room/migrations/MigrationSpec.kt:156-197 | addColumns issues nothing exactly when the live columns are the model's column names as a multiset |
| Migration.AddIndexesEmpty | migrations/src/main/java/android/arch/persistence/room/migrations/MigrationSpec.kt:222-270 | against distinct live names, addIndexes issues nothing exactly when the model repeats no index name, every model index is live and every other live index is automatic |
| Migration.NoOpIffInSync | migrations/src/main/java/android/arch/persistence/room/migrations/MigrationSpec.kt:130-145 | migrate issues nothing exactly when the table exists with the model's column names and, for a model with indices, the index names are distinct, every index is live and every other live index is automatic |
| Migration.DuplicateIndexNeverIdle | migrations/src/main/java/android/arch/persistence/room/migrations/MigrationSpec.kt:229-261 | a model that repeats an index name issues a CREATE INDEX on every run, whatever the live state |
| Migration.AddIndexesOnceEmpty | migrations/src/main/java/android/arch/persistence/room/migrations/MigrationSpec.kt:229-270 | the corrected index pass, which diffs each name once, issues nothing exactly when every model index is live and every other live index is automatic, repeated names or not |
| Migration.AddIndexesOnceAgrees | migrations/src/main/java/android/arch/persistence/room/migrations/MigrationSpec.kt:229-270 | with distinct index names the corrected index pass is the generated one |
| Migration.AddedColumns | migrations/src/main/java/android/arch/persistence/room/migrations/MigrationSpec.kt:130-145 | migrate adds a column exactly when the table exists, the column is a model column of that table, and its name is not live |
| Migration.TablePassAddedColumns | migrations/src/main/java/android/arch/persistence/room/migrations/MigrationSpec.kt:130-145 | the table pass adds a column exactly when the table exists, the column is a model column, and its name is not live |
| Migration.AddIndexesAddNoColumn | migrations/src/main/java/android/arch/persistence/room/migrations/MigrationSpec.kt:222-270 | the index pass never adds a column |
| Migration.AddColumnTextsCarryNoKey | migrations/src/main/java/android/arch/persistence/room/migrations/MigrationSpec.kt:94-100 | every ADD COLUMN text migrate executes names the model table and a model column that is not live, and carries no PRIMARY KEY or AUTOINCREMENT |
| Migration.RenderedDropIndex | migrations/src/main/java/android/arch/persistence/room/migrations/MigrationSpec.kt:266 | a statement's text starts with "DROP INDEX IF EXISTS " exactly when it is an index drop |
| Migration.RenderedDropIndexIn | migrations/src/main/java/android/arch/persistence/room/migrations/MigrationSpec.kt:266 | the only statement whose text is the drop of a name is the drop of that name |
| Migration.NoAutoIndexDrop | migrations/src/main/java/android/arch/persistence/room/migrations/MigrationSpec.kt:264-267 | a DROP INDEX statement of migrate names a live, non-automatic index, and only when the model has indices |
| Migration.DropFromStale | migrations/src/main/java/android/arch/persistence/room/migrations/MigrationSpec.kt:264-267 | a DROP INDEX statement of the index pass names a live name left over after matching the model and is not automatic |
| Migration.NoAutoIndexDropText | migrations/src/main/java/android/arch/persistence/room/migrations/MigrationSpec.kt:264-267 | an executed "DROP INDEX IF EXISTS" text names a live, non-automatic index |
| MigrationRun.Observe | migrations/src/main/java/android/arch/persistence/room/migrations/MigrationSpec.kt:130-154 | the queries read whether the table exists, its columns in order, and the names of its indices |
| MigrationRun.MissingColumnsAddable | migrations/src/main/java/android/arch/persistence/room/migrations/MigrationSpec.kt:175-183 | for a well-formed model, every column selected for adding can be added by ALTER TABLE, is not live, and the selected names are distinct |
| MigrationRun.TablePassOnExisting | migrations/src/main/java/android/arch/persistence/room/migrations/MigrationSpec.kt:130-143 | on an existing table the table pass is the ADD COLUMN of each missing model column, then the rebuild exactly when the live table has a column the model lacks |
| MigrationRun.RunAddAll | migrations/src/main/java/android/arch/persistence/room/migrations/MigrationSpec.kt:181-183 | adding addable, new, distinct columns appends their names to the table and changes nothing else |
| MigrationRun.RunDedups | migrations/src/main/java/android/arch/persistence/room/migrations/MigrationSpec.kt:253-258 | the duplicate-row deletions over existing columns succeed and leave the schema unchanged |
| MigrationRun.RunCreateAll | migrations/src/main/java/android/arch/persistence/room/migrations/MigrationSpec.kt:259-261 | creating indices whose names the catalog does not hold yet, over existing columns, appends one catalog entry per index in order |
| MigrationRun.RunDropStale | migrations/src/main/java/android/arch/persistence/room/migrations/MigrationSpec.kt:264-267 | the drops always succeed, leave the tables alone, and remove exactly the named non-automatic indices |
| MigrationRun.RunFresh | migrations/src/main/java/android/arch/persistence/room/migrations/MigrationSpec.kt:111-119 | a missing table is created with the model's column names, and the catalog keeps its indices |
| MigrationRun.RunAddOnly | migrations/src/main/java/android/arch/persistence/room/migrations/MigrationSpec.kt:156-183 | a table without extra columns gets the missing model columns and keeps its indices |
| MigrationRun.RunRebuild | migrations/src/main/java/android/arch/persistence/room/migrations/MigrationSpec.kt:185-194 | the rebuild leaves the table with the model's column names and drops the old table's indices |
| MigrationRun.RunRebuildCase | migrations/src/main/java/android/arch/persistence/room/migrations/MigrationSpec.kt:185-194 | a table with extra columns ends with exactly the model's column names and without its old indices, and every other table is unchanged |
| MigrationRun.RunTablePass | migrations/src/main/java/android/arch/persistence/room/migrations/MigrationSpec.kt:130-143 | the table pass succeeds; the table then has exactly the model's column names, other tables are unchanged, and the table keeps its indices unless rebuilt |
| MigrationRun.RunCreatePhase | migrations/src/main/java/android/arch/persistence/room/migrations/MigrationSpec.kt:252-262 | deletions then creations append one entry on the table for each missing model index |
| MigrationRun.IndexPassMember | migrations/src/main/java/android/arch/persistence/room/migrations/MigrationSpec.kt:222-270 | an index is in the catalog after the index pass exactly when it was there or was created for a missing model index, and it is not a stale non-automatic live index |
| MigrationRun.RunIndexPass | migrations/src/main/java/android/arch/persistence/room/migrations/MigrationSpec.kt:222-270 | the index pass succeeds; the table has every model index, loses its stale non-automatic indices, and keeps the rest |
| MigrationRun.TablePassState | migrations/src/main/java/android/arch/persistence/room/migrations/MigrationSpec.kt:130-143 | after the table pass the catalog is consistent and the model's column names exist, so the index pass can run |
| MigrationRun.MigrateReachesModel | migrations/src/main/java/android/arch/persistence/room/migrations/MigrationSpec.kt:121-145 | for a well-formed model on a database it fits, the migration succeeds; the table ends with exactly the model's column names; for a model with indices it has exactly the model's and automatic indices; other tables and their indices are unchanged |
| MigrationRun.TablePassIdle | migrations/src/main/java/android/arch/persistence/room/migrations/MigrationSpec.kt:156-197 | once the table has exactly the model's column names, the table pass issues nothing |
| MigrationRun.IndexPassIdle | migrations/src/main/java/android/arch/persistence/room/migrations/MigrationSpec.kt:222-270 | once every model index is live and nothing stale is left, the index pass issues nothing |
| MigrationRun.MigrateIdempotent | migrations/src/main/java/android/arch/persistence/room/migrations/MigrationSpec.kt:121-145 | after the migration, a second run issues no statement and leaves the database as it is |
| MigrationRun.ExistsQueryMissesOtherCase | migrations/src/main/java/android/arch/persistence/room/migrations/MigrationSpec.kt:115-138 | with a live table "Users" and model table "users", the existence query reads no table, createTable runs first its DROP TABLE IF EXISTS, and SQLite's drop removes "Users" |
| MigrationRun.FoundNoCaseIffDropRemoves | migrations/src/main/java/android/arch/persistence/room/migrations/MigrationSpec.kt:115-138 | a table lookup that ignores case finds a table exactly when createTable's DROP TABLE IF EXISTS would remove one, so createTable then never destroys a table |
| MigrationRun.ExistsQueriesAgree | migrations/src/main/java/android/arch/persistence/room/migrations/MigrationSpec.kt:131 | on a database the migration fits, the case-blind lookup and the generated exact query agree |
| RoomModelParser.EntityIndex | migrations/src/main/java/android/arch/persistence/room/migrations/RoomModelParser.kt:46-53 | an entity index copies the columns and unique flag and takes the given name, or "index_<table>_<columns joined by _>" when the name is empty |
| RoomModelParser.ChatMessagesIndexName | migrations/src/main/java/android/arch/persistence/room/migrations/RoomModelParser.kt:48 | example: an unnamed index on localId of chat_messages is named index_chat_messages_localId |
| RoomModelParser.SingleColumnIndexAgrees | migrations/src/main/java/android/arch/persistence/room/migrations/RoomModelParser.kt:48-91 | an unnamed one-column entity index and @ColumnInfo(index = true) on that column give the same index |
| RoomModelParser.FindConverterMethod | migrations/src/main/java/android/arch/persistence/room/migrations/RoomModelParser.kt:122-129 | a method is found exactly when some listed class has a one-parameter method taking the field's type, and the one found is the first such method of the first class that has one |
| RoomModelParser.FindInClass | migrations/src/main/java/android/arch/persistence/room/migrations/RoomModelParser.kt:123-125 | within one class, a method is found exactly when one takes the field's type as its only parameter, and it is the first such method |
| RoomModelParser.ResolveType | migrations/src/main/java/android/arch/persistence/room/migrations/RoomModelParser.kt:104-139 | a directly mapped type resolves to its mapping without consulting converters; otherwise it resolves to t exactly when the entity lists converters and the first matching method returns a type that maps to t; every failure reports the field type and the entity's qualified class name |
| RoomModelParser.FirstConverterWins | migrations/src/main/java/android/arch/persistence/room/migrations/RoomModelParser.kt:122-135 | example: the first matching converter decides the type even when its return type is unmapped and a later one's is mapped |
| RoomModelParser.ColumnFor | migrations/src/main/java/android/arch/persistence/room/migrations/RoomModelParser.kt:78-101 | the column is named by the embedded prefix followed by the @ColumnInfo name or else the field name; it is nullable exactly when the field is not non-null; with @PrimaryKey it is primary and autoincrements exactly as the annotation says, without it neither; its default is the default of its type, never empty |
| RoomModelParser.ParseEntity | migrations/src/main/java/android/arch/persistence/room/migrations/RoomModelParser.kt:36-56 | the table name is the entity's tableName unless blank, else the class name, and the entity's indices come first in declaration order |
| RoomModelParser.Parse | migrations/src/main/java/android/arch/persistence/room/migrations/RoomModelParser.kt:23-34 | the parse succeeds exactly when every entity parses, giving one model per entity in order; otherwise it reports the error of the first failing entity |
| RoomModelParser.ParseFieldsLeaves | migrations/src/main/java/android/arch/persistence/room/migrations/RoomModelParser.kt:58-76 | parsing the field tree succeeds exactly when every plain leaf's type resolves, and yields one column per leaf and one index per indexed leaf, in order |
| RoomModelParser.ParseEntityShape | migrations/src/main/java/android/arch/persistence/room/migrations/RoomModelParser.kt:23-56 | a parsed model is the flattened leaves' columns, with the entity indices followed by the @ColumnInfo indices |
| RoomModelParser.ParsedColumnsAddable | migrations/src/main/java/android/arch/persistence/room/migrations/RoomModelParser.kt:93-95 | every parsed column has a non-empty default, so it can be added to an existing table |
| RoomModelParser.EmbeddedPrefixNotAccumulated | migrations/src/main/java/android/arch/persistence/room/migrations/RoomModelParser.kt:63-66 | a field nested in two embedded fields gets only the inner prefix |
| RoomModelParser.EmbeddedIndexIgnoresPrefix | migrations/src/main/java/android/arch/persistence/room/migrations/RoomModelParser.kt:71-91 | example, for any non-empty prefix: an indexed column inside a prefixed embedded field yields an index over the unprefixed name, which is not a column of the model |

## Left out

- Code generation with JavaPoet is not modelled: class, method and field
  declarations, the constructor and the `tableMeta` capacity. The model is
  the SQL the generated methods execute.
- Cursors and queries (`sqlite_master`, `pragma table_info`) are not
  modelled as calls. They become a Snapshot input, or `MigrationRun.Observe`
  over the modelled schema.
- Row data is not modelled. The row copy and the duplicate-row deletion are
  checked only for the names they mention. Rows that break a NOT NULL or
  UNIQUE constraint are not represented.
- The indices SQLite creates for PRIMARY KEY and UNIQUE constraints are not
  created by the modelled CREATE TABLE. An automatic index appears only
  when the starting database holds one.
- `Random().nextInt(19999999)` becomes the Suffix parameter.
- The Java language model is not modelled: `TypeMirror`, `Element`,
  `MoreTypes`, `MoreElements` and `TypeExtensions`. A field arrives with
  its type name as printed and with `nonNull` already decided. The same
  printed name is used for the direct mapping and for converter parameters.
  JavaPoet's boxing is the fixed eight-primitive table in
  `JavaTypeToSql.Box`.
- `IProcessor` and the processor entry point are not modelled: file
  writing, messager output, and the exception's element.
- Backquote escaping is not modelled. The round trips require names
  without backquotes, which the source never escapes either.
- Static fields are not treated specially. Every field the entity declares
  is given in its field list.
- The schema keeps only column names, not their definitions, so the
  column results say which names a table has. Types, NOT NULL, DEFAULT and
  key clauses after a migration are not tracked: a model PRIMARY KEY column
  added by ADD COLUMN arrives without its key, and an existing column keeps
  whatever definition it had.
- DROP TABLE removes all of the table's indices, automatic ones included,
  so a rebuild loses every index of the old table; the statements about
  dropping indices say which DROP INDEX statements are issued, not which
  indices disappear.
- Annotations are matched by the names the source looks for.
  `RoomModelParser.Field.Ignored` stands for a field with
  `android.arch.persistence.room.Ignore`, and `nonNull` for
  `android.support.annotation.NonNull`, `org.jetbrains.annotations.NotNull`
  or a primitive type (TypeExtensions.kt:44-60), while the parser reads the
  `androidx.room` annotations (RoomModelParser.kt:12). In the source a field
  annotated with `androidx.room.Ignore` therefore becomes a column; the
  model takes the field kind as given and does not model this mismatch.
- The schema here compares table, column and index names exactly, while
  SQLite ignores the case of ASCII letters, and it does not parse the
  unquoted GROUP BY columns and dropped index names. The two agree when
  names differ beyond case and unquoted names are plain identifiers, which
  `MigrationRun.CaseSafe` (part of Fits) and `MigrationRun.PlainModelNames`
  (part of WellFormed) require. `Sqlite.IsKeyword` lists all 147 SQLite
  keywords, some of which SQLite would accept as names.
- MigrationRun.RunAddAll: compares column names exactly, so it describes SQLite only for names that differ beyond case.
- MigrationRun.RunDedups: checks the GROUP BY columns by exact name and does not parse them, so it describes SQLite only for plain, case-distinct column names.
- MigrationRun.RunCreateAll: compares index names exactly, so it describes SQLite only for names that differ beyond case.
- MigrationRun.RunDropStale: compares index names exactly and does not parse the unquoted name, so it describes SQLite only for plain, case-distinct names.
- MigrationRun.RunFresh: proved in the exact-name schema; Fits supplies the case conditions under which SQLite agrees.
- MigrationRun.RunAddOnly: proved in the exact-name schema; Fits supplies the case conditions under which SQLite agrees.
- MigrationRun.RunRebuildCase: proved in the exact-name schema; Fits supplies the case conditions under which SQLite agrees.
- MigrationRun.RunCreatePhase: proved in the exact-name schema, for distinct model index names.
- MigrationRun.TablePassState: proved in the exact-name schema; Fits supplies the case conditions under which SQLite agrees.
- MigrationRun.RunTablePass: proved in the exact-name schema; Fits supplies the case conditions under which SQLite agrees.
- MigrationRun.RunIndexPass: proved in the exact-name schema, for distinct model index names.
- MigrationRun.MigrateReachesModel: proved for models that satisfy WellFormed
  and databases that satisfy Fits. WellFormed requires distinct column and
  index names, but the parser can list one index name twice (see
  "## Findings"). Fits requires a consistent catalog, no table of the
  shadow name, no other table using a model index name, and CaseSafe.
  Outside these conditions nothing is promised, and not every violation
  makes SQLite raise:
  - These raise, and `Migrate` returns None: a missing model column that
    cannot be added (NOT NULL without a default); invalid column
    definitions when the table is created or rebuilt; a table of the shadow
    name during a rebuild; an index over a column the table lacks,
    including the CREATE INDEX that runs in place of the ADD COLUMN of a
    missing model column when a model index shares that column's name and
    covers a column that is not live (for example the column itself).
  - These are skipped without error: a model index name that another table
    already uses turns CREATE INDEX IF NOT EXISTS into a no-op, so the
    index is missing afterwards; invalid column definitions, such as two
    PRIMARY KEY columns, are never checked on an existing table that needs
    no rebuild; a model index named like a model column that is missing
    live takes that column's `tableMeta` entry, so the column is never
    added, and when the index's own columns are all live the CREATE INDEX
    that runs instead succeeds.
  - Case and quoting violations of CaseSafe and PlainModelNames act only in
    SQLite. They can drop a table whose name differs only in case (see
    "## Findings"), raise "duplicate column name", or make a statement a
    syntax error.
- MigrationRun.MigrateIdempotent: under the same conditions as
  MigrateReachesModel, including distinct index names; a model that repeats
  one never goes idle (`Migration.DuplicateIndexNeverIdle`). The second run
  is shown in the exact-name schema; that its result again satisfies
  CaseSafe is not proved.

## Findings

| source | as written | input that shows it | evidently intended | confidence | as-written member | corrected member |
|---|---|---|---|---|---|---|
| migrations/src/main/java/android/arch/persistence/room/migrations/MigrationSpec.kt:229-252 | the index names diffed against the live ones are the model's list as is, so a name the model lists twice needs two live indices of that name | `@Index` on column `a` of table `t` and `@ColumnInfo(index = true)` on `a` both give `index_t_a`; with `index_t_a` live, every run deletes duplicate rows again and issues CREATE INDEX | each index name is diffed once, so a table in sync gets no statement | medium; not executed | Migration.DuplicateIndexNeverIdle | Migration.AddIndexesOnceEmpty |
| migrations/src/main/java/android/arch/persistence/room/migrations/MigrationSpec.kt:130-138 | the existence query compares the table name exactly (`name='users'`), while the DROP TABLE IF EXISTS of `createTable` ignores case | a live table `Users` with rows and the model table `users`: the query reads nothing, so `createTable` drops `Users` with its rows and creates an empty `users` | look the table up ignoring case, as SQLite resolves table names | medium; not executed | MigrationRun.ExistsQueryMissesOtherCase | MigrationRun.FoundNoCaseIffDropRemoves |
