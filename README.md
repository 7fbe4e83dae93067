# sqorm table-schema engine in Dafny

This project models the table-schema engine of sqorm, a small Java object-relational mapper.

A `TableSchema` is built from an entity class whose accessors carry `@Column` annotations:

- `parseAnnotations` folds the annotated accessors into one `ColumnSchema` per column name. The columns go into a `TreeMap` keyed by the lower-cased name.
- The constructor derives several lists from that map:
  - the version column;
  - the auto-increment columns;
  - the insert columns: the map with the entries keyed by the auto-increment columns' declared names removed (the same as all columns minus the auto-increment ones only when the names are lower-case);
  - the id columns (`pkOrdinal >= 0`, stably sorted by `pkOrdinal`);
  - the update columns: the map with the entries keyed by the id columns' declared names removed (the same as all columns minus the id ones only when the names are lower-case).
- It registers the primary-key index and renders the insert and update queries through the driver.

At run time:

- `insert`, `update` and `persist` bind a record's values to statement parameters from position 1.
- Both `insert` and `update` demand exactly one affected row.
- `insert` writes the generated keys into the auto-increment columns.
- `persist` bumps the version column and then inserts (version 0) or updates (any other version).

`ColumnSchema` is the immutable column descriptor: a constructor that requires a getter, plus `get`/`set` on a record. `OracleDriver` is one `DbDriver` with constant answers and unsupported catalog operations.

How the Java constructs are modelled:

- **`TreeMap<String, ColumnSchema>`** is a strictly sorted association list (`SortedMaps`). It is ordered by `Strings.Less`, which is `String.compareTo`.
- **The record** is a `Columns.Record` object holding a map from declared column name to value. `get`/`set` read and write that map.
- **The JDBC connection** is a script. It holds the affected-row count and the generated keys the statement will report.
- **Reflective methods** are `Columns.Method` tokens, reduced to an identity and a return type. The entity class is its Table annotation plus its `getMethods()` list (`Tables.EntityClass`).
- **`DbDriver`** is a value with function-valued members, `Drivers.Driver`. The rendering operations, whose code is not part of this model, are given functions. `OracleDriver(rendering)` fixes the rest.
- **Java `int`** is `Jdbc.int32`. `version + 1` wraps around (`Jdbc.Inc32`).
- **Every exception** is a constructor of `Errors.Error`. Each operation returns a `Result`/`Outcome` instead of throwing.
- **`IndexSchema.matches`**, whose code is not part of this model, is taken to be equality of the ordered column lists.
- **HashMap iteration order** in the second loop of `parseAnnotations` is taken to be the order in which names were first annotated.

## Model

| member | source | states |
|---|---|---|
| Drivers.OracleDriver | sqorm-lib/src/main/java/net/squarelabs/sqorm/driver/OracleDriver.java:9-43 | name is "oracle"; start and end quotes are both `"`; mars is true; getTableNames and dropTables fail with NotImplemented for every connection |
| Columns.NewColumn | sqorm-lib/src/main/java/net/squarelabs/sqorm/schema/ColumnSchema.java:17-29 | construction fails exactly when the getter is missing, with NoGetter naming the column; otherwise name, getter, setter, pkOrdinal, isVersion and autoIncrement are the arguments and the type is the getter's return type |
| Columns.Read | sqorm-lib/src/main/java/net/squarelabs/sqorm/schema/ColumnSchema.java:51-57 | get yields the record's value for the column, or fails with GetFailed, whose message names no column |
| Columns.Write | sqorm-lib/src/main/java/net/squarelabs/sqorm/schema/ColumnSchema.java:58-64 | set fails exactly when there is no setter, with SetFailed naming the value and column; otherwise the column holds the value and all other columns are unchanged |
| Columns.ReadAfterWrite | sqorm-lib/src/main/java/net/squarelabs/sqorm/schema/ColumnSchema.java:51-64 | with a setter, get after set yields the value set |
| Columns.Set | sqorm-lib/src/main/java/net/squarelabs/sqorm/schema/ColumnSchema.java:58-64 | set on the record object: the record's new state is Write's, or unchanged on failure |
| Jdbc.Inc32 | sqorm-lib/src/main/java/net/squarelabs/sqorm/schema/TableSchema.java:135 | `version + 1` as a Java int: congruent to v + 1 modulo 2^32, and exactly v + 1 below Integer.MAX_VALUE |
| Strings.Lower | sqorm-lib/src/main/java/net/squarelabs/sqorm/schema/TableSchema.java:82 | `toLowerCase`: same length, and each character is the input's character lower-cased (ASCII letters folded, everything else kept) |
| Strings.LowerIsLower | sqorm-lib/src/main/java/net/squarelabs/sqorm/schema/TableSchema.java:82 | a lower-cased name is lower-case |
| Strings.LowerOfLower | sqorm-lib/src/main/java/net/squarelabs/sqorm/schema/TableSchema.java:82 | lower-casing a lower-case name changes nothing |
| Strings.LowerEqual | sqorm-lib/src/main/java/net/squarelabs/sqorm/schema/TableSchema.java:82 | two names lower-case to the same key exactly when they have the same length and agree character by character up to ASCII case |
| Strings.LessIrreflexive | sqorm-lib/src/main/java/net/squarelabs/sqorm/schema/TableSchema.java:256 | the TreeMap key order never puts a key before itself |
| Strings.LessTransitive | sqorm-lib/src/main/java/net/squarelabs/sqorm/schema/TableSchema.java:256 | the TreeMap key order is transitive |
| Strings.LessTotal | sqorm-lib/src/main/java/net/squarelabs/sqorm/schema/TableSchema.java:256 | any two distinct keys are ordered one way or the other |
| SortedMaps.Get | sqorm-lib/src/main/java/net/squarelabs/sqorm/schema/TableSchema.java:82 | TreeMap.get: absent exactly when no entry has the key; otherwise the value of an entry with that key |
| SortedMaps.GetEntry | sqorm-lib/src/main/java/net/squarelabs/sqorm/schema/TableSchema.java:82 | in a sorted map, looking up an entry's key yields that entry's value |
| SortedMaps.Put | sqorm-lib/src/main/java/net/squarelabs/sqorm/schema/TableSchema.java:260 | TreeMap.put keeps keys sorted, holds the new entry, keeps every entry with another key and adds nothing else |
| SortedMaps.PutGet | sqorm-lib/src/main/java/net/squarelabs/sqorm/schema/TableSchema.java:260 | after put, get answers the new value for that key and the old answer for every other key |
| SortedMaps.WithoutKeys | sqorm-lib/src/main/java/net/squarelabs/sqorm/schema/TableSchema.java:182-183 | a copy of the map minus the given keys: exactly the entries whose key is not removed |
| SortedMaps.WithoutKeysSorted | sqorm-lib/src/main/java/net/squarelabs/sqorm/schema/TableSchema.java:182-183 | removing keys keeps the map sorted |
| SortedMaps.WithoutNoKeys | sqorm-lib/src/main/java/net/squarelabs/sqorm/schema/TableSchema.java:182 | the copy before any removal is the map itself |
| SortedMaps.WithoutKeysAdd | sqorm-lib/src/main/java/net/squarelabs/sqorm/schema/TableSchema.java:183 | removing one more key after a set of keys equals removing the enlarged set |
| SortedMaps.WithoutKeysGet | sqorm-lib/src/main/java/net/squarelabs/sqorm/schema/TableSchema.java:182-183 | get on the reduced map answers nothing for a removed key and the original answer otherwise |
| Partitions.KeyColumns | sqorm-lib/src/main/java/net/squarelabs/sqorm/schema/TableSchema.java:202-203 | keeps exactly the columns with pkOrdinal >= 0 |
| Partitions.AutoIncrementOnly | sqorm-lib/src/main/java/net/squarelabs/sqorm/schema/TableSchema.java:195-196 | keeps exactly the auto-increment columns |
| Partitions.InsertByPk | sqorm-lib/src/main/java/net/squarelabs/sqorm/schema/TableSchema.java:197 | one step of the stable sort: the result is the input plus the new column, as a multiset |
| Partitions.InsertByPkBounded | sqorm-lib/src/main/java/net/squarelabs/sqorm/schema/TableSchema.java:197 | an insertion step never lifts a pkOrdinal above a bound that the list and the new column respect |
| Partitions.InsertByPkSorted | sqorm-lib/src/main/java/net/squarelabs/sqorm/schema/TableSchema.java:197 | inserting into a pkOrdinal-sorted list keeps it sorted |
| Partitions.InsertByPkStable | sqorm-lib/src/main/java/net/squarelabs/sqorm/schema/TableSchema.java:197 | inserting keeps columns of equal pkOrdinal in arrival order |
| Partitions.StableStep | sqorm-lib/src/main/java/net/squarelabs/sqorm/schema/TableSchema.java:197 | moving the new column past a last column of different pkOrdinal leaves every pkOrdinal's subsequence as appending would |
| Partitions.SortByPk | sqorm-lib/src/main/java/net/squarelabs/sqorm/schema/TableSchema.java:194-206 | `List.sort` by pkOrdinal: sorted ascending, a permutation, and stable (columns with equal pkOrdinal keep their order) |
| Partitions.FindPk | sqorm-lib/src/main/java/net/squarelabs/sqorm/schema/TableSchema.java:208-222 | findPk builds exactly the list findIdCols builds |
| Partitions.FindVersionCol | sqorm-lib/src/main/java/net/squarelabs/sqorm/schema/TableSchema.java:224-231 | the first isVersion column in key order, or none when no column is a version column |
| Partitions.RemoveByName | sqorm-lib/src/main/java/net/squarelabs/sqorm/schema/TableSchema.java:180-192 | findInsertCols / findUpdateCols: the map with the keys equal to the given columns' declared names removed |
| PartitionProperties.WithPkKeyColumns | sqorm-lib/src/main/java/net/squarelabs/sqorm/schema/TableSchema.java:201-204 | filtering to pkOrdinal >= 0 keeps, for each such ordinal, the same columns in the same order |
| PartitionProperties.IdColumnsByPk | sqorm-lib/src/main/java/net/squarelabs/sqorm/schema/TableSchema.java:201-206 | idColumns are exactly the columns with pkOrdinal >= 0, ascending by pkOrdinal, with ties in key order |
| PartitionProperties.IdMembers | sqorm-lib/src/main/java/net/squarelabs/sqorm/schema/TableSchema.java:201-206 | a column is an id column exactly when it is in the map with pkOrdinal >= 0 |
| PartitionProperties.AutoIncrementOnlySnoc | sqorm-lib/src/main/java/net/squarelabs/sqorm/schema/TableSchema.java:195-196 | filtering one more column appends it exactly when it is auto-increment |
| PartitionProperties.WithPkAutoIncrementOnly | sqorm-lib/src/main/java/net/squarelabs/sqorm/schema/TableSchema.java:194-199 | filtering to the auto-increment columns and picking out one pkOrdinal commute |
| PartitionProperties.AutoIncrementColumnsByPk | sqorm-lib/src/main/java/net/squarelabs/sqorm/schema/TableSchema.java:194-199 | autoIncrementColumns are exactly the flagged columns, ascending by pkOrdinal, and for every pkOrdinal the flagged columns carrying it appear in key order |
| PartitionProperties.AutoIncrementMembers | sqorm-lib/src/main/java/net/squarelabs/sqorm/schema/TableSchema.java:194-199 | a column is auto-increment-listed exactly when it is in the map and flagged |
| PartitionProperties.RemovedByName | sqorm-lib/src/main/java/net/squarelabs/sqorm/schema/TableSchema.java:180-192 | insert and update column maps stay sorted; they answer nothing for a removed name and the full map's answer for every other key |
| PartitionProperties.RemoveByNameWhenLowerCase | sqorm-lib/src/main/java/net/squarelabs/sqorm/schema/TableSchema.java:180-192 | with lower-case declared names, removal by name removes exactly the given columns' entries |
| PartitionProperties.ValueOfEntry | sqorm-lib/src/main/java/net/squarelabs/sqorm/schema/TableSchema.java:195 | every entry's value is among `columns.values()` |
| PartitionProperties.InsertColumnsWhenLowerCase | sqorm-lib/src/main/java/net/squarelabs/sqorm/schema/TableSchema.java:187-192 | with lower-case names, insertColumns are exactly the entries whose column is not auto-increment |
| PartitionProperties.UpdateColumnsWhenLowerCase | sqorm-lib/src/main/java/net/squarelabs/sqorm/schema/TableSchema.java:180-185 | with lower-case names, updateColumns are exactly the entries whose column has pkOrdinal < 0 |
| PartitionProperties.MixedCaseAutoIncrementStaysInserted | sqorm-lib/src/main/java/net/squarelabs/sqorm/schema/TableSchema.java:187-192 | an auto-increment column declared "Id" is keyed "id", so removing it by declared name leaves it among the insert columns |
| PartitionProperties.VersionColumnUnique | sqorm-lib/src/main/java/net/squarelabs/sqorm/schema/TableSchema.java:250-260 | when every isVersion column carries one name, at most one entry of the keyed map is a version column |
| Annotations.GetAc | sqorm-lib/src/main/java/net/squarelabs/sqorm/schema/TableSchema.java:328-335 | the cache held for the name, or a new empty cache with that name |
| Annotations.Step | sqorm-lib/src/main/java/net/squarelabs/sqorm/schema/TableSchema.java:237-253 | one iteration of the collection loop keeps the cache map coherent (each cache under its own name, each name listed once, the version name cached) |
| Annotations.Collect | sqorm-lib/src/main/java/net/squarelabs/sqorm/schema/TableSchema.java:235-253 | the collection loop over all methods yields a coherent cache map |
| Annotations.Translate | sqorm-lib/src/main/java/net/squarelabs/sqorm/schema/TableSchema.java:256-262 | the translation loop yields a sorted map keyed by lower-cased names; it fails exactly when a visited cache has no getter, with NoGetter naming it; every column is built from its name's cache |
| Annotations.ParseAnnotations | sqorm-lib/src/main/java/net/squarelabs/sqorm/schema/TableSchema.java:233-263 | parseAnnotations yields the collection loop followed by the translation loop |
| Annotations.CollectAccessors | sqorm-lib/src/main/java/net/squarelabs/sqorm/schema/TableSchema.java:235-253 | the imperative collection loop computes the collected caches |
| Annotations.TranslateToColumns | sqorm-lib/src/main/java/net/squarelabs/sqorm/schema/TableSchema.java:256-262 | the imperative translation loop computes the translated column map |
| Annotations.PutWellKeyed | sqorm-lib/src/main/java/net/squarelabs/sqorm/schema/TableSchema.java:260 | putting a column under its lower-cased name keeps every key equal to its column's lower-cased name |
| Annotations.TranslateStep | sqorm-lib/src/main/java/net/squarelabs/sqorm/schema/TableSchema.java:257-261 | one translation step fails with the column's error or puts the column under its lower-cased name |
| AnnotationProperties.AnnotatedNames | sqorm-lib/src/main/java/net/squarelabs/sqorm/schema/TableSchema.java:237-242 | a cache exists for exactly the names some accessor is annotated with |
| AnnotationProperties.LastAnnotationWins | sqorm-lib/src/main/java/net/squarelabs/sqorm/schema/TableSchema.java:248-249 | pkOrdinal and autoIncrement come from the last annotation naming the column |
| AnnotationProperties.AccessorIsLast | sqorm-lib/src/main/java/net/squarelabs/sqorm/schema/TableSchema.java:243-247 | the setter is the last void accessor, and the getter the last non-void accessor, annotated with the name |
| AnnotationProperties.AccessorAbsent | sqorm-lib/src/main/java/net/squarelabs/sqorm/schema/TableSchema.java:243-247 | a column has no getter (setter) exactly when no non-void (void) accessor carries its name |
| AnnotationProperties.VersionIsLast | sqorm-lib/src/main/java/net/squarelabs/sqorm/schema/TableSchema.java:250-252 | the version name is the name on the last isVersion annotation |
| AnnotationProperties.NoVersion | sqorm-lib/src/main/java/net/squarelabs/sqorm/schema/TableSchema.java:236-252 | there is no version name exactly when no annotation is flagged isVersion |
| AnnotationProperties.TranslateKeepsKeys | sqorm-lib/src/main/java/net/squarelabs/sqorm/schema/TableSchema.java:257-261 | every visited name gets a column under its lower-cased key and no earlier key is lost |
| AnnotationProperties.ParseFailsWithoutGetter | sqorm-lib/src/main/java/net/squarelabs/sqorm/schema/TableSchema.java:233-263 | parsing fails exactly when some annotated name has no non-void accessor, and then with NoGetter naming such a name |
| AnnotationProperties.ParseFindsEveryName | sqorm-lib/src/main/java/net/squarelabs/sqorm/schema/TableSchema.java:256-262 | a parsed map is sorted and keyed by lower-cased names, and every annotated name is found under its lower-cased key |
| AnnotationProperties.ParseColumnsFromCaches | sqorm-lib/src/main/java/net/squarelabs/sqorm/schema/TableSchema.java:250-259 | every parsed column is built from its name's cache; only the column named after the version name is flagged isVersion, so at most one column is |
| Tables.FirstMatch | sqorm-lib/src/main/java/net/squarelabs/sqorm/schema/TableSchema.java:111-118 | the position of the first matching index, or none exactly when no index matches |
| Tables.BindInOrder | sqorm-lib/src/main/java/net/squarelabs/sqorm/schema/TableSchema.java:282-309 | binding succeeds exactly when every column can be bound; the i-th column is bound at start + i with its coerced value; otherwise the error of the first column that cannot be bound |
| Tables.BindConcat | sqorm-lib/src/main/java/net/squarelabs/sqorm/schema/TableSchema.java:289-297 | binding two lists one after the other binds the second from where the first ended, and fails with the first failure of the two |
| Tables.BindAppend | sqorm-lib/src/main/java/net/squarelabs/sqorm/schema/TableSchema.java:289-297 | binding a + b puts a's columns at start.. and b's right after them, each with its coerced value |
| Tables.BindSnoc | sqorm-lib/src/main/java/net/squarelabs/sqorm/schema/TableSchema.java:299-304 | setParm appends one binding at the next position |
| Tables.BindStops | sqorm-lib/src/main/java/net/squarelabs/sqorm/schema/TableSchema.java:299-309 | the first column that cannot be bound ends the binding with its error, whatever follows |
| Tables.AssignKeys | sqorm-lib/src/main/java/net/squarelabs/sqorm/schema/TableSchema.java:163-172 | the key loop ends normally exactly when there are no more keys than columns and each column that receives a key has a setter; otherwise it stops at the first step that fails, with TooManyKeys when the keys outlast the columns or SetFailed naming the key and the column without a setter |
| Tables.TableSchema.DeriveColumns | sqorm-lib/src/main/java/net/squarelabs/sqorm/schema/TableSchema.java:55-62 | computes the first version column, the sorted auto-increment and id columns, and the insert and update maps with the entries keyed by those columns' declared names removed (the same as without those columns only when the names are lower-case) |
| Tables.TableSchema.constructor | sqorm-lib/src/main/java/net/squarelabs/sqorm/schema/TableSchema.java:42-67 | derives the version, auto-increment, insert, id and update columns, the primary-key index (the only registered index) and both queries |
| Tables.TableSchema.Create | sqorm-lib/src/main/java/net/squarelabs/sqorm/schema/TableSchema.java:42-53 | fails with NotATable without a Table annotation, with parseAnnotations' error when parsing fails; succeeds exactly when the annotation is present and parsing succeeds, and then yields a fresh valid table over the parsed columns whose only index is the primary key and which has no relations |
| Tables.TableSchema.GetColumn | sqorm-lib/src/main/java/net/squarelabs/sqorm/schema/TableSchema.java:81-83 | getColumn finds the entry stored under the lower-cased name, and nothing exactly when no entry has that key |
| Tables.TableSchema.GetColumns | sqorm-lib/src/main/java/net/squarelabs/sqorm/schema/TableSchema.java:85-95 | succeeds exactly when every name finds a column, and then yields the columns in request order; otherwise ColumnNotFound names the table and the first name without a column |
| Tables.TableSchema.GetIndex | sqorm-lib/src/main/java/net/squarelabs/sqorm/schema/TableSchema.java:111-118 | the first registered index that matches, or null exactly when none does |
| Tables.TableSchema.EnsureIndex | sqorm-lib/src/main/java/net/squarelabs/sqorm/schema/TableSchema.java:101-109 | returns the matching registered index with the registry unchanged, or appends and returns one new index over the columns |
| Tables.TableSchema.AddChildRelation | sqorm-lib/src/main/java/net/squarelabs/sqorm/schema/TableSchema.java:269-272 | appends the relation's primary index to the indices and the relation to the child relations |
| Tables.TableSchema.AddParentRelation | sqorm-lib/src/main/java/net/squarelabs/sqorm/schema/TableSchema.java:278-280 | appends the relation to the parent relations only |
| Tables.TableSchema.PrepareInsertParms | sqorm-lib/src/main/java/net/squarelabs/sqorm/schema/TableSchema.java:282-287 | binds the insert columns in key order from position 1 |
| Tables.TableSchema.PrepareUpdateParms | sqorm-lib/src/main/java/net/squarelabs/sqorm/schema/TableSchema.java:289-297 | binds the update columns in key order, then the id columns, from position 1 |
| Tables.TableSchema.GetFriendlyError | sqorm-lib/src/main/java/net/squarelabs/sqorm/schema/TableSchema.java:311-326 | re-binds on the current record; reports table, driver, query, parameters and cause, or only the re-binding failure |
| Tables.TableSchema.GetVersion | sqorm-lib/src/main/java/net/squarelabs/sqorm/schema/TableSchema.java:120-123 | getVersion succeeds exactly when there is a version column and the record holds an int under its name, and then yields that int |
| Tables.TableSchema.SetVersion | sqorm-lib/src/main/java/net/squarelabs/sqorm/schema/TableSchema.java:125-127 | writes the version column, or fails leaving the record unchanged |
| Tables.TableSchema.Insert | sqorm-lib/src/main/java/net/squarelabs/sqorm/schema/TableSchema.java:153-178 | the record's new state, the outcome and the executed statement are those of InsertEffect |
| Tables.TableSchema.Update | sqorm-lib/src/main/java/net/squarelabs/sqorm/schema/TableSchema.java:140-151 | the record's new state, the outcome and the executed statement are those of UpdateEffect |
| Tables.TableSchema.Persist | sqorm-lib/src/main/java/net/squarelabs/sqorm/schema/TableSchema.java:129-138 | the record's new state, the outcome and the executed statement are those of PersistEffect |
| TableProperties.NotNamedSlice | sqorm-lib/src/main/java/net/squarelabs/sqorm/schema/TableSchema.java:170 | a slice of columns none of whose names is n is not named n |
| TableProperties.GetColumnIgnoresCase | sqorm-lib/src/main/java/net/squarelabs/sqorm/schema/TableSchema.java:81-83 | in a map keyed by lower-cased names, a name finds the same column as its lower-cased form; a found column's name lower-cases to the request's; nothing is found exactly when no column's name does |
| TableProperties.GetColumnSameUpToCase | sqorm-lib/src/main/java/net/squarelabs/sqorm/schema/TableSchema.java:81-83 | two names that agree up to ASCII case find the same column |
| TableProperties.EnsuredIndexIsFound | sqorm-lib/src/main/java/net/squarelabs/sqorm/schema/TableSchema.java:101-118 | after ensureIndex appends an index, the next lookup finds that index |
| TableProperties.FoundIndexStays | sqorm-lib/src/main/java/net/squarelabs/sqorm/schema/TableSchema.java:101-118 | appending indices never changes the index a successful lookup finds, so ensureIndex is idempotent |
| TableProperties.AssignKeysInOrder | sqorm-lib/src/main/java/net/squarelabs/sqorm/schema/TableSchema.java:163-172 | with no more keys than columns, key i goes into column i, the loop ends normally and all other columns are untouched |
| TableProperties.SurplusKeysFail | sqorm-lib/src/main/java/net/squarelabs/sqorm/schema/TableSchema.java:165-170 | with more keys than columns the loop fails with TooManyKeys after filling every column |
| TableProperties.AssignKeysFrame | sqorm-lib/src/main/java/net/squarelabs/sqorm/schema/TableSchema.java:170 | the key loop changes no column outside the auto-increment columns, even when it fails |
| TableProperties.InsertBindFailure | sqorm-lib/src/main/java/net/squarelabs/sqorm/schema/TableSchema.java:153-178 | an insert whose parameters cannot be bound executes nothing, leaves the record, and fails with the re-binding error |
| TableProperties.InsertBindsInsertColumns | sqorm-lib/src/main/java/net/squarelabs/sqorm/schema/TableSchema.java:282-287 | the insert query is executed exactly when binding succeeds, with the insert columns at positions 1..n in key order |
| TableProperties.InsertNeedsOneRow | sqorm-lib/src/main/java/net/squarelabs/sqorm/schema/TableSchema.java:153-178 | an insert not affecting exactly one row fails with table, driver, query, parameters and InsertFailed, leaving the record |
| TableProperties.InsertIgnoresKeysWithoutAutoIncrement | sqorm-lib/src/main/java/net/squarelabs/sqorm/schema/TableSchema.java:161-162 | without auto-increment columns a one-row insert succeeds and ignores generated keys |
| TableProperties.InsertAssignsKeysInOrder | sqorm-lib/src/main/java/net/squarelabs/sqorm/schema/TableSchema.java:161-173 | a one-row insert with at most as many keys as auto-increment columns succeeds, writes key i into column i, and leaves every other column as it was, including the auto-increment columns past the last key |
| TableProperties.InsertSurplusKeysFail | sqorm-lib/src/main/java/net/squarelabs/sqorm/schema/TableSchema.java:163-178 | a surplus generated key fails the insert with TooManyKeys after every auto-increment column has been written |
| TableProperties.UpdateLeavesRecord | sqorm-lib/src/main/java/net/squarelabs/sqorm/schema/TableSchema.java:140-151 | update never changes the record |
| TableProperties.UpdateExecutesUpdateQuery | sqorm-lib/src/main/java/net/squarelabs/sqorm/schema/TableSchema.java:140-151 | an update executes the update query with the bound parameters exactly when binding succeeds |
| TableProperties.UpdateBindsUpdateThenIdColumns | sqorm-lib/src/main/java/net/squarelabs/sqorm/schema/TableSchema.java:289-297 | the update parameters are the update columns at 1..n in key order, then the id columns at n+1.. in pkOrdinal order, each with its coerced value |
| TableProperties.UpdateNeedsOneRow | sqorm-lib/src/main/java/net/squarelabs/sqorm/schema/TableSchema.java:143-149 | an update not affecting exactly one row fails with table, driver, query, parameters and UpdateFailed |
| TableProperties.UpdatePassesOnOneRow | sqorm-lib/src/main/java/net/squarelabs/sqorm/schema/TableSchema.java:140-151 | an update passes exactly when its parameters bind and it affects exactly one row |
| TableProperties.ZeroRowUpdateLooksLikeAnyOther | sqorm-lib/src/main/java/net/squarelabs/sqorm/schema/TableSchema.java:143-149 | an update matching no row is reported exactly like one matching several |
| TableProperties.PersistVersionZeroInserts | sqorm-lib/src/main/java/net/squarelabs/sqorm/schema/TableSchema.java:129-134 | version 0 is set to 1, then the record is inserted |
| TableProperties.PersistOtherVersionUpdates | sqorm-lib/src/main/java/net/squarelabs/sqorm/schema/TableSchema.java:129-137 | any other version v is set to v + 1 (Java int), then the record is updated |
| TableProperties.PersistNeedsVersion | sqorm-lib/src/main/java/net/squarelabs/sqorm/schema/TableSchema.java:120-131 | without a version column, an unreadable version or a non-int version, persist fails before touching the record or the connection |
| TableProperties.PersistVersionUnwritable | sqorm-lib/src/main/java/net/squarelabs/sqorm/schema/TableSchema.java:129-137 | with a readable version but no setter on the version column, persist fails with SetFailed for the bumped value, leaving the record and running no statement |
| TableProperties.PersistBumpSticks | sqorm-lib/src/main/java/net/squarelabs/sqorm/schema/TableSchema.java:129-138 | the version bump precedes the statement: the record keeps the new version whether the statement succeeds or fails, provided no auto-increment column shares the version column's name |

## Left out

- JDBC execution (`Connection`, `PreparedStatement`, `ResultSet`, try-with-resources) is a script of an affected-row count and generated keys. Failures of `prepareStatement`, `setObject`, `executeUpdate` or `getGeneratedKeys` themselves are not modelled.
- Java reflection (`getAnnotation`, `getMethods`, `Method.invoke`) is an input list of annotated accessors plus a map-based record. Argument-type errors of `invoke` are not modelled: a write with a setter always succeeds.
- The JSON dump of the parameters in `getFriendlyError` (Jackson) and the message text are not modelled. The error carries the table, the driver name, the query, the parameters and the cause as data.
- `MockStatement` is taken to accept every parameter, so re-binding in `getFriendlyError` fails only where the first binding would.
- `DbDriver.writeInsertQuery`, `writeUpdateQuery` and `javaToSql` are given functions: their code is not part of this model.
- `IndexSchema` and `RelationSchema` are not part of this model beyond `matches` (taken as list equality) and `getPrimaryIndex`.
- The read-only accessors (`getName`, `getPrimaryKey`, `getType`, `getIndices`, `getChildRelations`, `getParentRelations`, and ColumnSchema's getters) are the fields themselves. `tableName`, `primaryKey` and the column data are `const` or datatype fields. `indices`, `childRelations` and `parentRelations` are `var` fields that only `EnsureIndex`, `AddChildRelation` and `AddParentRelation` change. The unmodifiable list wrappers are not modelled: a reader of these fields gets a sequence value, which cannot alias the registry.
- Tables.TableSchema.constructor: it registers the primary-key index directly rather than through `ensureIndex`. On a new table, with no indices yet, `ensureIndex` does exactly that.
- Strings.Lower: only ASCII letters are lower-cased. Java's locale-sensitive Unicode `toLowerCase` is not modelled.
- Strings.Less: compares characters as Unicode scalar values. Java's `compareTo` compares UTF-16 code units, which differs only for characters outside the Basic Multilingual Plane.
- Partitions.SortByPk: compares pkOrdinal exactly. Java's comparator `a - b` overflows when two auto-increment columns have pkOrdinal values more than 2^31 apart, and that misordering is not reproduced.
- HashMap iteration order in `parseAnnotations` is taken to be first-annotation order. When two annotated names differ only in case, which cache wins the shared TreeMap key depends on that order.
- Tables.BindInOrder: positions are unbounded integers, so `idx++` past Integer.MAX_VALUE is not modelled.
- TableProperties.InsertAssignsKeysInOrder: requires the auto-increment columns to have setters and pairwise distinct names rather than deriving the latter from the column map.
- TableProperties.InsertSurplusKeysFail: requires the same setters and distinct names.
- TableProperties.PersistBumpSticks: requires that no auto-increment column carries the version column's name. Such a column would overwrite the bumped version with a generated key.
- src/test/java/net/squarelabs/model/Customer.java (the sample entity) is not part of this model as a worked example.
- src/test/java/net/squarelabs/sqorm/GeneratorTest.java needs a live database and exercises code that is not part of this model.
- Concurrency: nothing in these files is concurrent.
