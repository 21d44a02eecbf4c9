# META persistence core in Dafny

This project models two parts of the META persistence framework:

- `ReflectivePersistenceManager`, the runtime object-relational mapper. It loads entity instances by key (`get`) and by table (`getAll`). It saves them, with an INSERT when the `id` field is 0 and an UPDATE otherwise. It deletes them by key. It also has the helpers that derive CREATE TABLE text from a class.
- `Processor`, the annotation processor. For every class annotated with `@Table` it builds a CREATE TABLE statement from the members annotated with `@Column`.

Reflection becomes explicit class descriptors. A `ClassDesc` holds a field list of names and `Kind`s in declaration order, and a `Registry` maps simple names to descriptors. An entity instance is a `class Entity` whose `fields` map the methods update in place. References to other instances are `Ref(obj)` values, so aliasing between instances is kept.

The JDBC connection is a `Connection` class with a map of tables. `Backend` defines what SELECT, INSERT (AUTOINCREMENT keys), UPDATE and DELETE do to it. Every manager method is proved against a specification function in `Mapping`:

- `Load` for `get`, `LoadAll` for `getAll`, `SaveSpec` for `save` and `DeleteSpec` for `delete`.
- What a method returns, and what it leaves in the store and in the instance, is what that function computes from the state before the call.

The lemmas in `LoadFacts` and `SaveFacts` then prove what the framework promises:

- a saved entity whose fields are int, long, double, String or entity fields loads back with the same field values, and each of its references as the instance the stored key then loads (boolean and float fields never load back, see below);
- `getAll` gives what `get` gives for each row;
- a deleted entity no longer loads;
- every operation keeps the store well formed (distinct positive keys no larger than the counter, every row with the table's columns).

The processor is modelled on records that stand for the compiler's elements. `Processor.Process` is proved to produce `Query(c)` for each class, and lemmas state the shape of that text.

### Behaviour modelled as the code has it

- **Table name.** At run time the table name is always the quoted simple class name. The `@Table` name is ignored (`Mapping.TableOf`). The processor, by contrast, uses the `@Table` name when it is not empty, and writes it unquoted (`Processor.GetTableName`). `TableNames.TableNamesAgree` shows that the runtime name is the processor's name between quotes exactly when the `@Table` name is empty or equals the simple name.
- **Collections.** `isReferenceField` (ReflectivePersistenceManager.java:428-431) does not exclude Collections, but the populate loop (line 217) and the DDL helpers do (`Metadata.IsEntityField`). As a result `save` treats a Collection field as a reference and asks it for an `id`, which it does not have, so the entity cannot be saved.
- **Null references.** A reference field holding null makes `save` fail. `getEntityId(null)` throws, and the exception is wrapped (`SaveFacts.NullReferenceFailsSave`). The test `saveNewPersonWithoutDepartment` (example/src/test/java/sk/tuke/meta/example/ReflectiveManagerTests.java:202-208) expects such a save to succeed. The model follows the code, and also gives the behaviour the test expects (`Mapping.SaveIntended`, `SaveFacts.NullReferenceSavesNull`); see "## Findings".
- **Boolean fields.** A boolean field whose column holds a value makes `get` fail. The driver returns an Integer for it, and `field.set` does not convert that to `boolean` (`LoadFacts.BooleanColumnBreaksLoad`).
- **Float fields.** A float field is bound as REAL, and the driver returns a REAL column as a Double. `field.set` does not narrow a Double into a `float` (`Mapping.Assign`), so `get` of a saved entity with a float field fails (`LoadFacts.FloatColumnBreaksLoad`). Only an integer-valued column loads into a float field.
- **No cycle guard.** `get` has none at all, so a cycle of references recurses until the stack overflows. The model bounds the recursion with `fuel`; running out of fuel is an error. `LoadFacts.LoadFuel` shows that more fuel never changes a result that succeeded.
- **Unused DDL helpers.** `getFieldDefinitions`, `getForeignKeyConstraints` and `buildCreateTableSQL` are modelled on their own in `Ddl`, because their only call site in `createTables` is commented out.
- **`long` mapping.** The processor maps `long` to TEXT, while the runtime helper maps it to INTEGER (`Processor.TypeMappingsDiffer`). The processor also types entity references as TEXT.
- **`@Column` name.** The processor names each column by the member's simple name and never uses the `@Column` name (`Processor.ColumnNameIgnored`).
- **Closing a statement.** The processor removes the last two characters when `lastIndexOf(", ") > 0`. With columns this removes exactly the trailing separator (`Processor.QueryWithColumns`). A class without columns whose table name holds `", "` instead loses its opening parenthesis (`Processor.CommaInTableName`).

## Model

| member | source | states |
|---|---|---|
| Metadata.IsReferenceField | persistence/src/main/java/sk/tuke/meta/persistence/ReflectivePersistenceManager.java:428-431 | a field is a reference exactly when it is an entity field or a Collection; entity fields are always references |
| Metadata.FieldKind | persistence/src/main/java/sk/tuke/meta/persistence/ReflectivePersistenceManager.java:173 | `getDeclaredField` finds nothing exactly when no declared field has the name, and otherwise finds a declared field of that name |
| Metadata.FieldKindAt | persistence/src/main/java/sk/tuke/meta/persistence/ReflectivePersistenceManager.java:173 | with distinct field names, `getDeclaredField` of a declared field's name finds that field and its kind |
| Metadata.DefaultFields | persistence/src/main/java/sk/tuke/meta/persistence/ReflectivePersistenceManager.java:86 | a fresh instance has exactly the declared fields, each holding its kind's default value (0, 0.0, false or null) |
| Backend.SelectById | persistence/src/main/java/sk/tuke/meta/persistence/ReflectivePersistenceManager.java:81-85 | the query fails exactly when the table is missing; no row means no row has the key; a row returned is a stored row with the key |
| Backend.SelectAll | persistence/src/main/java/sk/tuke/meta/persistence/ReflectivePersistenceManager.java:108-111 | definition of the stand-in store: the stored rows in order, or an error exactly when the table is missing; in a well-formed table each row returned is what the keyed SELECT of its key finds |
| Backend.KeysFindRows | persistence/src/main/java/sk/tuke/meta/persistence/ReflectivePersistenceManager.java:81-85 | in a well-formed table every row's key is an integer, and the first row with that key is the row itself |
| Backend.Insert | persistence/src/main/java/sk/tuke/meta/persistence/ReflectivePersistenceManager.java:361-371 | definition of the stand-in store: an INSERT fails exactly on a missing table, an empty column list, an unknown or `id` column, or a parameter count mismatch; otherwise it appends one row keyed counter+1 and leaves other tables alone; in a well-formed table no old row has the new key, and the keyed SELECT of it finds the new row |
| Backend.NewRow | persistence/src/main/java/sk/tuke/meta/persistence/ReflectivePersistenceManager.java:361-365 | the new row has the table's columns, the fresh key, the bound value in every listed column and NULL in every other one |
| Backend.AppendFound | persistence/src/main/java/sk/tuke/meta/persistence/ReflectivePersistenceManager.java:361-371 | in a well-formed table no row has key counter+1, so after appending a row with that key the first row found for it is the appended one |
| Backend.Update | persistence/src/main/java/sk/tuke/meta/persistence/ReflectivePersistenceManager.java:442-446 | definition of the stand-in store: an UPDATE fails exactly on a missing table, an empty column list, an unknown or `id` column, or a parameter count mismatch; otherwise it keeps the other tables, the row count, every row's key, and adds to a row's columns only the listed ones, and only when the row has the key |
| Backend.UpdateRows | persistence/src/main/java/sk/tuke/meta/persistence/ReflectivePersistenceManager.java:345 | definition of the stand-in store: the row count stays; a row with the key gets the new values and every other row is unchanged; without `id` among the new columns every row keeps its key, and a row's column set grows only by the new columns |
| Backend.Delete | persistence/src/main/java/sk/tuke/meta/persistence/ReflectivePersistenceManager.java:178-181 | a DELETE keeps exactly the rows without the key; a count above 0 means such a row existed, and a count of 0 means nothing changed |
| Backend.WithoutIdMembers | persistence/src/main/java/sk/tuke/meta/persistence/ReflectivePersistenceManager.java:178-181 | the rows left after a delete are exactly the old rows without the key |
| Backend.WithoutIdShrinks | persistence/src/main/java/sk/tuke/meta/persistence/ReflectivePersistenceManager.java:181-185 | deleting an existing key removes at least one row, which is why the affected count is then positive |
| Backend.Connection.QueryById | persistence/src/main/java/sk/tuke/meta/persistence/ReflectivePersistenceManager.java:82-84 | run on the text `SelectByIdSql` gives, the prepared SELECT by key returns what `SelectById` specifies: an error exactly for a missing table, a stored row with the key, or nothing when, in a well-formed store, no row has it |
| Backend.Connection.QueryAll | persistence/src/main/java/sk/tuke/meta/persistence/ReflectivePersistenceManager.java:109-110 | run on the text `SelectAllSql` gives, the SELECT of a whole table returns what `SelectAll` specifies: an error exactly for a missing table; in a well-formed store every row returned is stored and is what the keyed SELECT of its key finds |
| Backend.Connection.ExecuteInsert | persistence/src/main/java/sk/tuke/meta/persistence/ReflectivePersistenceManager.java:361-371 | run on the text `InsertSql` gives, the store becomes what `Insert` gives, or stays unchanged on failure, and stays well formed |
| Backend.Connection.ExecuteUpdate | persistence/src/main/java/sk/tuke/meta/persistence/ReflectivePersistenceManager.java:442-446 | run on the text `UpdateSql` gives, the store becomes what `Update` gives, or stays unchanged on failure, and stays well formed |
| Backend.Connection.ExecuteDelete | persistence/src/main/java/sk/tuke/meta/persistence/ReflectivePersistenceManager.java:179-181 | run on the text `DeleteSql` gives, the store becomes what `Delete` gives, or stays unchanged on failure, and stays well formed |
| Backend.InsertKeepsValid | persistence/src/main/java/sk/tuke/meta/persistence/ReflectivePersistenceManager.java:361-371 | an INSERT keeps every table well formed: distinct positive keys up to the counter, and rows with the table's columns |
| Backend.UpdateKeepsValid | persistence/src/main/java/sk/tuke/meta/persistence/ReflectivePersistenceManager.java:442-446 | an UPDATE keeps every table well formed |
| Backend.DeleteKeepsValid | persistence/src/main/java/sk/tuke/meta/persistence/ReflectivePersistenceManager.java:178-181 | a DELETE keeps every table well formed |
| SqlText.Quote | persistence/src/main/java/sk/tuke/meta/persistence/ReflectivePersistenceManager.java:135 | a quoted name is the name between two double quotes |
| SqlText.JoinAppend | persistence/src/main/java/sk/tuke/meta/persistence/ReflectivePersistenceManager.java:524-532 | joining two non-empty lists equals joining each and putting one separator between them |
| SqlText.ColumnListSnoc | persistence/src/main/java/sk/tuke/meta/persistence/ReflectivePersistenceManager.java:287-293 | the column list grows by the quoted name, with `", "` before it except for the first column |
| SqlText.PlaceholderListSnoc | persistence/src/main/java/sk/tuke/meta/persistence/ReflectivePersistenceManager.java:287-294 | the placeholder list grows by `?`, with `", "` before it except for the first |
| SqlText.AssignmentListSnoc | persistence/src/main/java/sk/tuke/meta/persistence/ReflectivePersistenceManager.java:330-335 | the SET list grows by `"name" = ?`, with `", "` before it except for the first |
| SqlText.InsertPlaceholderCount | persistence/src/main/java/sk/tuke/meta/persistence/ReflectivePersistenceManager.java:279-306 | the INSERT text has one `?` per non-`id` column, so it matches the values bound |
| SqlText.UpdatePlaceholderCount | persistence/src/main/java/sk/tuke/meta/persistence/ReflectivePersistenceManager.java:323-348 | the UPDATE text has one `?` per non-`id` column plus one for the key, matching the values plus `entityId` |
| SqlText.KeyedPlaceholderCount | persistence/src/main/java/sk/tuke/meta/persistence/ReflectivePersistenceManager.java:81-83 | the SELECT-by-key and DELETE texts have exactly one `?`, which is bound to the key; the SELECT of all rows has none |
| SqlText.InsertSql | persistence/src/main/java/sk/tuke/meta/persistence/ReflectivePersistenceManager.java:279-304 | the INSERT text starts with `INSERT INTO`, the table and the opening parenthesis, and ends with a closing parenthesis |
| SqlText.UpdateSql | persistence/src/main/java/sk/tuke/meta/persistence/ReflectivePersistenceManager.java:323-345 | the UPDATE text starts with `UPDATE`, the table and `SET`, and ends with the key filter ` WHERE id = ?` |
| SqlText.SelectByIdSql | persistence/src/main/java/sk/tuke/meta/persistence/ReflectivePersistenceManager.java:81 | the keyed SELECT is `SELECT * FROM`, the table and then exactly the key filter |
| SqlText.SelectAllSql | persistence/src/main/java/sk/tuke/meta/persistence/ReflectivePersistenceManager.java:108 | the SELECT of a whole table is `SELECT * FROM` followed by exactly the table |
| SqlText.DeleteSql | persistence/src/main/java/sk/tuke/meta/persistence/ReflectivePersistenceManager.java:178 | the DELETE is `DELETE FROM`, the table and then exactly the key filter |
| Mapping.TableOf | persistence/src/main/java/sk/tuke/meta/persistence/ReflectivePersistenceManager.java:135 | the runtime table name is the quoted simple class name, whatever the `@Table` annotation says |
| Mapping.Assign | persistence/src/main/java/sk/tuke/meta/persistence/ReflectivePersistenceManager.java:231-233 | `field.set` accepts a driver value exactly as Java's unboxing and widening allow: an Integer into int, long, double or float, a Double only into double, text only into String; the value stored is the driver's; a boolean field, a reference field or a NULL never takes a value |
| Mapping.GetLong | persistence/src/main/java/sk/tuke/meta/persistence/ReflectivePersistenceManager.java:218 | `rs.getLong` reads NULL as 0 and an integer as itself |
| Mapping.Load | persistence/src/main/java/sk/tuke/meta/persistence/ReflectivePersistenceManager.java:79-94 | `get` finds nothing exactly when the table exists and no row has the key; a loaded instance has the class and one slot per declared field |
| Mapping.PopulateSeq | persistence/src/main/java/sk/tuke/meta/persistence/ReflectivePersistenceManager.java:214-237 | populating gives one slot per declared field |
| Mapping.SlotOf | persistence/src/main/java/sk/tuke/meta/persistence/ReflectivePersistenceManager.java:216-235 | one field of a row: a missing column fails; a NULL leaves the field's default; a nested instance comes only from an entity field of a registered class and is of that class; any other value is what `Assign` makes of the column |
| Mapping.LoadAll | persistence/src/main/java/sk/tuke/meta/persistence/ReflectivePersistenceManager.java:105-120 | `getAll` gives one instance per stored row, and an empty list for an empty table |
| Mapping.PopulateRows | persistence/src/main/java/sk/tuke/meta/persistence/ReflectivePersistenceManager.java:111-115 | the `getAll` loop yields one loaded instance per row |
| Mapping.EntityId | persistence/src/main/java/sk/tuke/meta/persistence/ReflectivePersistenceManager.java:405-417 | `getEntityId` succeeds exactly on an instance of a registered class whose `id` field is a `long` it holds, and then gives that value; on null it fails |
| Mapping.Snap | persistence/src/main/java/sk/tuke/meta/persistence/ReflectivePersistenceManager.java:136-143 | a snapshot records the instance's class, its fields and one `getEntityId` result per field |
| Mapping.NonIdColumns | persistence/src/main/java/sk/tuke/meta/persistence/ReflectivePersistenceManager.java:286 | the INSERT and UPDATE columns are declared fields and never `id` |
| Mapping.ColumnValue | persistence/src/main/java/sk/tuke/meta/persistence/ReflectivePersistenceManager.java:295-300 | a non-null reference is replaced by the referenced instance's id; any other value is bound as it is |
| Mapping.ColumnValues | persistence/src/main/java/sk/tuke/meta/persistence/ReflectivePersistenceManager.java:284-302 | one value per non-`id` column |
| Mapping.BindValue | persistence/src/main/java/sk/tuke/meta/persistence/ReflectivePersistenceManager.java:363 | scalars bind as their SQL values and null as NULL; a Collection or an object is refused, a modelling choice for a case `save` never reaches |
| Mapping.BindAll | persistence/src/main/java/sk/tuke/meta/persistence/ReflectivePersistenceManager.java:362-364 | binding succeeds exactly when every value binds, giving each value's bound form in position |
| Mapping.InsertOutcome | persistence/src/main/java/sk/tuke/meta/persistence/ReflectivePersistenceManager.java:365-374 | `executeInsert` succeeds exactly when a row was affected and a key was generated, and returns that key |
| Mapping.RunInsert | persistence/src/main/java/sk/tuke/meta/persistence/ReflectivePersistenceManager.java:360-377 | a successful insert returns the table's next key and keeps the set of tables |
| Mapping.RunUpdate | persistence/src/main/java/sk/tuke/meta/persistence/ReflectivePersistenceManager.java:441-448 | a successful update keeps the set of tables and the number of rows |
| Mapping.InsertSpec | persistence/src/main/java/sk/tuke/meta/persistence/ReflectivePersistenceManager.java:277-307 | an insert can succeed only when every column value could be read |
| Mapping.UpdateSpec | persistence/src/main/java/sk/tuke/meta/persistence/ReflectivePersistenceManager.java:321-349 | an update can succeed only when every column value could be read |
| Mapping.SaveSpec | persistence/src/main/java/sk/tuke/meta/persistence/ReflectivePersistenceManager.java:132-161 | a save succeeds only for a registered class with a readable id and every reference field pointing at an instance with a non-zero id; an update leaves the fields unchanged |
| Mapping.SaveIntended | persistence/src/main/java/sk/tuke/meta/persistence/ReflectivePersistenceManager.java:132-161 | `save` as its tests expect it: a success needs a registered class, a readable id and every reference either null or pointing at an instance with a readable id; an update leaves the fields unchanged |
| Mapping.DeleteKey | persistence/src/main/java/sk/tuke/meta/persistence/ReflectivePersistenceManager.java:173-175 | `idField.getLong` works only on an int or long `id` field and reads its value |
| Mapping.DeleteSpec | persistence/src/main/java/sk/tuke/meta/persistence/ReflectivePersistenceManager.java:169-194 | a delete succeeds exactly when the class is registered, its key is readable, the table exists and a row with that key exists |
| LoadFacts.PopulateSeqAt | persistence/src/main/java/sk/tuke/meta/persistence/ReflectivePersistenceManager.java:215-236 | slot i of a populated instance is what field i alone loads to |
| LoadFacts.PopulateSeqOk | persistence/src/main/java/sk/tuke/meta/persistence/ReflectivePersistenceManager.java:215-236 | populating succeeds exactly when every field loads |
| LoadFacts.PopulatedAs | persistence/src/main/java/sk/tuke/meta/persistence/ReflectivePersistenceManager.java:215-236 | fields that each load to given plain values populate to exactly those values |
| LoadFacts.LoadFromRow | persistence/src/main/java/sk/tuke/meta/persistence/ReflectivePersistenceManager.java:84-88 | when the key's row is found, `get` returns that row populated |
| LoadFacts.LoadRowAs | persistence/src/main/java/sk/tuke/meta/persistence/ReflectivePersistenceManager.java:84-88 | when the key's row is found, `get` gives that row populated field by field with one less fuel |
| LoadFacts.LoadRowAsWanted | persistence/src/main/java/sk/tuke/meta/persistence/ReflectivePersistenceManager.java:84-88 | when the key's row is found and its per-field slots agree with given slots, `get` gives an instance with exactly those slots |
| LoadFacts.PopulateSeqAll | persistence/src/main/java/sk/tuke/meta/persistence/ReflectivePersistenceManager.java:215-236 | populating a row is the per-field slots of the row, collected in declaration order |
| LoadFacts.FoundAllOk | persistence/src/main/java/sk/tuke/meta/persistence/ReflectivePersistenceManager.java:84-94 | collecting slots that all load gives an instance of the class with exactly those slots |
| LoadFacts.PopulateRowsAt | persistence/src/main/java/sk/tuke/meta/persistence/ReflectivePersistenceManager.java:111-115 | entry k of `getAll` is row k populated |
| LoadFacts.SelectFindsRow | persistence/src/main/java/sk/tuke/meta/persistence/ReflectivePersistenceManager.java:81-85 | in a well-formed table, the SELECT by a row's key finds that row |
| LoadFacts.GetAllAgreesWithGet | persistence/src/main/java/sk/tuke/meta/persistence/ReflectivePersistenceManager.java:105-120 | each instance `getAll` returns is what `get` returns for that row's key |
| LoadFacts.LoadedKeySlot | persistence/src/main/java/sk/tuke/meta/persistence/ReflectivePersistenceManager.java:231-233 | a loaded instance holds the requested key in its int or long `id` field |
| LoadFacts.BooleanColumnBreaksLoad | persistence/src/main/java/sk/tuke/meta/persistence/ReflectivePersistenceManager.java:231-233 | a non-NULL boolean column makes `get` fail |
| LoadFacts.FloatColumnBreaksLoad | persistence/src/main/java/sk/tuke/meta/persistence/ReflectivePersistenceManager.java:231-233 | a REAL value in a float field's column makes `get` fail |
| LoadFacts.LoadFuel | persistence/src/main/java/sk/tuke/meta/persistence/ReflectivePersistenceManager.java:220 | once a load succeeds, a deeper recursion bound gives the same result |
| SaveFacts.NullReferenceFailsSave | persistence/src/main/java/sk/tuke/meta/persistence/ReflectivePersistenceManager.java:141-147 | a reference field holding null makes `save` fail |
| SaveFacts.NonIdColumnsHas | persistence/src/main/java/sk/tuke/meta/persistence/ReflectivePersistenceManager.java:286-293 | every declared field other than `id` is a column of INSERT and UPDATE |
| SaveFacts.NonIdColumnsAreFields | persistence/src/main/java/sk/tuke/meta/persistence/ReflectivePersistenceManager.java:284-293 | every INSERT and UPDATE column is a declared field |
| SaveFacts.ColumnIndex | persistence/src/main/java/sk/tuke/meta/persistence/ReflectivePersistenceManager.java:284-300 | with distinct field names, each non-`id` field has one column position, and its value sits at that position of the bound values |
| SaveFacts.BoundColumn | persistence/src/main/java/sk/tuke/meta/persistence/ReflectivePersistenceManager.java:293-300 | the row a statement writes holds each non-`id` field's bound value under that field's name |
| SaveFacts.SaveInsertShape | persistence/src/main/java/sk/tuke/meta/persistence/ReflectivePersistenceManager.java:151-153 | saving a new entity appends one row built from its columns and sets its `id` to the generated key |
| SaveFacts.SaveUpdateShape | persistence/src/main/java/sk/tuke/meta/persistence/ReflectivePersistenceManager.java:154-157 | saving a stored entity rewrites the rows with its key in the non-`id` columns and leaves its fields alone |
| SaveFacts.SaveInserts | persistence/src/main/java/sk/tuke/meta/persistence/ReflectivePersistenceManager.java:151-153 | an insert keeps the old rows, adds one with a key no old row has, writes that key into `id`, leaves other tables alone and keeps the store well formed |
| SaveFacts.InsertedColumn | persistence/src/main/java/sk/tuke/meta/persistence/ReflectivePersistenceManager.java:293-300 | the inserted row holds each non-`id` field's bound value |
| SaveFacts.SaveInsertsValues | persistence/src/main/java/sk/tuke/meta/persistence/ReflectivePersistenceManager.java:295-300 | the new row holds each field's value, and for a non-null reference the referenced instance's id |
| SaveFacts.SaveUpdates | persistence/src/main/java/sk/tuke/meta/persistence/ReflectivePersistenceManager.java:154-157 | an update keeps the instance's fields, the set of tables and the other tables, and keeps the store well formed |
| SaveFacts.SaveUpdatesRow | persistence/src/main/java/sk/tuke/meta/persistence/ReflectivePersistenceManager.java:335-346 | an update keeps every key, leaves rows with other keys unchanged, and writes each field's bound value into the row with the entity's key |
| SaveFacts.ScalarSlot | persistence/src/main/java/sk/tuke/meta/persistence/ReflectivePersistenceManager.java:231-233 | a scalar column holding a value's bound form loads back as that value |
| SaveFacts.InsertedSlot | persistence/src/main/java/sk/tuke/meta/persistence/ReflectivePersistenceManager.java:151-153 | every field of the saved instance, `id` included, is stored in bound form in the new row |
| SaveFacts.SaveThenLoad | persistence/src/main/java/sk/tuke/meta/persistence/ReflectivePersistenceManager.java:132-161 | after saving a new entity whose fields are int, long, double, String or entity fields, its fields are the old ones with `id` set to the generated key, and `get` with that key gives an instance whose scalar slots are the saved values and whose reference slots are what `get` of the stored referenced id gives (the referenced instance when found, null when not), failing exactly when such a nested `get` fails |
| SaveFacts.SaveThenLoadScalars | persistence/src/main/java/sk/tuke/meta/persistence/ReflectivePersistenceManager.java:132-161 | for a class of int, long, double and String fields, `get` with the generated key loads exactly the saved field values |
| SaveFacts.InsertThenLoad | persistence/src/main/java/sk/tuke/meta/persistence/ReflectivePersistenceManager.java:277-307 | after the INSERT of a new entity, `get` with the new key gives, field by field, the slot each saved field reloads to |
| SaveFacts.InsertWrites | persistence/src/main/java/sk/tuke/meta/persistence/ReflectivePersistenceManager.java:277-307 | the INSERT appends a row keyed counter+1 that the keyed SELECT finds, and every field is written into it so that it reloads |
| SaveFacts.LoadWritten | persistence/src/main/java/sk/tuke/meta/persistence/ReflectivePersistenceManager.java:79-94 | a row into which every field was written loads back as the slots those fields were saved as |
| SaveFacts.ReloadSlots | persistence/src/main/java/sk/tuke/meta/persistence/ReflectivePersistenceManager.java:215-236 | populating a written row gives, field by field, the slots the fields were saved as |
| SaveFacts.ReloadSlot | persistence/src/main/java/sk/tuke/meta/persistence/ReflectivePersistenceManager.java:216-235 | one written field reloads to the slot it was saved as: a scalar to its value, a reference to what its stored key loads |
| SaveFacts.ReferenceSlot | persistence/src/main/java/sk/tuke/meta/persistence/ReflectivePersistenceManager.java:216-235 | a reference column holding the bound reference (NULL for null, the id otherwise) reloads to the instance `get` of that id gives, keeps the default for null, a non-positive id or no row, and fails when that `get` fails |
| SaveFacts.InsertedRow | persistence/src/main/java/sk/tuke/meta/persistence/ReflectivePersistenceManager.java:277-307 | the INSERT of a new entity gives the new row keyed counter+1, holding the bound column values |
| SaveFacts.InsertedWritten | persistence/src/main/java/sk/tuke/meta/persistence/ReflectivePersistenceManager.java:293-300 | each scalar or entity field of an inserted entity is written into the new row in bound form |
| SaveFacts.InsertedAllWritten | persistence/src/main/java/sk/tuke/meta/persistence/ReflectivePersistenceManager.java:284-300 | every scalar and entity field of an inserted entity is written into the new row |
| SaveFacts.ScalarNamesKept | persistence/src/main/java/sk/tuke/meta/persistence/ReflectivePersistenceManager.java:151-153 | every scalar field name is still among the fields after a save |
| SaveFacts.LoadScalars | persistence/src/main/java/sk/tuke/meta/persistence/ReflectivePersistenceManager.java:79-94 | a load of written scalar fields succeeds with an instance of the class whose slots are the saved values |
| SaveFacts.ScalarsFound | persistence/src/main/java/sk/tuke/meta/persistence/ReflectivePersistenceManager.java:84-94 | scalar fields saved as values collect into an instance of the class holding exactly those values, one per field |
| SaveFacts.SaveIntendedAgrees | persistence/src/main/java/sk/tuke/meta/persistence/ReflectivePersistenceManager.java:132-161 | whenever the code's `save` succeeds the intended one gives the same result, and both agree on every entity none of whose reference fields holds null |
| SaveFacts.SaveIntendedThenLoad | persistence/src/main/java/sk/tuke/meta/persistence/ReflectivePersistenceManager.java:132-161 | under the intended save, a new entity whose references may be null gets `id` set to the generated key and loads back slot by slot as in `SaveThenLoad`, a null reference as the field's default |
| SaveFacts.NullColumnStored | persistence/src/main/java/sk/tuke/meta/persistence/ReflectivePersistenceManager.java:293-300 | under the intended save, a null reference is stored as a NULL column of the one new row |
| SaveFacts.NullReferenceSavesNull | example/src/test/java/sk/tuke/meta/example/ReflectiveManagerTests.java:202-208 | under the intended save, a new entity with a null reference is stored with a NULL column, and a later `get` leaves that field at its default |
| SaveFacts.LoadStored | persistence/src/main/java/sk/tuke/meta/persistence/ReflectivePersistenceManager.java:79-94 | a row holding each field's bound value loads back as those values |
| SaveFacts.WithoutIdRemovesOne | persistence/src/main/java/sk/tuke/meta/persistence/ReflectivePersistenceManager.java:178-181 | with distinct keys, deleting an existing key removes exactly one row |
| SaveFacts.DeleteThenLoad | persistence/src/main/java/sk/tuke/meta/persistence/ReflectivePersistenceManager.java:169-194 | a successful delete removes one row, after which `get` of that key finds nothing; other tables are untouched and the store stays well formed |
| Statements.AddColumnValue | persistence/src/main/java/sk/tuke/meta/persistence/ReflectivePersistenceManager.java:295-300 | reading the next column value extends the values, or its failure means the whole column list fails |
| Statements.AppendInsertColumn | persistence/src/main/java/sk/tuke/meta/persistence/ReflectivePersistenceManager.java:287-294 | one loop step extends the column and placeholder texts to the next column, with the `first` flag choosing the separator |
| Statements.InsertStep | persistence/src/main/java/sk/tuke/meta/persistence/ReflectivePersistenceManager.java:286-301 | one INSERT loop iteration: an `id` field is skipped, another field extends the columns, placeholders and values to the next field, and a failure to read it means the whole column list fails |
| Statements.BuildInsert | persistence/src/main/java/sk/tuke/meta/persistence/ReflectivePersistenceManager.java:278-304 | the INSERT loop succeeds exactly when every column value can be read, and yields the INSERT text for the non-`id` columns and their values in order |
| Statements.AppendAssignment | persistence/src/main/java/sk/tuke/meta/persistence/ReflectivePersistenceManager.java:330-335 | one loop step extends the SET text to the next column |
| Statements.UpdateStep | persistence/src/main/java/sk/tuke/meta/persistence/ReflectivePersistenceManager.java:328-341 | one UPDATE loop iteration: an `id` field is skipped, another field extends the SET text and values to the next field, and a failure to read it means the whole column list fails |
| Statements.BuildUpdate | persistence/src/main/java/sk/tuke/meta/persistence/ReflectivePersistenceManager.java:322-345 | the UPDATE loop succeeds exactly when every column value can be read, and yields the UPDATE text for the non-`id` columns and their values in order |
| Manager.PersistenceManager.Get | persistence/src/main/java/sk/tuke/meta/persistence/ReflectivePersistenceManager.java:79-94 | `get` fails, finds nothing or returns a fresh instance graph exactly as `Load` says, and the graph holds the loaded values |
| Manager.PersistenceManager.Instantiate | persistence/src/main/java/sk/tuke/meta/persistence/ReflectivePersistenceManager.java:86-87 | a fresh instance populated from a row holds exactly the slots `PopulateSeq` gives, or construction fails when it fails |
| Manager.PersistenceManager.Populate | persistence/src/main/java/sk/tuke/meta/persistence/ReflectivePersistenceManager.java:214-237 | the populate loop succeeds exactly when `PopulateSeq` does, writes every field, and keeps the instance's field names |
| Manager.PersistenceManager.PopulateNext | persistence/src/main/java/sk/tuke/meta/persistence/ReflectivePersistenceManager.java:216-235 | one populate iteration keeps the instance's field names, and either fails exactly where `PopulateSeq` fails or extends the populated prefix by the next field's slot |
| Manager.PersistenceManager.PopulateField | persistence/src/main/java/sk/tuke/meta/persistence/ReflectivePersistenceManager.java:216-235 | one field is set exactly as `SlotOf` says (a nested `get` for an entity reference with a positive key, the driver value otherwise, and no change on NULL), and no other field changes |
| Manager.PersistenceManager.GetAll | persistence/src/main/java/sk/tuke/meta/persistence/ReflectivePersistenceManager.java:105-120 | `getAll` fails exactly when `LoadAll` does and otherwise returns one fresh instance per loaded row, in order |
| Manager.PersistenceManager.Save | persistence/src/main/java/sk/tuke/meta/persistence/ReflectivePersistenceManager.java:132-161 | `save` succeeds exactly when `SaveSpec` does, and then the store and the instance's fields are what it gives; on failure nothing changes |
| Manager.PersistenceManager.InsertEntity | persistence/src/main/java/sk/tuke/meta/persistence/ReflectivePersistenceManager.java:277-307 | `insertEntity` returns the generated key and leaves the store `InsertSpec` gives, or changes nothing on failure |
| Manager.PersistenceManager.UpdateEntity | persistence/src/main/java/sk/tuke/meta/persistence/ReflectivePersistenceManager.java:321-349 | `updateEntity` leaves the store `UpdateSpec` gives, or changes nothing on failure |
| Manager.PersistenceManager.ExecuteInsert | persistence/src/main/java/sk/tuke/meta/persistence/ReflectivePersistenceManager.java:360-377 | `executeInsert` returns the generated key and leaves the store `RunInsert` gives, or changes nothing on failure |
| Manager.PersistenceManager.ExecuteUpdate | persistence/src/main/java/sk/tuke/meta/persistence/ReflectivePersistenceManager.java:441-448 | `executeUpdate` leaves the store `RunUpdate` gives, or changes nothing on failure |
| Manager.PersistenceManager.Bind | persistence/src/main/java/sk/tuke/meta/persistence/ReflectivePersistenceManager.java:362-364 | the binding loop gives exactly `BindAll` of the values |
| Manager.PersistenceManager.SetEntityId | persistence/src/main/java/sk/tuke/meta/persistence/ReflectivePersistenceManager.java:389-393 | `setEntityId` succeeds exactly when the class's `id` field is a `long`, `double` or `float`, writes the key there (widened for `double` and `float`), and changes nothing else; on failure nothing changes |
| Manager.PersistenceManager.Delete | persistence/src/main/java/sk/tuke/meta/persistence/ReflectivePersistenceManager.java:169-194 | `delete` succeeds exactly when `DeleteSpec` does and then leaves the store it gives; otherwise nothing changes |
| Ddl.JavaTypeToSqlType | persistence/src/main/java/sk/tuke/meta/persistence/ReflectivePersistenceManager.java:251-261 | INTEGER exactly for int and long, REAL exactly for double and float, TEXT for everything else |
| Ddl.GetFieldDefinitions | persistence/src/main/java/sk/tuke/meta/persistence/ReflectivePersistenceManager.java:475-490 | one definition per declared field, in order, each the field's definition |
| Ddl.FieldDefinitionShape | persistence/src/main/java/sk/tuke/meta/persistence/ReflectivePersistenceManager.java:478-486 | a definition starts with the quoted name, ends with the primary key clause exactly when the field is `id`, types entity references INTEGER and Collections TEXT |
| Ddl.ForeignKeysMembers | persistence/src/main/java/sk/tuke/meta/persistence/ReflectivePersistenceManager.java:500-511 | the foreign keys are exactly those of the entity fields |
| Ddl.GetForeignKeyConstraints | persistence/src/main/java/sk/tuke/meta/persistence/ReflectivePersistenceManager.java:500-511 | the loop yields the foreign keys of the entity fields, in declaration order |
| Ddl.BuildCreateTableSql | persistence/src/main/java/sk/tuke/meta/persistence/ReflectivePersistenceManager.java:523-537 | the statement starts with `CREATE TABLE IF NOT EXISTS`, the quoted table name and an opening parenthesis, and ends with `);` |
| Ddl.CreateTableJoinsAll | persistence/src/main/java/sk/tuke/meta/persistence/ReflectivePersistenceManager.java:523-537 | with at least one definition the column part is the definitions and foreign keys joined as one list |
| Ddl.CreateTableWithoutDefinitions | persistence/src/main/java/sk/tuke/meta/persistence/ReflectivePersistenceManager.java:523-537 | foreign keys without definitions leave a comma right after the opening parenthesis |
| Processor.SqlType | processor/src/main/java/sk/tuke/meta/persistence/Processor.java:81-93 | INTEGER exactly for int, REAL exactly for float and double, TEXT for everything else |
| Processor.TypeMappingsDiffer | processor/src/main/java/sk/tuke/meta/persistence/Processor.java:81-93 | the processor's type mapping and the runtime's differ exactly on `long` |
| Processor.GetTableNameCases | processor/src/main/java/sk/tuke/meta/persistence/Processor.java:96-98 | the `@Table` name when it is not empty and the simple class name otherwise; empty exactly when both are |
| TableNames.TableNamesAgree | processor/src/main/java/sk/tuke/meta/persistence/Processor.java:96-98 | for a class with the same simple name, the runtime table name is the processor's name quoted exactly when the `@Table` name is empty or equals the simple name |
| Processor.KeyPart | processor/src/main/java/sk/tuke/meta/persistence/Processor.java:56-60 | the primary key clause exactly for `@Id`; UNIQUE exactly for a unique non-`@Id` column; nothing otherwise |
| Processor.NullPart | processor/src/main/java/sk/tuke/meta/persistence/Processor.java:61-63 | NOT NULL exactly when the column is not nullable |
| Processor.FragmentStart | processor/src/main/java/sk/tuke/meta/persistence/Processor.java:53-54 | a `@Column` member's text starts with its simple name, a space, its SQL type and `", "` |
| Processor.ColumnsTextEmpty | processor/src/main/java/sk/tuke/meta/persistence/Processor.java:47-65 | the members' text is empty exactly when no member has `@Column` |
| Processor.LastIndexOf | processor/src/main/java/sk/tuke/meta/persistence/Processor.java:68 | the result is -1 exactly when the pattern does not occur, and otherwise an occurrence with none after it |
| Processor.FinishCases | processor/src/main/java/sk/tuke/meta/persistence/Processor.java:67-71 | when `", "` occurs past the first character the last two characters are removed before `);` is appended, and otherwise `);` is appended to the text as it is |
| Processor.AppendMember | processor/src/main/java/sk/tuke/meta/persistence/Processor.java:48-64 | a `@Column` member appends its fragment and any other member appends nothing |
| Processor.ProcessTable | processor/src/main/java/sk/tuke/meta/persistence/Processor.java:40-71 | the statement built for one class is `Query` of that class |
| Processor.Process | processor/src/main/java/sk/tuke/meta/persistence/Processor.java:35-78 | one statement per `@Table` class, in order, each `Query` of its class |
| Processor.ColumnsTextAppend | processor/src/main/java/sk/tuke/meta/persistence/Processor.java:47-65 | the members' text splits over concatenation of member lists, so members contribute in enclosed-element order |
| Processor.ColumnsTextSingle | processor/src/main/java/sk/tuke/meta/persistence/Processor.java:50-64 | one member contributes its fragment exactly when it has `@Column` |
| Processor.FragmentEnd | processor/src/main/java/sk/tuke/meta/persistence/Processor.java:53-63 | every fragment ends in `", "` after a character that is not a space |
| Processor.ColumnsTextEnd | processor/src/main/java/sk/tuke/meta/persistence/Processor.java:47-65 | with a `@Column` member the members' text ends in `", "` after a character that is not a space |
| Processor.QueryWithColumns | processor/src/main/java/sk/tuke/meta/persistence/Processor.java:67-71 | with a `@Column` member exactly the trailing separator is removed, so the statement never ends in `, );` |
| Processor.QueryFrame | processor/src/main/java/sk/tuke/meta/persistence/Processor.java:43-71 | every statement starts with `CREATE TABLE IF NOT EXISTS ` and ends with `);` |
| Processor.QueryWithoutColumns | processor/src/main/java/sk/tuke/meta/persistence/Processor.java:67-71 | without columns and with a comma-free table name the statement ends in ` ();` |
| Processor.CommaInTableName | processor/src/main/java/sk/tuke/meta/persistence/Processor.java:68-69 | without columns, a table name holding `", "` makes the deletion remove the opening parenthesis |
| Processor.ColumnNameIgnored | processor/src/main/java/sk/tuke/meta/persistence/Processor.java:53 | members that differ only in their `@Column` name give the same text |

## Left out

- `createTables` (ReflectivePersistenceManager.java:27-66) reads `data.sql` from the class path and runs each statement in it. File and class-path I/O are not modelled. The tables of a `Connection` are given when it is constructed.
- Mapping.BindValue: sqlite-jdbc's `setObject` would bind any other object by its string form; the model refuses a Collection or an entity instead. `save` never reaches that case: `ColumnValue` replaces every non-null reference (a Collection field counts as one) by its key, and a Collection has no `id`, so `getEntityId` fails first.
- `executeSQL` (ReflectivePersistenceManager.java:458-465) is only called from the commented-out part of `createTables`, so it is not modelled.
- The SQL engine is not modelled as an engine: SQL text is never parsed. `Backend` states what the manager's five statement shapes do to a map of tables. Each `Connection` method takes the statement's text and requires it to be the `SqlText` text of its shape. `Get`, `GetAll` and `Delete` build the SELECT and DELETE texts as lines 81, 108 and 178 do. `Statements.BuildInsert` and `BuildUpdate` prove that the INSERT and UPDATE loops build theirs.
- Exception types and messages: every failure is the single `Err` outcome.
- The closing of statements and result sets, concurrency, and the connection's transaction behaviour are not modelled.
- Reflection: classes are explicit descriptors with fields in declaration order.
- Field types `byte`, `short` and `char` are not part of `Kind`.
- Mapping.Load: without a cycle guard the source recurses until the stack overflows. The model stops after `fuel` nested `get` calls with `Err`, and does not say at which depth the real stack gives out.
- Mapping.Assign: the driver's conversions are fixed by assumption: an Integer for INTEGER columns, a Double for REAL columns, a String for TEXT columns. Other drivers may convert differently.
- Integer widths: `int` and `long` values are unbounded integers. Java's 32-bit and 64-bit wrap-around and the narrowing done by `field.set` are not modelled.
- Floating point: `double` and `float` values are reals, and rounding is not modelled. A Double is refused by a float field (`Mapping.Assign`), as `Field.set` refuses a narrowing conversion.
- Processor.Process: `writeSQLToFile` (Processor.java:101-108) and the `Filer` are not modelled. `Process` returns the statements it would hand over, one per class. With a real `Filer`, a second `createResource` of `data.sql` in the same run is refused. In that case only the first statement would reach the file, and the error is only printed.
- `init`, `getSupportedAnnotationTypes` and `getSupportedSourceVersion` of the processor only wire it into the compiler, so they are not modelled.
- Mapping.GetLong: `rs.getLong` is assumed to read only integers and NULL, and fails on a REAL or TEXT value. sqlite-jdbc's `getLong` would convert such a value instead, so a reference column holding one fails to load in the model where the driver might succeed.
- Backend: the stand-in store enforces no declared column types, no NOT NULL and no foreign keys. A delete therefore never fails because another row refers to the deleted one, which a database with foreign key enforcement would refuse (the test at example/src/test/java/sk/tuke/meta/example/ReflectiveManagerTests.java:127-134 remarks on this).

## Findings

| source | as written | input that shows it | evidently intended | confidence | as-written member | corrected member |
|---|---|---|---|---|---|---|
| persistence/src/main/java/sk/tuke/meta/persistence/ReflectivePersistenceManager.java:140-147 | `save` calls `getEntityId` on every reference field's value; on null, `entity.getClass()` (line 407) throws, and lines 158-159 turn that into a failed save | a new `Person` whose `department` is null | the test `saveNewPersonWithoutDepartment` (example/src/test/java/sk/tuke/meta/example/ReflectiveManagerTests.java:202-208) expects the save to succeed, storing NULL in the reference column | high, not executed | SaveFacts.NullReferenceFailsSave | SaveFacts.NullReferenceSavesNull |
