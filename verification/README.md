# A verified model of the fizteh-java2 key-value storage engine

This project models the core of a small Java key-value database. The database keeps named
tables of typed rows under a root directory, one directory per table, and stores each
table's data in sharded files. The model covers five parts of the engine.

- **The transactional table** (`GenericTable`). A committed map is shared by every
  user. Each transaction context adds a private overlay of pending changes and pending
  deletions. `get`, `put`, `remove`, `getDiffCount`, `rollback`, `pushChanges` and
  `commit` are pure functions from one table state to the next. Each also returns
  the value it produced or the exception it threw.
- **The table registry** (`GenericTableProvider`): a map from table names to tables,
  with name validation, create-if-absent and remove-or-fail.
- **The typed-row provider** (`StoreableTableProvider`):
  - the open/closed lifecycle;
  - lazy loading of tables found on disk;
  - argument checks when creating a table;
  - construction of rows by `createFor`.
- **The shard-file writer** (`StoreableTableFileWriter`). `flush` lays pending entries
  out in a file as an index of records `key · 0x00 · 32-bit big-endian offset`,
  followed by the values at the recorded offsets. `RandomAccessFile` is modelled as a
  byte sequence plus a file pointer. The `flush` loop is proved to produce a reference
  layout. A reader of that layout (`ShardFormat`) is defined from the documented file
  format. Reading back proves the round trip for the corrected writer and refutes it for
  the writer as written.
- **The validity gate** (`ValidityChecker`). It holds the predicates on:
  - keys and table names;
  - offsets, values, signatures and rows;
  - shard coordinates;
  - the shape of directory trees, given as an abstract tree of nodes.

  Every other component uses these predicates in its contracts.

Java's `null` is `Option.None`. Each exception is an `Error` kind inside a `Result`.
Keys and values in files are byte sequences. Integer arithmetic is unbounded. Java's
truncating `/` and `%` and the 32-bit `(int)` cast are written out where they matter.

Files:
- `wrappers.dfy`: `Option`, `Result` and the exception kinds.
- `columns.dfy`: column classes, values and rows.
- `validity.dfy`: the validity gate.
- `generic_table.dfy`: the transactional table.
- `generic_table_provider.dfy`: the table registry.
- `storeable_table_provider.dfy`: the typed-row provider.
- `file_writer.dfy`: the shard-file writer.
- `shard_format.dfy`: the reader, and the writer's layouts checked against it.

## Model

| member | source | states |
|---|---|---|
| GenericTable.NewTable | storage/module-core/src/main/java/ru/fizteh/java2/vlmazlov/storage/core/generics/GenericTable.java:41-52 | a new table has an empty committed map, no pending changes or deletions, and the given auto-commit flag, so its view is empty and its diff count is zero |
| GenericTable.Get | storage/module-core/src/main/java/ru/fizteh/java2/vlmazlov/storage/core/generics/GenericTable.java:84-111 | an invalid key is an argument error; otherwise the result is the key's effective value: a pending deletion hides it, then a pending change wins, then the committed value, else null |
| GenericTable.PushChanges | storage/module-core/src/main/java/ru/fizteh/java2/vlmazlov/storage/core/generics/GenericTable.java:201-209 | afterwards the committed map holds exactly what the context saw (its view); the overlay itself is left in place |
| GenericTable.Put | storage/module-core/src/main/java/ru/fizteh/java2/vlmazlov/storage/core/generics/GenericTable.java:60-82 | an invalid key or a null value is an argument error and changes nothing; otherwise the result is the previous effective value, the change is recorded, any deletion mark on the key is cleared, and the view gains the key; committed data changes only in auto-commit mode, which pushes at once; the overlay stays disjoint |
| GenericTable.Remove | storage/module-core/src/main/java/ru/fizteh/java2/vlmazlov/storage/core/generics/GenericTable.java:113-142 | an invalid key is an argument error; otherwise the result is the previous effective value, the pending change is dropped, the key is marked deleted only when it is committed, and the key leaves the view; auto-commit pushes; the overlay stays disjoint |
| GenericTable.GetDiffCount | storage/module-core/src/main/java/ru/fizteh/java2/vlmazlov/storage/core/generics/GenericTable.java:211-239 | the two passes of the loop count exactly the pending changes that are new or differ from the committed value, plus the pending deletions of committed keys |
| GenericTable.CountChangedDiffs | storage/module-core/src/main/java/ru/fizteh/java2/vlmazlov/storage/core/generics/GenericTable.java:219-226 | the first pass counts the pending changes that are absent from the committed map or differ from its value |
| GenericTable.CountDeletedDiffs | storage/module-core/src/main/java/ru/fizteh/java2/vlmazlov/storage/core/generics/GenericTable.java:228-232 | the second pass counts the pending deletions that hit a committed key |
| GenericTable.ChangedDiffsStep | storage/module-core/src/main/java/ru/fizteh/java2/vlmazlov/storage/core/generics/GenericTable.java:221-224 | visiting one more pending change adds one to the count exactly when that change is a difference |
| GenericTable.DeletedDiffsStep | storage/module-core/src/main/java/ru/fizteh/java2/vlmazlov/storage/core/generics/GenericTable.java:229-231 | visiting one more pending deletion adds one exactly when the key is committed |
| GenericTable.Rollback | storage/module-core/src/main/java/ru/fizteh/java2/vlmazlov/storage/core/generics/GenericTable.java:189-196 | returns the diff count taken before the rollback, empties the overlay and keeps the committed map, so the view falls back to the committed data |
| GenericTable.Commit | storage/module-core/src/main/java/ru/fizteh/java2/vlmazlov/storage/core/generics/GenericTable.java:152-187 | the committed map becomes the context's view. On a successful store the result is the diff count taken before the merge and the overlay is emptied. An IOException escapes and a validity failure becomes a RuntimeException; in both cases the merge has already happened but the overlay is kept |
| GenericTable.DiffCountMeasuresView | storage/module-core/src/main/java/ru/fizteh/java2/vlmazlov/storage/core/generics/GenericTable.java:211-239 | with a disjoint overlay, the diff count is the number of keys on which the view and the committed map disagree |
| GenericTable.DifferencesSplit | storage/module-core/src/main/java/ru/fizteh/java2/vlmazlov/storage/core/generics/GenericTable.java:211-239 | the keys on which the view and the committed map disagree are exactly the differing pending changes plus the deleted committed keys |
| GenericTable.DiffCountZeroIffClean | storage/module-core/src/main/java/ru/fizteh/java2/vlmazlov/storage/core/generics/GenericTable.java:211-239 | the diff count is zero exactly when the view equals the committed map (both directions) |
| GenericTable.PutCommittedValueContributesNothing | storage/module-core/src/main/java/ru/fizteh/java2/vlmazlov/storage/core/generics/GenericTable.java:70-73 | putting back a key's committed value removes that key from the differences and leaves every other difference in place |
| GenericTable.AutoCommitLeavesNothingPending | storage/module-core/src/main/java/ru/fizteh/java2/vlmazlov/storage/core/generics/GenericTable.java:78-80 | in auto-commit mode every successful put or remove leaves a diff count of zero |
| GenericTable.CommitThenNothingPending | storage/module-core/src/main/java/ru/fizteh/java2/vlmazlov/storage/core/generics/GenericTable.java:183-186 | after a successful commit the diff count is zero, so a rollback right after it reports zero |
| GenericTable.RemoveThenGet | storage/module-core/src/main/java/ru/fizteh/java2/vlmazlov/storage/core/generics/GenericTable.java:113-142 | a removed key reads as null, even when it is committed |
| GenericTable.RemovePutGet | storage/module-core/src/main/java/ru/fizteh/java2/vlmazlov/storage/core/generics/GenericTable.java:60-82 | a put after a remove is read back |
| GenericTable.PutRemoveGet | storage/module-core/src/main/java/ru/fizteh/java2/vlmazlov/storage/core/generics/GenericTable.java:113-142 | a remove after a put reads as null |
| GenericTableProvider.NewProvider | storage/module-core/src/main/java/ru/fizteh/java2/vlmazlov/storage/core/generics/GenericTableProvider.java:20-30 | a null root is an argument error and an invalid root fails the validity check. The provider is built exactly when the root is non-null and is a directory of directories, and it starts with no tables |
| GenericTableProvider.GetTable | storage/module-core/src/main/java/ru/fizteh/java2/vlmazlov/storage/core/generics/GenericTableProvider.java:34-43 | an invalid name is an argument error; otherwise the result is the registered table, or null exactly when no table has that name |
| GenericTableProvider.CreateTable | storage/module-core/src/main/java/ru/fizteh/java2/vlmazlov/storage/core/generics/GenericTableProvider.java:45-65 | an invalid name is an argument error. A name already taken gives null and changes nothing. Otherwise the instantiated table is registered under the name and returned; an exception from instantiating it propagates. No name is ever dropped |
| GenericTableProvider.RemoveTable | storage/module-core/src/main/java/ru/fizteh/java2/vlmazlov/storage/core/generics/GenericTableProvider.java:67-81 | an invalid name is an argument error; an unknown name is a state error and changes nothing; otherwise exactly that entry is removed |
| GenericTableProvider.CreateThenGet | storage/module-core/src/main/java/ru/fizteh/java2/vlmazlov/storage/core/generics/GenericTableProvider.java:45-65 | a created table is found by getTable, and creating it again gives null and changes nothing |
| GenericTableProvider.CreateRemoveRoundTrip | storage/module-core/src/main/java/ru/fizteh/java2/vlmazlov/storage/core/generics/GenericTableProvider.java:45-81 | removing a freshly created table restores the registry; the name then reads as absent, and removing it again is a state error |
| GenericTableProvider.OtherTablesUntouched | storage/module-core/src/main/java/ru/fizteh/java2/vlmazlov/storage/core/generics/GenericTableProvider.java:45-81 | creating or removing one name leaves every other registered table as it was |
| StoreableTableProvider.NewStoreableProvider | storage/module-core/src/main/java/ru/fizteh/java2/vlmazlov/storage/core/StoreableTableProvider.java:25-28 | succeeds exactly when the generic constructor does, with the provider open and no tables registered |
| StoreableTableProvider.CheckClosed | storage/module-core/src/main/java/ru/fizteh/java2/vlmazlov/storage/core/StoreableTableProvider.java:254-258 | fails, with a state error, exactly when the provider is closed |
| StoreableTableProvider.EntryNamed | storage/module-core/src/main/java/ru/fizteh/java2/vlmazlov/storage/core/StoreableTableProvider.java:69-73 | finds an entry of the root listing with the given name exactly when one exists |
| StoreableTableProvider.LoadTable | storage/module-core/src/main/java/ru/fizteh/java2/vlmazlov/storage/core/StoreableTableProvider.java:67-82 | a root that is not a directory is a RuntimeException. A name the root does not list gives null. A listed directory with a valid table shape and a readable signature is registered under the name with that signature and returned. A malformed directory or an unreadable signature is a RuntimeException. Every failure changes nothing |
| StoreableTableProvider.GetTable | storage/module-core/src/main/java/ru/fizteh/java2/vlmazlov/storage/core/StoreableTableProvider.java:40-54 | a closed provider is a state error and an invalid name an argument error. A registered table is returned as is. An unregistered name is exactly loadTable: a table loaded from disk is registered and returned, or the result is null with nothing changed. Every registered table stays under its own name |
| StoreableTableProvider.RemoveTable | storage/module-core/src/main/java/ru/fizteh/java2/vlmazlov/storage/core/StoreableTableProvider.java:57-60 | a closed provider is a state error; otherwise this is the generic removeTable |
| StoreableTableProvider.GetRoot | storage/module-core/src/main/java/ru/fizteh/java2/vlmazlov/storage/core/StoreableTableProvider.java:62-65 | the root path, or a state error exactly when closed |
| StoreableTableProvider.CreateTable | storage/module-core/src/main/java/ru/fizteh/java2/vlmazlov/storage/core/StoreableTableProvider.java:85-109 | a closed provider is a state error. Null or empty column types, or an unsupported column class, are an argument error and change nothing. Then getTable runs: its exception propagates unchanged, and a table it finds, or loads and registers, makes the result null. For a valid name neither registered nor listed on disk, a StoreableTable constructor failure (rethrown by instantiateTable as a RuntimeException) registers nothing. Otherwise the table is registered with the declared column classes and returned. A failed signature write is an I/O error, but the table stays registered |
| StoreableTableProvider.CreateFor | storage/module-core/src/main/java/ru/fizteh/java2/vlmazlov/storage/core/StoreableTableProvider.java:161-175 | a closed provider is a state error and a null table an argument error; otherwise the result is a row of the table's column classes with every cell null |
| StoreableTableProvider.CreateForValues | storage/module-core/src/main/java/ru/fizteh/java2/vlmazlov/storage/core/StoreableTableProvider.java:178-204 | a closed provider is a state error, a null table or null values an argument error, and a value count other than the column count is an index error. A value that does not fit its column is a column-format error. Otherwise the result is the row holding exactly the given values |
| StoreableTableProvider.SetColumns | storage/module-core/src/main/java/ru/fizteh/java2/vlmazlov/storage/core/StoreableTableProvider.java:199-201 | the setColumnAt loop from column from onwards succeeds exactly when every later value fits its column; it then keeps the earlier cells and gives the later ones the given values, and otherwise it is a column-format error |
| StoreableTableProvider.CloseTable | storage/module-core/src/main/java/ru/fizteh/java2/vlmazlov/storage/core/StoreableTableProvider.java:235-238 | a closed provider is a state error; otherwise exactly that name leaves the registry |
| StoreableTableProvider.Close | storage/module-core/src/main/java/ru/fizteh/java2/vlmazlov/storage/core/StoreableTableProvider.java:240-252 | afterwards the provider is closed. A second close changes nothing. The first close closes every registered table and keeps them registered |
| StoreableTableProvider.CloseIdempotent | storage/module-core/src/main/java/ru/fizteh/java2/vlmazlov/storage/core/StoreableTableProvider.java:240-252 | closing twice is the same as closing once |
| StoreableTableProvider.ClosedRefusesEverything | storage/module-core/src/main/java/ru/fizteh/java2/vlmazlov/storage/core/StoreableTableProvider.java:254-258 | once closed, getTable, createTable, removeTable, getRoot, both createFor and closeTable are refused with a state error and change nothing |
| StoreableTableProvider.LoadedTableIsCached | storage/module-core/src/main/java/ru/fizteh/java2/vlmazlov/storage/core/StoreableTableProvider.java:40-82 | a table loaded from disk is registered, so the next getTable returns it whatever the disk holds by then |
| StoreableTableProvider.CreatedTableIsFound | storage/module-core/src/main/java/ru/fizteh/java2/vlmazlov/storage/core/StoreableTableProvider.java:85-109 | a table just created is returned by getTable, with the declared column classes, without consulting the disk |
| StoreableTableProvider.NullValuesMakeEmptyRow | storage/module-core/src/main/java/ru/fizteh/java2/vlmazlov/storage/core/StoreableTableProvider.java:161-204 | a list of nulls builds the same row as createFor(table), and that row passes the value-format check |
| StoreableTableProvider.RowBuiltIffFormatValid | storage/module-core/src/main/java/ru/fizteh/java2/vlmazlov/storage/core/StoreableTableProvider.java:178-204 | on an open provider, createFor(table, values) builds a row exactly when that row passes checkValueFormat (both directions) |
| StoreableTableProvider.GetTableLoadsIff | storage/module-core/src/main/java/ru/fizteh/java2/vlmazlov/storage/core/StoreableTableProvider.java:40-82 | for a valid unregistered name, getTable returns a table exactly when the root lists a well-formed table directory of that name whose signature reads, and returns null exactly when no entry has that name |
| StoreableTableProvider.CreateTableIffFresh | storage/module-core/src/main/java/ru/fizteh/java2/vlmazlov/storage/core/StoreableTableProvider.java:85-109 | with valid column classes and a written signature, createTable creates a table exactly when the name is neither registered nor listed on disk and the StoreableTable constructor succeeds |
| StoreableTableFileWriter.WriteKeyValue | storage/module-core/src/main/java/ru/fizteh/java2/vlmazlov/storage/core/io/StoreableTableFileWriter.java:31-33 | map-put semantics: the key is pending with the new value and every other pending entry is unchanged |
| StoreableTableFileWriter.FirstOffset | storage/module-core/src/main/java/ru/fizteh/java2/vlmazlov/storage/core/io/StoreableTableFileWriter.java:20-29 | countFirstOffSet is never less than the index flush writes, and equals it exactly when no pending value is null |
| StoreableTableFileWriter.Int32BE | storage/module-core/src/main/java/ru/fizteh/java2/vlmazlov/storage/core/io/StoreableTableFileWriter.java:38 | writeInt emits exactly four bytes |
| StoreableTableFileWriter.Record | storage/module-core/src/main/java/ru/fizteh/java2/vlmazlov/storage/core/io/StoreableTableFileWriter.java:35-39 | an index record is the key bytes plus five bytes |
| StoreableTableFileWriter.Written | storage/module-core/src/main/java/ru/fizteh/java2/vlmazlov/storage/core/io/StoreableTableFileWriter.java:50-53 | flush writes at most one record per pending entry, because null values are skipped |
| StoreableTableFileWriter.Write | storage/module-core/src/main/java/ru/fizteh/java2/vlmazlov/storage/core/io/StoreableTableFileWriter.java:36 | writing advances the file pointer by the number of bytes written |
| StoreableTableFileWriter.StoreKey | storage/module-core/src/main/java/ru/fizteh/java2/vlmazlov/storage/core/io/StoreableTableFileWriter.java:35-39 | storeKey advances the file pointer past one record: the key length plus five; StoreKeyInPlace states the bytes it leaves |
| StoreableTableFileWriter.WriteInPlace | storage/module-core/src/main/java/ru/fizteh/java2/vlmazlov/storage/core/io/StoreableTableFileWriter.java:36-38 | writing inside a file overwrites exactly the bytes at the pointer and keeps the rest |
| StoreableTableFileWriter.WritePastEnd | storage/module-core/src/main/java/ru/fizteh/java2/vlmazlov/storage/core/io/StoreableTableFileWriter.java:58-59 | writing after a seek past the end extends the file up to the pointer, then appends |
| StoreableTableFileWriter.StoreKeyInPlace | storage/module-core/src/main/java/ru/fizteh/java2/vlmazlov/storage/core/io/StoreableTableFileWriter.java:35-39 | storeKey writes the index record at the file pointer and leaves every other byte |
| StoreableTableFileWriter.WrittenStep | storage/module-core/src/main/java/ru/fizteh/java2/vlmazlov/storage/core/io/StoreableTableFileWriter.java:20-29 | a null entry adds nothing to the written entries and a non-null one appends itself; every entry, null ones included, adds its key length plus five to countFirstOffSet |
| StoreableTableFileWriter.IndexFitsFirstOffset | storage/module-core/src/main/java/ru/fizteh/java2/vlmazlov/storage/core/io/StoreableTableFileWriter.java:20-29 | the records flush writes never take more room than countFirstOffSet reserves |
| StoreableTableFileWriter.IndexLengthMonotone | storage/module-core/src/main/java/ru/fizteh/java2/vlmazlov/storage/core/io/StoreableTableFileWriter.java:50-55 | the index written for a prefix of the entries is never longer than the whole index |
| StoreableTableFileWriter.AppendPair | storage/module-core/src/main/java/ru/fizteh/java2/vlmazlov/storage/core/io/StoreableTableFileWriter.java:55-60 | one more written entry appends its record, which points at the end of the values written so far, and appends its value to the value segment |
| StoreableTableFileWriter.FlushStep | storage/module-core/src/main/java/ru/fizteh/java2/vlmazlov/storage/core/io/StoreableTableFileWriter.java:55-62 | one pass of the loop over a non-null entry puts its record at the end of the index and its value at the end of the values |
| StoreableTableFileWriter.FlushLoopStep | storage/module-core/src/main/java/ru/fizteh/java2/vlmazlov/storage/core/io/StoreableTableFileWriter.java:50-63 | each pass of the loop keeps the file equal to the layout of the entries seen so far, with the write position at the end of the index and the value offset at the end of the values |
| StoreableTableFileWriter.FlushEntry | storage/module-core/src/main/java/ru/fizteh/java2/vlmazlov/storage/core/io/StoreableTableFileWriter.java:51-62 | one pass of the loop body, skip, storeKey, seek, write and seek back, takes the file from the layout of the entries before it to the layout including it, and moves the value offset to the end of the values |
| StoreableTableFileWriter.WriteShard | storage/module-core/src/main/java/ru/fizteh/java2/vlmazlov/storage/core/io/StoreableTableFileWriter.java:45-65 | the loop of flush, over a freshly emptied file, leaves exactly the layout: the index, then a gap up to the first offset, then the values |
| StoreableTableFileWriter.Flush | storage/module-core/src/main/java/ru/fizteh/java2/vlmazlov/storage/core/io/StoreableTableFileWriter.java:41-70 | flush as written, with countFirstOffSet as the first offset, leaves that layout, and leaves no file exactly when no pending entry has a non-null value |
| StoreableTableFileWriter.FlushCorrected | storage/module-core/src/main/java/ru/fizteh/java2/vlmazlov/storage/core/io/StoreableTableFileWriter.java:41-70 | flush with the first offset counted over the written entries only leaves the index immediately followed by the values, and no file exactly when nothing is written |
| StoreableTableFileWriter.LayoutWithoutGap | storage/module-core/src/main/java/ru/fizteh/java2/vlmazlov/storage/core/io/StoreableTableFileWriter.java:47-60 | when the values start right where the index ends, the layout has no gap |
| StoreableTableFileWriter.WrittenEmptyLayout | storage/module-core/src/main/java/ru/fizteh/java2/vlmazlov/storage/core/io/StoreableTableFileWriter.java:67-69 | the layout is empty exactly when nothing is written, so the file is deleted exactly then |
| ShardFormat.ReadInt32BE | storage/module-core/src/main/java/ru/fizteh/java2/vlmazlov/storage/core/io/StoreableTableFileWriter.java:38 | a four-byte big-endian field reads as a 32-bit signed value |
| ShardFormat.KeyEnd | storage/module-core/src/main/java/ru/fizteh/java2/vlmazlov/storage/core/io/StoreableTableFileWriter.java:37 | a key ends at the first zero byte, and none comes before it |
| ShardFormat.ReadWrittenInt | storage/module-core/src/main/java/ru/fizteh/java2/vlmazlov/storage/core/io/StoreableTableFileWriter.java:38 | reading back a written offset that fits in 31 bits gives it back |
| ShardFormat.ReadWrittenRecord | storage/module-core/src/main/java/ru/fizteh/java2/vlmazlov/storage/core/io/StoreableTableFileWriter.java:35-39 | a record written for a key with no zero byte reads back as that key and offset |
| ShardFormat.ReadWrittenIndex | storage/module-core/src/main/java/ru/fizteh/java2/vlmazlov/storage/core/io/StoreableTableFileWriter.java:50-63 | the index segment reads back as one entry per written pair, in order, each with its recorded offset |
| ShardFormat.RecordsAt | storage/module-core/src/main/java/ru/fizteh/java2/vlmazlov/storage/core/io/StoreableTableFileWriter.java:55-60 | the i-th recorded offset is the first offset plus the lengths of all earlier written values |
| ShardFormat.OffsetsNondecreasing | storage/module-core/src/main/java/ru/fizteh/java2/vlmazlov/storage/core/io/StoreableTableFileWriter.java:55-60 | the recorded offsets never decrease along the index |
| ShardFormat.IndexPrefix | storage/module-core/src/main/java/ru/fizteh/java2/vlmazlov/storage/core/io/StoreableTableFileWriter.java:50-63 | the index written for a prefix of the pairs is the start of the whole index |
| ShardFormat.RecordPlaced | storage/module-core/src/main/java/ru/fizteh/java2/vlmazlov/storage/core/io/StoreableTableFileWriter.java:50-63 | in every layout flush writes, record i sits contiguously after the records before it and holds key i with value i's offset |
| ShardFormat.IndexRecordAt | storage/module-core/src/main/java/ru/fizteh/java2/vlmazlov/storage/core/io/StoreableTableFileWriter.java:50-63 | record i of the index segment lies between the ends of the indexes of the first i and the first i+1 pairs |
| ShardFormat.ValuePlaced | storage/module-core/src/main/java/ru/fizteh/java2/vlmazlov/storage/core/io/StoreableTableFileWriter.java:58-60 | in every layout flush writes, the bytes from value i's recorded offset, for its length, are exactly that value |
| ShardFormat.BlobPrefix | storage/module-core/src/main/java/ru/fizteh/java2/vlmazlov/storage/core/io/StoreableTableFileWriter.java:58-60 | the values of a prefix of the pairs start the value segment |
| ShardFormat.ValueInBlob | storage/module-core/src/main/java/ru/fizteh/java2/vlmazlov/storage/core/io/StoreableTableFileWriter.java:58-60 | value i lies in the value segment right after the values before it |
| ShardFormat.DecodeCorrectedShard | storage/module-core/src/main/java/ru/fizteh/java2/vlmazlov/storage/core/io/StoreableTableFileWriter.java:41-70 | the file the corrected flush writes reads back as exactly the written pairs, in order, when keys hold no zero byte and offsets fit in 31 bits |
| ShardFormat.ValuesReadBack | storage/module-core/src/main/java/ru/fizteh/java2/vlmazlov/storage/core/io/StoreableTableFileWriter.java:47-60 | with the values right after the index, each record's value is cut out between its offset and the next one |
| ShardFormat.ValueAt | storage/module-core/src/main/java/ru/fizteh/java2/vlmazlov/storage/core/io/StoreableTableFileWriter.java:55-60 | with the values right after the index, record i cuts out exactly value i |
| ShardFormat.FlushedNullEntryMisreads | storage/module-core/src/main/java/ru/fizteh/java2/vlmazlov/storage/core/io/StoreableTableFileWriter.java:20-55 | pending entries a to null and b to x: countFirstOffSet gives 12, but the only record ends at 6, and the file flush writes does not read back |
| ValidityChecker.Trim | storage/module-utils/src/main/java/ru/fizteh/java2/vlmazlov/storage/utils/ValidityChecker.java:224 | trim returns the part of the string between its leading and its trailing characters up to U+0020: everything cut off before and after is such a character, and a non-empty result starts and ends with a kept one |
| ValidityChecker.Utf16Length | storage/module-utils/src/main/java/ru/fizteh/java2/vlmazlov/storage/utils/ValidityChecker.java:224 | length() counts one unit per character of the Basic Multilingual Plane and two per other character, so it lies between the character count and twice that |
| ValidityChecker.ValidKeyHasVisibleChar | storage/module-utils/src/main/java/ru/fizteh/java2/vlmazlov/storage/utils/ValidityChecker.java:215-227 | every key checkTableKey accepts holds a character that trim does not strip |
| ValidityChecker.TableNameShape | storage/module-utils/src/main/java/ru/fizteh/java2/vlmazlov/storage/utils/ValidityChecker.java:200-207 | checkMultiTableName accepts a name exactly when it is 1 to 2^20 word characters |
| ValidityChecker.TableNameValid | storage/module-utils/src/main/java/ru/fizteh/java2/vlmazlov/storage/utils/ValidityChecker.java:200-207 | a name checkMultiTableName accepts is non-null and 1 to 2^20 characters long; TableNameShape gives the converse |
| ValidityChecker.CheckValueFormat | storage/module-utils/src/main/java/ru/fizteh/java2/vlmazlov/storage/utils/ValidityChecker.java:26-56 | the column walk accepts exactly a null row, or a row with as many cells as the table has columns whose every non-null cell is assignable to its column class |
| ValidityChecker.ShardOf | storage/module-utils/src/main/java/ru/fizteh/java2/vlmazlov/storage/utils/ValidityChecker.java:90-96 | the directory and file a key belongs to are inside their ranges |
| ValidityChecker.KeyStorageAffiliation | storage/module-utils/src/main/java/ru/fizteh/java2/vlmazlov/storage/utils/ValidityChecker.java:90-96 | an empty key or a zero directory count throws, and only those or a zero file count do; a passing directory number lies in [0, 128] and below the directory count, and a passing file number below a positive file count |
| ValidityChecker.AffiliationOfHash | storage/module-utils/src/main/java/ru/fizteh/java2/vlmazlov/storage/utils/ValidityChecker.java:92-93 | Java arithmetic on the hash: a zero count throws, and a passing directory number is at most the hash and below the directory count, a passing file number below a positive file count |
| ValidityChecker.AffiliationExactlyOne | storage/module-utils/src/main/java/ru/fizteh/java2/vlmazlov/storage/utils/ValidityChecker.java:90-96 | with positive partition counts a key passes exactly for its own directory and file, taken from the absolute value of its first signed byte; the check never throws then |
| ValidityChecker.AffiliationOfHashExactlyOne | storage/module-utils/src/main/java/ru/fizteh/java2/vlmazlov/storage/utils/ValidityChecker.java:92-93 | given a hash, the check passes exactly for directory hash mod dirs and file (hash / files) mod files, and never throws |
| ValidityChecker.CheckMultiStoreableTableRoot | storage/module-utils/src/main/java/ru/fizteh/java2/vlmazlov/storage/utils/ValidityChecker.java:132-172 | the one-pass walk over the entries accepts exactly a directory whose entries are signature.tsv, size.tsv or non-empty directories of non-empty files, with a signature.tsv present |
| ValidityChecker.FirstToken | storage/module-utils/src/main/java/ru/fizteh/java2/vlmazlov/storage/utils/ValidityChecker.java:63 | the first token of a split on dots is the longest dot-free prefix |
| ValidityChecker.FirstTokenStopsAtDot | storage/module-utils/src/main/java/ru/fizteh/java2/vlmazlov/storage/utils/ValidityChecker.java:63 | the first token ends at the first dot |
| ValidityChecker.StrictNameParses | storage/module-utils/src/main/java/ru/fizteh/java2/vlmazlov/storage/utils/ValidityChecker.java:59-65 | for a name of one or two digits, a literal dot and the extension, the first token parses as the name's number |
| ValidityChecker.DecimalBound | storage/module-utils/src/main/java/ru/fizteh/java2/vlmazlov/storage/utils/ValidityChecker.java:59 | one or two digits denote a number below 100 |
| ValidityChecker.CheckStorageDirAsWritten | storage/module-utils/src/main/java/ru/fizteh/java2/vlmazlov/storage/utils/ValidityChecker.java:58-72 | as written, a directory passes exactly when its name matches the pattern with the unescaped dot, its first token parses, and it is a non-empty directory, whatever the bound; it throws exactly when the name matches but the token does not parse or the path is no directory |
| ValidityChecker.CheckStorageFileAsWritten | storage/module-utils/src/main/java/ru/fizteh/java2/vlmazlov/storage/utils/ValidityChecker.java:74-88 | as written, a file passes exactly when its name matches the pattern with the unescaped dot, its first token parses, and it is non-empty, whatever the bound; it throws exactly when the name matches but the token does not parse |
| ValidityChecker.CheckStorageDir | storage/module-utils/src/main/java/ru/fizteh/java2/vlmazlov/storage/utils/ValidityChecker.java:58-72 | the intended check passes exactly for a name of one or two digits, a literal dot and dir, whose number is below the bound, on a non-empty directory |
| ValidityChecker.CheckStorageFile | storage/module-utils/src/main/java/ru/fizteh/java2/vlmazlov/storage/utils/ValidityChecker.java:74-88 | the intended check passes exactly for a name of one or two digits, a literal dot and dat, whose number is below the bound, on a non-empty file; it never throws |
| ValidityChecker.AsWrittenAcceptsIntended | storage/module-utils/src/main/java/ru/fizteh/java2/vlmazlov/storage/utils/ValidityChecker.java:58-88 | every directory or file the intended checks accept is accepted as written too |
| ValidityChecker.StorageChecksIgnoreBound | storage/module-utils/src/main/java/ru/fizteh/java2/vlmazlov/storage/utils/ValidityChecker.java:65 | as written, the bound given to the storage checks never changes their outcome |
| ValidityChecker.OutOfRangeDirAccepted | storage/module-utils/src/main/java/ru/fizteh/java2/vlmazlov/storage/utils/ValidityChecker.java:65 | as written, directory 99.dir passes with a bound of 16; the intended check rejects it |
| ValidityChecker.UnescapedDotCrashes | storage/module-utils/src/main/java/ru/fizteh/java2/vlmazlov/storage/utils/ValidityChecker.java:59-63 | as written, directory 3xdir matches the pattern, and parsing its first token then throws; the intended check rejects it |
| Wrappers.SignedByte | storage/module-utils/src/main/java/ru/fizteh/java2/vlmazlov/storage/utils/ValidityChecker.java:92 | Java's signed view of a byte lies in [-128, 128) and agrees with the byte modulo 256 |

The predicates `KeyValid` (`checkTableKey`, storage/module-utils/src/main/java/ru/fizteh/java2/vlmazlov/storage/utils/ValidityChecker.java:215-227), `OffsetValid`
(`checkTableOffset`, storage/module-utils/src/main/java/ru/fizteh/java2/vlmazlov/storage/utils/ValidityChecker.java:229-233), `ValueValid` (`checkTableValue`, storage/module-utils/src/main/java/ru/fizteh/java2/vlmazlov/storage/utils/ValidityChecker.java:235-239),
`SignatureValid` (`checkStoreableTableSignature`, storage/module-utils/src/main/java/ru/fizteh/java2/vlmazlov/storage/utils/ValidityChecker.java:241-245), `ColumnTypeValid`
(`checkColumnType`, storage/module-utils/src/main/java/ru/fizteh/java2/vlmazlov/storage/utils/ValidityChecker.java:20-24) and `DataBaseRootValid` (`checkMultiTableDataBaseRoot`,
storage/module-utils/src/main/java/ru/fizteh/java2/vlmazlov/storage/utils/ValidityChecker.java:98-114) are the checks themselves. They are used in the contracts above.
`KeyValid` bounds the trimmed key by its length in UTF-16 units (`Utf16Length`), as `String.length()` does.

## Left out

- Threads and locks. The `ThreadLocal` overlay, the read-write lock and `synchronized` are
  dropped; one transaction context is modelled at a time.
- Filesystem side effects: `mkdir` and `deleteQuietly` in the providers, and `file.delete()`
  in `flush`. A directory tree is an abstract `Node` value given as a parameter.
- `serialize`/`deserialize` of `StoreableTableProvider`. They go through an XML codec that
  is not part of this model.
- `read()`/`write()` of the provider, and writing the signature file. Both are I/O; whether
  the signature write succeeds is a parameter of `CreateTable`, and so is whether the
  `StoreableTable` constructor succeeds.
- `StoreableTableFileManager.getTableSignature` is not part of this model. What it yields is
  a parameter of `LoadTable`/`GetTable`; an error there also stands for a failure of the
  `StoreableTable` constructor it feeds, which `getTable` rethrows the same way.
- `checkTableSize`. It depends on `Scanner` token parsing of a file.
- `checkMultiTableRoot` and `checkTableRoot`. They are not used by the modelled core.
- `StoreableTable` is not part of this model:
  - `getCommited` is a lookup in the committed map;
  - `storeOnCommit` is the `StoreOutcome` parameter of `Commit`;
  - `size`, `commitedSize`, `checkRoot` and `clone` are left out;
  - closing a table only flips its open flag.
- `TypeName` is not part of this model. The supported column classes are taken to be
  Integer, Long, Byte, Float, Double, Boolean and String. `isAssignableFrom` is equality, or
  a declared class of Object.
- String encoding. `getBytes("UTF-8")` is abstracted away: the writer takes keys and values
  as bytes, and the affiliation check takes the key's bytes.
- `StoreableTableProviderFactory` and `WrongCommandException` are thin wrappers and are
  left out.
- The iteration order of the pending-entry `HashMap` is a parameter of `Flush`. It can be
  any order that visits each entry once.
- StoreableTableFileWriter.Flush: requires `countFirstOffSet` to stay below 2^31. The `int` sum
  wraps modulo 2^32: a sum in [2^31, 2^32) wraps to a negative offset and the following `seek`
  throws, while a sum from 2^32 on can wrap to a non-negative offset that `seek` accepts, so
  the values land at wrong places. Neither outcome is modelled. The `(int)` cast of later
  offsets is modelled by `Int32BE` taking its argument modulo 2^32.
- StoreableTableFileWriter.Flush: the IOException paths of opening and writing the file are
  not modelled.
- StoreableTableFileWriter.WriteByte: the bytes a `RandomAccessFile` is extended with
  before a write past its end are unspecified. They are the parameter `hole`.
- StoreableTableProvider.CreateForValues: `TableRow` is not part of this model. Its
  `setColumnAt` is taken to throw `ColumnFormatException` for a value exactly when
  `checkValueFormat` would reject it in that column, and the first such value stops the loop.
- ValidityChecker.KeyValid: a Dafny string holds Unicode scalar values, so a key with a lone
  surrogate code unit cannot be expressed; lengths are counted in UTF-16 units as Java does.
- ShardFormat.Decode: the reader is not part of the source. It follows the file layout the
  writer produces: the index runs up to the first recorded offset, and each value runs up
  to the next offset.
- ShardFormat.DecodeCorrectedShard: keys containing a zero byte are excluded from the round
  trip, because the format ends a key at its first zero byte. Offsets are required to fit in
  31 bits.

## Findings

| source | as written | input that shows it | evidently intended | confidence | as-written member | corrected member |
|---|---|---|---|---|---|---|
| storage/module-utils/src/main/java/ru/fizteh/java2/vlmazlov/storage/utils/ValidityChecker.java:65 | the range test `n >= maxValue && n < 0` can never hold, so no shard number is rejected (also at line 81) | directory `99.dir` with one non-empty file, bound 16: accepted | reject numbers outside [0, maxValue): `n >= maxValue \|\| n < 0` | high, not executed | ValidityChecker.OutOfRangeDirAccepted | ValidityChecker.CheckStorageDir |
| storage/module-utils/src/main/java/ru/fizteh/java2/vlmazlov/storage/utils/ValidityChecker.java:59 | the pattern `\d\d?.dir` leaves the dot unescaped, so any character passes as the separator (also at line 75) | directory `3xdir`: matches, then `Integer.parseInt("3xdir")` throws NumberFormatException | a literal dot, `\d\d?\.dir`, so the name fails the check | high, not executed | ValidityChecker.UnescapedDotCrashes | ValidityChecker.CheckStorageDir |
| storage/module-core/src/main/java/ru/fizteh/java2/vlmazlov/storage/core/io/StoreableTableFileWriter.java:20-29 | countFirstOffSet reserves index room for null-valued entries, which flush then skips, leaving a gap between the index and the first value | pending `a` to null and `b` to `x`: the only record ends at byte 6 but points at 12; a reader that takes the first offset as the index end reads the gap as records | reserve room only for entries with a value, so the values start where the index ends | medium, not executed | ShardFormat.FlushedNullEntryMisreads | StoreableTableFileWriter.FlushCorrected |
