# Heap file storage engine, modelled in Dafny

This project models the `disk_store` package of a small Java database. The
package stores records of a fixed schema in a heap file of 4096-byte blocks:

- Block 0 holds the metadata, including the serialized schema.
- Block 1 holds the block bitmap.
- Every later block is a data block: a record bitmap followed by fixed-size record slots.

Records can be found in two ways. A linear scan goes through the `DBIterator`.
Alternatively a per-field index maps an int value to the blocks holding it;
the index is either an ordered list of sorted lists (`OrdIndex`) or a hash map
(`HashIndex`).

The model follows the code file by file:

| file | module | what it holds |
|---|---|---|
| `bytes.dfy` | `Bytes` | the big-endian `putInt`/`getInt` of `java.nio.ByteBuffer` on byte sequences and arrays, with their round trips |
| `stringutils.dfy` | `StringUtils` | length-prefixed strings; `serializeString` as a method on an array, proved equal to the function `WriteString` |
| `fields.dfy` | `Fields` | `IntType`/`StringType` and `IntField`/`StringField` as two datatypes; lengths, blank fields, equality, serialization |
| `bitmap.dfy` | `Bitmaps` | the `Bitmap` class over a `bv8` array, viewed as a sequence of bits (`Bits()`) |
| `schemas.dfy` | `Schemas` | the `Schema` class; its on-disk form as the functions `WriteSchema`/`ReadSchema`, with a round trip |
| `records.dfy` | `Records` | the `Record` class, its serialization (`WriteFields`/`ReadFields`), equality and `blankRecord` |
| `sortedlists.dfy` | `SortedLists` | the `Collections.sort` and `indexOf`/`remove` steps the indexes use |
| `indexmodel.dfy` | `IndexModel` | what an index means: a map from key to the multiset of block numbers inserted and not deleted |
| `ordindex.dfy` | `OrdIndexes` | `OrdIndex` and its three recursive binary searches, proved to refine `IndexModel` |
| `hashindex.dfy` | `HashIndexes` | `HashIndex`, proved to refine `IndexModel` |
| `indexfacts.dfy`, `indexscenarios.dfy` | `IndexFacts`, `IndexScenarios` | the expected values of the ordered-index unit tests, proved on the model and on the class |
| `heaplayout.dfy` | `HeapLayout` | `setRecordLayout`/`recordLocation` arithmetic |
| `heaptables.dfy` | `HeapTables` | the file's data blocks as values (`Table`), plus the functions that say what a scan, an insert and a delete do to them |
| `heapscans.dfy`, `heapcounts.dfy`, `heapupdates.dfy`, `heaplookups.dfy` | `HeapScans`, `HeapCounts`, `HeapUpdates`, `HeapLookups` | lemmas about those functions: scan order, index maintenance, the cases of insert and delete, indexed lookup versus linear search |
| `heapdb.dfy` | `HeapEngine` | the `HeapDB` class and its `DBIterator`, each method proved against the `HeapTables` functions on the table its file holds |
| `findings.dfy` | `HeapFindings` | the two places where the engine's code as written departs from what it evidently intends |
| `aliasing.dfy` | `HeapAliasing` | the unindexed `lookup` as written, looping over a `DBIterator` and collecting its shared record |

`HeapDB` keeps the Java object structure:

- The block bitmap and the record bitmap are `Bitmap` objects over the block buffers.
- The indexes are real `OrdIndex`/`HashIndex` objects in an array.
- `DBIterator` walks block by block and slot by slot, and hands out one aliased `Record`.

Three ghost views let the methods be specified:

- The file's blocks are abstracted to `file: map<int, Block>`, where a block is a record bitmap plus the rows in its slots.
- `Table()` reads that map as slots, each `None` or `Some(row)`.
- `models` records the `IndexModel` value that each field's index must hold.

`Valid()` ties these together:

- The first `nValid` blocks are exactly those marked in the block bitmap.
- Every index agrees with the table: for every key and block, the index holds that block as many times as the block holds live records with that key.

## Model

| member | source | states |
|---|---|---|
| Bytes.DecodeEncodeInt | disk_store/IntField.java:19-26 | reading back the four bytes written for a 32-bit int gives that int |
| Bytes.EncodeDecodeInt | disk_store/IntField.java:19-26 | any four bytes are the encoding of the int they decode to |
| Bytes.PutInt | disk_store/IntField.java:19-21 | putInt writes the int's four big-endian bytes at the index when they fit, and otherwise throws IndexOutOfBounds leaving the buffer unchanged |
| Bytes.GetInt | disk_store/IntField.java:24-26 | getInt succeeds exactly when four bytes are available at the index, and otherwise throws IndexOutOfBounds |
| Bytes.GetPutInt | disk_store/IntField.java:19-26 | getInt after putInt at the same index returns the value put |
| StringUtils.WriteString | disk_store/StringUtils.java:8-18 | serializeString succeeds exactly when the length prefix and the bytes fit; it then writes length then bytes and leaves every other byte alone |
| StringUtils.SerializeString | disk_store/StringUtils.java:8-18 | the method's outcome and the array afterwards are exactly what WriteString describes, including the partial write before an overflow |
| StringUtils.DeserializeString | disk_store/StringUtils.java:21-31 | deserializeString fails exactly when the index or the length prefix is outside the buffer, the length is negative, or fewer bytes than the length remain |
| StringUtils.DeserializeSerializeString | disk_store/StringUtils.java:8-31 | a string written at an index is read back unchanged |
| Fields.NewStringType | disk_store/StringType.java:16-24 | the constructor as written: it refuses exactly 0 and limits above 64 with IllegalArgument, and accepts negative limits |
| Fields.NewStringTypeChecked | disk_store/StringType.java:16-24 | the constructor with the intended check: it accepts exactly limits from 1 to 64, and every type it makes is valid |
| Fields.NegativeLimitHasNoBlank | disk_store/StringType.java:16-31 | limit -1 is accepted as written, its type has no blank field, and the checked constructor refuses it |
| Fields.NewStringField | disk_store/StringField.java:9-15 | a StringField is made exactly when the string is within the type's limit, and it keeps the string and the type |
| Fields.BlankField | disk_store/StringType.java:29-31 | blankField is IntField(0) for IntType and the empty string of the same type for a StringType; it fails only for a negative limit |
| Fields.BlankFieldOfValidType | disk_store/StringType.java:29-31 | every valid type has a blank field |
| Fields.TypeEquals | disk_store/StringType.java:34-40 | two types are equal exactly when both are IntType, or both are StringTypes with the same limit |
| Fields.TypeHashAgrees | disk_store/StringType.java:49-52 | equal types have equal hash codes |
| Fields.FieldEqualsProperties | disk_store/StringField.java:34-40 | field equality is an equivalence; strings compare by content; equal fields of one type are the same value |
| Fields.WriteField | disk_store/StringField.java:20-22 | serialize succeeds exactly when the field's encoding fits at the index |
| Fields.SerializeField | disk_store/IntField.java:19-21 | the method's outcome and the array afterwards are exactly WriteField |
| Fields.DeserializeField | disk_store/StringField.java:25-27 | deserialize yields a field of the type of the field it replaces |
| Fields.DeserializeSerializeField | disk_store/IntField.java:19-26 | a field written at an index reads back unchanged into any field of its type |
| Bitmaps.SetByteBitEffect | disk_store/Bitmap.java:93-100 | setting bit i of a byte sets that bit and leaves the other seven |
| Bitmaps.FullByte | disk_store/Bitmap.java:72-85 | a byte equals ONES exactly when all its eight bits are set |
| Bitmaps.Bitmap.constructor | disk_store/Bitmap.java:21-24 | the bitmap views the first numBytes bytes of the given array |
| Bitmaps.Bitmap.Whole | disk_store/Bitmap.java:27-29 | the bitmap views the whole array |
| Bitmaps.Bitmap.Zeroed | disk_store/Bitmap.java:32-34 | a new bitmap of numBytes bytes has every bit clear |
| Bitmaps.Bitmap.Size | disk_store/Bitmap.java:37 | size is the number of bits viewed |
| Bitmaps.Bitmap.Clear | disk_store/Bitmap.java:40-44 | clear makes every bit 0 and leaves the bytes past numBytes alone |
| Bitmaps.Bitmap.GetBit | disk_store/Bitmap.java:47-56 | getBit returns bit i when i < size, and otherwise throws IllegalArgument |
| Bitmaps.Bitmap.SetBit | disk_store/Bitmap.java:59-68 | setBit changes exactly bit i when i < size, and otherwise throws IllegalArgument with nothing changed |
| Bitmaps.Bitmap.FirstZero | disk_store/Bitmap.java:72-85 | firstZero is the lowest clear bit, or -1 exactly when every bit is set |
| Schemas.IndexOf | disk_store/Schema.java:59 | the first position of a name, or -1 exactly when the name is absent |
| Schemas.Schema.constructor | disk_store/Schema.java:23-29 | the new schema has the one int key field, under any name |
| Schemas.Schema.Checked | disk_store/Schema.java:23-29 | the constructor with the name check add makes: it refuses a key name over 24 characters |
| Schemas.Schema.Add | disk_store/Schema.java:36-42 | add appends the field exactly when the name has at most 24 characters, and otherwise throws IllegalArgument with the schema unchanged |
| Schemas.Schema.GetKeyIndex | disk_store/Schema.java:54 | the key is field 0 and is an int |
| Schemas.Schema.GetFieldIndex | disk_store/Schema.java:59 | the first field with that name, or -1 exactly when there is none |
| Schemas.Schema.GetType | disk_store/Schema.java:66-71 | the type of field i when i is in range, and otherwise an error |
| Schemas.Schema.GetTypeOf | disk_store/Schema.java:79-82 | a type exactly when the name is in the schema, and then that name's type |
| Schemas.Schema.GetName | disk_store/Schema.java:89-94 | the name of field i when i is in range |
| Schemas.Schema.GetLen | disk_store/Schema.java:116-122 | a record's length is the sum of its field types' lengths |
| Schemas.Schema.Serialize | disk_store/Schema.java:127-155 | the outcome and the array afterwards are exactly WriteSchema: a count, then a 28-byte name slot and a type tag per field |
| Schemas.Schema.ReadField | disk_store/Schema.java:166-187 | one pass of deserialize's loop: its result is the next step of ReadEntries, a new schema for the first field and the same schema extended after it |
| Schemas.Schema.Deserialize | disk_store/Schema.java:160-190 | the result is exactly ReadSchema: null for no fields, an error for a bad tag or a string key, and otherwise the names and types read |
| Schemas.SchemaRoundTrip | disk_store/Schema.java:127-190 | a schema whose names fit their slots is read back as the same names and types |
| Schemas.SchemaFootprint | disk_store/Schema.java:127-155 | serialize changes no byte outside its count and entries |
| Schemas.LongKeyNameCorrupted | disk_store/Schema.java:23-29 | a 25-character key name, which the constructor accepts, does not survive serialize and deserialize |
| Records.Record.constructor | disk_store/Record.java:25-31 | the record holds the given fields and schema |
| Records.Record.New | disk_store/Record.java:25-31 | a record is made exactly when the field count matches the schema, and otherwise IllegalArgument is thrown |
| Records.Record.Get | disk_store/Record.java:52-54 | field i when i is in range, and otherwise IndexOutOfBounds |
| Records.Record.Set | disk_store/Record.java:56-62 | set replaces field i exactly when i is in range and the type matches, and otherwise throws with the record unchanged; conforming records stay conforming |
| Records.Record.GetKey | disk_store/Record.java:68-75 | getKey is field 0's value when it is an int field, and otherwise throws IllegalState |
| Records.Record.Serialize | disk_store/Record.java:82-87 | the outcome and the array afterwards are exactly WriteFields: the fields in order, each at its type's length |
| Records.Record.Deserialize | disk_store/Record.java:94-99 | the fields and outcome afterwards are exactly ReadFields from the record's own field types |
| Records.Record.Equals | disk_store/Record.java:106-125 | equals holds exactly for a non-null record with pairwise equal field values |
| Records.BlankRecord | disk_store/Schema.java:106-113 | blankRecord succeeds exactly when every type has a blank field, giving a fresh record that conforms to the schema |
| Records.RecordRoundTrip | disk_store/Record.java:82-99 | a record written at an index is read back with the same values by a record of the same types |
| Records.RecordFootprint | disk_store/Record.java:82-87 | serialize changes no byte outside the record's length |
| Records.FieldsLenOfTypes | disk_store/Schema.java:116-122 | a record of the schema's types takes getLen bytes |
| Records.SameValuesProperties | disk_store/Record.java:106-125 | record equality is an equivalence, and equal records of the same types have the same fields |
| SortedLists.SortAppended | disk_store/HashIndex.java:49-63 | adding a block number and sorting gives an ascending list holding the old numbers plus the new one |
| SortedLists.AscendingUnique | disk_store/HashIndex.java:55 | two ascending lists with the same elements are equal, so the sort's result is determined |
| SortedLists.RemoveOne | disk_store/HashIndex.java:71-74 | removing one position removes one occurrence of its element and keeps the list ascending |
| SortedLists.IndexOf | disk_store/HashIndex.java:71 | indexOf is the first position of the element, or -1 exactly when it is absent |
| IndexModel.Insert | disk_store/DBIndex.java:16-22 | insert adds one occurrence of the block under the key and changes no other key |
| IndexModel.Delete | disk_store/DBIndex.java:24-30 | delete removes one occurrence of the block under the key, if there is one, and changes no other key |
| IndexModel.Distinct | disk_store/HashIndex.java:29-46 | the block list lookup returns has no repeats and holds exactly the blocks given |
| IndexModel.TotalInsert | disk_store/DBIndex.java:16-22 | insert grows the index's size by one |
| IndexModel.TotalDelete | disk_store/DBIndex.java:24-30 | delete shrinks the size by one exactly when the block was present under the key |
| IndexModel.DeleteInsert | disk_store/DBIndex.java:16-30 | delete undoes insert |
| IndexModel.LookupInsert | disk_store/DBIndex.java:16-39 | after insert, lookup of that key also finds the block, and other keys are unaffected |
| IndexModel.LookupNonEmpty | disk_store/DBIndex.java:32-39 | a key is in the index exactly when its lookup is non-empty |
| OrdIndexes.AddSearchFinds | disk_store/OrdIndex.java:52-72 | on ascending keys, addSearch returns the position where the key is, or where it belongs |
| OrdIndexes.BinarySearchFinds | disk_store/OrdIndex.java:78-99 | on ascending keys, binarySearch returns -1 exactly when the key is absent, and otherwise its position |
| OrdIndexes.DeleteSearchFinds | disk_store/OrdIndex.java:106-127 | on an ascending block list, deleteSearch returns -1 exactly when the block is absent, and otherwise its position |
| OrdIndexes.OccurrencesTotal | disk_store/OrdIndex.java:258-269 | the number of block entries in the list of lists is the model's size |
| OrdIndexes.OrdIndex.constructor | disk_store/OrdIndex.java:38-42 | a new index is empty |
| OrdIndexes.OrdIndex.Lookup | disk_store/OrdIndex.java:131-168 | lookup returns each block stored under the key exactly once |
| OrdIndexes.OrdIndex.Insert | disk_store/OrdIndex.java:172-222 | insert refines IndexModel.Insert and keeps the keys ascending and each block list sorted |
| OrdIndexes.OrdIndex.InsertNewKey | disk_store/OrdIndex.java:193-200 | a new key's list [key, block] goes in at the position addSearch found |
| OrdIndexes.OrdIndex.AddToKey | disk_store/OrdIndex.java:204-208 | an existing key's block list gets the block and is re-sorted |
| OrdIndexes.OrdIndex.Delete | disk_store/OrdIndex.java:225-252 | delete refines IndexModel.Delete, dropping a key whose list becomes empty |
| OrdIndexes.OrdIndex.RemoveBlock | disk_store/OrdIndex.java:240-250 | removing the found block entry is one IndexModel.Delete |
| OrdIndexes.OrdIndex.Size | disk_store/OrdIndex.java:258-269 | size is the number of (key, block) occurrences |
| HashIndexes.HashIndex.constructor | disk_store/HashIndex.java:24-26 | a new index is empty |
| HashIndexes.HashIndex.Lookup | disk_store/HashIndex.java:29-46 | lookup returns each block stored under the key exactly once |
| HashIndexes.HashIndex.Insert | disk_store/HashIndex.java:49-63 | insert appends and sorts the key's list, or starts a one-block list, and refines IndexModel.Insert |
| HashIndexes.HashIndex.Delete | disk_store/HashIndex.java:66-85 | delete refines IndexModel.Delete, dropping a key whose list becomes empty |
| HashIndexes.HashIndex.RemoveAt | disk_store/HashIndex.java:71-82 | removing the found position is one IndexModel.Delete |
| HashIndexes.HashIndex.Size | disk_store/HashIndex.java:99-107 | size is the number of (key, block) occurrences |
| IndexScenarios.Agree | disk_store/DBIndex.java:16-39 | after any sequence of inserts and deletes, both index classes return the same blocks for a key and report the same size |
| IndexScenarios.Setup | test/OrdIndexTest.java:19-31 | the test fixture's inserts give the expected index contents |
| IndexScenarios.LookupScenario | test/OrdIndexTest.java:34-49 | lookups of 1, 2, 4 and 6 give {1,2}, {1,2,3}, {2} and nothing |
| IndexScenarios.DeleteScenario | test/OrdIndexTest.java:52-66 | the sizes after the test's deletes are 6, 5 and 5, and the deleted key is gone |
| IndexScenarios.DeleteLookupScenario | test/OrdIndexTest.java:69-82 | the lookups after re-inserting and deleting give {1,2,3}, {1,2,3} and {2,3} |
| IndexFacts.SetupTotal | test/OrdIndexTest.java:19-31 | the fixture holds seven block entries |
| IndexFacts.SetupLookup2 | test/OrdIndexTest.java:34-49 | key 2 is in blocks 1, 2 and 3 |
| IndexFacts.AfterDelete11Total | test/OrdIndexTest.java:52-66 | after deleting (2,1) and (1,1) the size is 5 |
| IndexFacts.ReinsertLookups | test/OrdIndexTest.java:69-82 | re-inserting (2,1) and deleting it twice leaves key 2 in blocks 2 and 3 |
| HeapLayout.RecMapSize | disk_store/HeapDB.java:159 | the record bitmap has at most one bit per record slot |
| HeapLayout.RecsFit | disk_store/HeapDB.java:147-160 | the records of a block plus one bit each fit in the block minus one byte |
| HeapLayout.SlotInsideBlock | disk_store/HeapDB.java:163-165 | every slot the record bitmap covers lies inside the block, after the bitmap |
| HeapLayout.SlotsIffSmallRecords | disk_store/HeapDB.java:147-160 | a block has a usable slot exactly when a record is at most 511 bytes |
| HeapLayout.ThreeIntLayout | disk_store/HeapDB.java:147-160 | three int fields give 337 records per block, a 42-byte bitmap and 336 usable slots |
| HeapLayout.LargeRecordLayout | disk_store/HeapDB.java:147-160 | 512-byte records give 7 records per block but a 0-byte bitmap, so no usable slot |
| HeapTables.FirstFree | disk_store/HeapDB.java:196 | the first empty slot at or after r, or -1 exactly when every such slot is live |
| HeapTables.FirstFit | disk_store/HeapDB.java:192-222 | the first valid block with an empty slot, or none exactly when every valid block is full |
| HeapTables.Empty | disk_store/HeapDB.java:232 | a newly initialised block has every slot empty |
| HeapScans.LiveExactly | disk_store/HeapDB.java:492-524 | the iterator visits exactly the live slots of the valid blocks, in block and slot order |
| HeapScans.HitsMembers | disk_store/HeapDB.java:331-337 | the scan keeps exactly the visited slots whose field matches the key |
| HeapScans.KeyPresentIff | disk_store/HeapDB.java:185 | a key is present exactly when some live record in a valid block has it |
| HeapScans.FindKeyFinds | disk_store/HeapDB.java:245-253 | delete's search finds a slot exactly when the key is present, and that slot is live and holds the key |
| HeapCounts.IndexAfterPlace | disk_store/HeapDB.java:208-213 | inserting a placed record's value and block keeps an agreeing index agreeing |
| HeapCounts.IndexAfterClear | disk_store/HeapDB.java:256-270 | deleting the cleared record's own value and block keeps an agreeing index agreeing |
| HeapCounts.IndexAfterNewBlock | disk_store/HeapDB.java:231-235 | an empty new block leaves an agreeing index agreeing |
| HeapCounts.BuiltCounts | disk_store/HeapDB.java:429-443 | the index built so far holds each block as often as the records scanned so far that have the key |
| HeapCounts.BuiltAll | disk_store/HeapDB.java:422-446 | after the whole scan, the index counts every record of every block; built from empty, it agrees with the table |
| HeapUpdates.InsertCases | disk_store/HeapDB.java:183-237 | insert refuses a present key; otherwise it places the row at the first fit, or at slot 0 of a new block; it is full only when all blocks are marked or blocks have no slots |
| HeapUpdates.InsertDuplicateIff | disk_store/HeapDB.java:185-187 | insert returns false exactly when the key is present |
| HeapUpdates.InsertPlacedWhenRoom | disk_store/HeapDB.java:192-220 | with the key absent and a valid block with room, insert places the row there |
| HeapUpdates.InsertPlacedWrites | disk_store/HeapDB.java:197-202 | a placed row is live at the reported slot with its values, and size grows by one |
| HeapUpdates.InsertKeeps | disk_store/HeapDB.java:183-237 | insert keeps the primary keys unique and the records of the schema's types |
| HeapUpdates.InsertFullMeans | disk_store/HeapDB.java:225-229 | IllegalState is thrown only when every block is marked and every slot of every block is live, or blocks have no slots |
| HeapUpdates.DeleteRemoves | disk_store/HeapDB.java:240-279 | with unique keys, delete clears the one record with the key, the key is then absent, and size shrinks by one |
| HeapUpdates.LiveCountPlace | disk_store/HeapDB.java:174-180 | placing a row in an empty slot grows size by one |
| HeapUpdates.LiveCountClear | disk_store/HeapDB.java:174-180 | clearing a live slot shrinks size by one |
| HeapLookups.GatherCovers | disk_store/HeapDB.java:321-329 | collecting from distinct blocks that cover every hit gives the same records, as a multiset, as the block-ordered scan |
| HeapLookups.IndexListsMatches | disk_store/HeapDB.java:323 | an agreeing index lists a block for a key exactly when that block has a record with the key |
| HeapLookups.IndexedLookupAgrees | disk_store/HeapDB.java:321-338 | the indexed path returns the same records as the linear search, up to order |
| HeapLookups.ScanExactly | disk_store/HeapDB.java:330-338 | the linear search returns only matching records, and every matching live record |
| HeapLookups.KeyScanUnique | disk_store/HeapDB.java:289-295 | with unique keys, the search on the key field finds at most the one record delete would find |
| HeapLookups.KeyLookupUnique | disk_store/HeapDB.java:289-295 | any lookup result on the key field with the same multiset is that same sequence |
| HeapEngine.IndexInsert | disk_store/DBIndex.java:16-22 | either index class inserts as IndexModel.Insert |
| HeapEngine.IndexDelete | disk_store/DBIndex.java:24-30 | either index class deletes as IndexModel.Delete |
| HeapEngine.IndexLookup | disk_store/DBIndex.java:32-39 | either index class returns each block under the key exactly once |
| HeapEngine.NewBlockMap | disk_store/HeapDB.java:92-97 | the new block bitmap has exactly the metadata and bitmap blocks marked |
| HeapEngine.HeapDB.constructor | disk_store/HeapDB.java:78-107 | a new database is valid, has no data blocks and no indexes |
| HeapEngine.HeapDB.WriteRecord | disk_store/HeapDB.java:199-202 | writing a row into an empty slot and setting its bit is Place on the table |
| HeapEngine.HeapDB.ClearRecord | disk_store/HeapDB.java:256-257 | clearing the slot's bit and writing the block back is Clear on the table |
| HeapEngine.HeapDB.NewBlock | disk_store/HeapDB.java:231-235 | the first unmarked block becomes a marked block with every slot empty |
| HeapEngine.HeapDB.InsertValues | disk_store/HeapDB.java:208-213 | every field with an index gets the record's value under the block, and nothing else changes |
| HeapEngine.HeapDB.DeleteValues | disk_store/HeapDB.java:262-270 | every field with an index loses the deleted record's own value under its block |
| HeapEngine.HeapDB.FindRoom | disk_store/HeapDB.java:192-222 | insert's scan finds exactly FirstFit over the valid blocks, and leaves that block in the buffer |
| HeapEngine.HeapDB.LookupInBlock | disk_store/HeapDB.java:347-369 | lookupInBlock returns the block's matching records in slot order |
| HeapEngine.HeapDB.CollectBlock | disk_store/HeapDB.java:354-367 | the slot loop of lookupInBlock collects exactly the block's matching records |
| HeapEngine.HeapDB.IndexedLookup | disk_store/HeapDB.java:321-329 | through an agreeing index, lookup returns the records the linear search returns, up to order |
| HeapEngine.HeapDB.ScanLookup | disk_store/HeapDB.java:330-338 | the linear search returns a copy of each matching record in file order, and throws ClassCast on a string field as soon as a record exists |
| HeapEngine.HeapDB.Lookup | disk_store/HeapDB.java:298-343 | an unknown field throws IllegalArgument; an indexed field gives the scan's records up to order; any other field gives the scan's result |
| HeapEngine.HeapDB.IndexedPath | disk_store/HeapDB.java:321-329 | the indexed branch returns the scan's records up to order |
| HeapEngine.HeapDB.ScanPath | disk_store/HeapDB.java:330-338 | the unindexed branch returns ScanResult over the valid blocks |
| HeapEngine.HeapDB.LookupKey | disk_store/HeapDB.java:289-295 | lookup(key) returns a record exactly when the key is present, and then the values of the record holding it, as the intended copying search gives them |
| HeapEngine.HeapDB.Delete | disk_store/HeapDB.java:240-279 | delete returns whether the key was present, clears the first slot holding it, and keeps the indexes agreeing |
| HeapEngine.HeapDB.FindKeySlot | disk_store/HeapDB.java:245-253 | delete's search stops at the first live slot holding the key |
| HeapEngine.HeapDB.RemoveAt | disk_store/HeapDB.java:256-270 | clearing a live slot and taking its record out of the indexes keeps the database valid |
| HeapEngine.HeapDB.Insert | disk_store/HeapDB.java:183-237 | insert does exactly what InsertSpec says: false with nothing changed for a present key, true with the row placed, or IllegalState when full |
| HeapEngine.HeapDB.Store | disk_store/HeapDB.java:189-236 | insert after the duplicate check does what InsertSpec says |
| HeapEngine.HeapDB.Extend | disk_store/HeapDB.java:224-236 | with no room in any valid block, insert takes a new block or throws IllegalState as InsertSpec says |
| HeapEngine.HeapDB.Retry | disk_store/HeapDB.java:231-236 | initialising the new block and retrying does what InsertSpec says |
| HeapEngine.HeapDB.FirstUnmarked | disk_store/HeapDB.java:225 | the first unmarked block is the next block after the valid ones, or -1 when all are used |
| HeapEngine.HeapDB.Size | disk_store/HeapDB.java:174-180 | size is the number of live records |
| HeapEngine.HeapDB.CountLive | disk_store/HeapDB.java:175-179 | counting the iterator's records gives the number of live records |
| HeapEngine.HeapDB.InitializeIndex | disk_store/HeapDB.java:422-446 | a null index throws IllegalArgument; otherwise every live record's value and block is added, so an index built from empty agrees with the table |
| HeapEngine.HeapDB.BuildIndex | disk_store/HeapDB.java:428-443 | the block loop leaves the index equal to Built over every block |
| HeapEngine.HeapDB.IndexBlock | disk_store/HeapDB.java:430-442 | one block of the loop adds that block's records |
| HeapEngine.HeapDB.IndexSlots | disk_store/HeapDB.java:432-441 | the slot loop adds every live slot of the block |
| HeapEngine.HeapDB.IndexSlot | disk_store/HeapDB.java:433-440 | one live slot adds its value and block |
| HeapEngine.HeapDB.IndexTarget | disk_store/HeapDB.java:374-382 | an index can be made exactly for a named int field, and otherwise IllegalArgument is thrown |
| HeapEngine.HeapDB.CreateOrderedIndex | disk_store/HeapDB.java:374-387 | a named int field gets a fresh OrdIndex agreeing with the table, and no other index changes; otherwise IllegalArgument with nothing changed |
| HeapEngine.HeapDB.NewOrderedIndex | disk_store/HeapDB.java:384-386 | on an int field, a new OrdIndex is filled from the table and installed there, agreeing with it; no other index and no block changes |
| HeapEngine.HeapDB.CreateOrderedKeyIndex | disk_store/HeapDB.java:392-394 | the key field gets an agreeing OrdIndex |
| HeapEngine.HeapDB.CreateHashIndex | disk_store/HeapDB.java:399-412 | a named int field gets a fresh HashIndex agreeing with the table, and no other index changes; otherwise IllegalArgument with nothing changed |
| HeapEngine.HeapDB.NewHashIndex | disk_store/HeapDB.java:409-411 | on an int field, a new HashIndex is filled from the table and installed there, agreeing with it; no other index and no block changes |
| HeapEngine.HeapDB.CreateHashKeyIndex | disk_store/HeapDB.java:417-419 | the key field gets an agreeing HashIndex |
| HeapEngine.HeapDB.CreateIndex | disk_store/HeapDB.java:384-386 | an empty index, filled by initializeIndex and stored for the field, agrees with the table |
| HeapEngine.HeapDB.DeleteIndex | disk_store/HeapDB.java:452-458 | a named field loses its index and nothing else changes; an unknown name throws IllegalArgument |
| HeapEngine.HeapDB.DeleteKeyIndex | disk_store/HeapDB.java:463-465 | the key field loses its index |
| HeapEngine.DBIterator.constructor | disk_store/HeapDB.java:480-488 | a new iterator has every live record still to visit, in file order |
| HeapEngine.DBIterator.SkipBlocks | disk_store/HeapDB.java:496-501 | skipping unmarked blocks skips no live record |
| HeapEngine.DBIterator.SkipSlots | disk_store/HeapDB.java:511-517 | skipping clear bits skips no live record, and stops on a live slot or at the end |
| HeapEngine.DBIterator.FindNext | disk_store/HeapDB.java:492-524 | findNext moves to the next live slot, skipping nothing |
| HeapEngine.DBIterator.HasNext | disk_store/HeapDB.java:526-528 | hasNext holds exactly when live records remain to visit |
| HeapEngine.DBIterator.Next | disk_store/HeapDB.java:530-536 | next returns the shared record, which holds the next live record's values, and moves past it |
| HeapFindings.KeyTrimOnKey | disk_store/HeapDB.java:262-270 | on the primary key's index, delete's trim as written is the intended single deletion |
| HeapFindings.KeyTrimBreaksIndex | disk_store/HeapDB.java:262-270 | on an index of another field, the trim as written leaves the index disagreeing with the table, where the intended deletion keeps it agreeing |
| HeapAliasing.AliasedScanLookup | disk_store/HeapDB.java:331-337 | the linear search as written throws ClassCast exactly when the intended search does; otherwise it returns one entry per matching record, every entry the same record object, which holds the last live record of the file |
| HeapAliasing.ScanStateStep | disk_store/HeapDB.java:332-336 | each record the search reads is live and has the schema's types; an int field moves the match count on by one exactly when it equals the key, and a string field means the intended search throws |
| HeapAliasing.ScanStateEnd | disk_store/HeapDB.java:331-337 | once every live slot is read, the matches counted are all the matches of the intended search, and it does not throw |
| HeapAliasing.LastRowIs | disk_store/HeapDB.java:530-536 | what the shared record holds at the end is the row of the last live slot |
| HeapFindings.AliasedScanLosesMatch | disk_store/HeapDB.java:331-337 | the unindexed lookup as written returns the last record of the file for a key held by an earlier record |

## Left out

- File I/O is abstracted away. `BlockedFile`'s reads and writes become reads and updates of the ghost map `file`. A block's bytes are abstracted to its record bitmap plus the rows in its slots; records are not serialized into a block's bytes.
- `open`, `close`, `toString` and `toStringDiagnostic` are not modelled.
- The metadata block (block 0) is not modelled: the file type, the version and the schema written into it. The schema's own byte format is modelled by `Schemas.Schema.Serialize`.
- `modify` only throws `UnsupportedOperationException`, so it is not modelled.
- `BlockBuffer` and `BlockedFile` are not part of this model beyond the buffer objects `HeapDB` holds.
- The database keeps a snapshot of the schema's names and types taken at construction. Changing the schema afterwards is not modelled.
- `HashSet` iteration order is left open. An index lookup is specified by the set of blocks it returns, each exactly once, and an indexed `lookup` by the multiset of its records.
- `Collections.sort` is modelled as insertion into an ascending list. `SortedLists.AscendingUnique` shows that the result does not depend on the sorting algorithm.
- `String.getBytes` and `new String(bytes)` are taken as the identity on byte strings (`JString`). Character encodings are not modelled.
- Bitmaps.Bitmap.GetBit: requires `i >= 0`, because every caller in `HeapDB` passes a slot or block number, which is never negative. Java's `i / Byte.SIZE` truncates toward zero, so for `i` from -7 to -1 it picks byte 0: with no bytes that throws `IllegalArgumentException`, and otherwise the shift by `7 - i` (8 to 14) of the sign-extended byte returns byte 0's top bit. For `i <= -8` the byte index is negative and Java throws `ArrayIndexOutOfBoundsException`.
- Bitmaps.Bitmap.SetBit: requires `i >= 0`, for the same reason. For `i` from -7 to -1 Java sets or clears a bit above bit 7 and the narrowing back to `byte` drops it, so the call changes nothing (or throws `IllegalArgumentException` when there are no bytes). For `i <= -8` it throws `ArrayIndexOutOfBoundsException`.
- Bitmaps.Bitmap.constructor: requires `numBytes <= bytes.Length`. Every caller passes such a size.
- Fields.NewStringField: requires a `StringType` as the type. Java's signature already demands one.
- Records.Record.constructor: requires the sizes to match. `Records.Record.New` models the throwing case.
- Schemas.Schema.Serialize: requires the field count to be a 32-bit int.
- HeapEngine.HeapDB.constructor: requires a well-formed schema: names and types of equal length, the key first and an int, and every `StringType` limit between 1 and 64. A schema with a negative limit has no `blankRecord`, as `Fields.NegativeLimitHasNoBlank` shows.
- HeapEngine.HeapDB.Insert: requires the record's fields to have the schema's types. The Java code does not check this: it serializes whatever fields the record has.
- HeapEngine.HeapDB.InitializeIndex: requires `f` to be an int field. Every caller has checked that first through `IndexTarget`.
- HeapEngine.HeapDB.Delete: keeps the indexes agreeing by removing the deleted record's own value from each index. The code as written trims differently; see Findings.
- HeapEngine.HeapDB.RemoveAt: clears the found slot and then removes the record's own values through `DeleteValues`. It does not apply the key trim of the code as written; see Findings.
- HeapEngine.HeapDB.DeleteValues: removes, from each field's index, that field's value in the deleted record under its block. The code as written removes the deleted key from every index, whatever its field; see Findings.
- IndexModel.Insert: adds one more occurrence of the block under the key, even when the pair is already there. `insert` in DBIndex.java:16-22 promises that a pair already present is not inserted again, and OrdIndex.java:12-13 promises no duplicate index table entries. Neither class keeps that promise: `OrdIndex.insert` appends and re-sorts (OrdIndex.java:206-208), `HashIndex.insert` appends (HashIndex.java:53-55), and OrdIndexTest.java:69-82 expects the duplicate to survive one delete. The model follows the code, so an index is a multiset of blocks per key. The agreement between the heap file and its indexes counts records per block on the same basis.
- HeapEngine.HeapDB.ScanLookup: returns a copy of each matching record. The code as written returns the iterator's one shared record; see Findings.
- HeapEngine.HeapDB.ScanPath: is the unindexed branch of `lookup(fname, key)` and returns what `ScanLookup` returns, a copy of each match. The code as written returns the shared record; see Findings.
- HeapEngine.HeapDB.Lookup: on a field without an index, it returns `ScanLookup`'s copies. The code as written returns the iterator's one shared record once per match; see Findings.
- HeapEngine.HeapDB.LookupKey: returns the record with the key, as `ScanLookup` would with a copy of each match. When the key field has no index, the code as written returns the iterator's shared record, which by then holds the last live record of the file rather than the one with the key; see Findings.
- Java's 32-bit int arithmetic is modelled where values can reach the limits, through the `Int32` subset type and explicit range checks. Index keys and block numbers are plain integers, because the engine never computes with them.

## Findings

| source | as written | input that shows it | evidently intended | confidence | as-written member | corrected member |
|---|---|---|---|---|---|---|
| disk_store/HeapDB.java:262-270 | delete looks up the deleted key in every index and deletes that key from each block it lists, including the indexes of non-key fields | one data block holding records (1, 5) and (2, 1) with an index on the second field; delete(1) removes value 1 from that index although (2, 1) still holds it, and keeps value 5 of the deleted record | remove the deleted record's own field value under its block from each index | not executed | HeapFindings.KeyTrimBreaksIndex | HeapEngine.HeapDB.DeleteValues |
| disk_store/HeapDB.java:331-337 | the unindexed lookup adds the iterator's record to the result, and the iterator reuses one record object for every `next`; lookup(key) at lines 289-295 returns the first entry of that list | records with keys 1 and 2 and no index; lookup(fname, key) and lookup(key) for key 1 return a record that reads key 2 once the scan ends | add a copy of each matching record | not executed | HeapFindings.AliasedScanLosesMatch | HeapEngine.HeapDB.ScanLookup |
| disk_store/Schema.java:23-29 | the constructor does not check the key's name length, unlike add | a 25-character key name: serialize writes the type tag over its last character, so deserialize reads a different name | refuse a key name over 24 characters, as add does | not executed | Schemas.LongKeyNameCorrupted | Schemas.Schema.Checked |
| disk_store/StringType.java:16-24 | the constructor refuses 0 but accepts negative limits | new StringType(-1) succeeds, but its blankField throws | refuse every limit below 1 | not executed | Fields.NegativeLimitHasNoBlank | Fields.NewStringTypeChecked |
