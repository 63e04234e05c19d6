# A verified model of the dbms-class-2022 storage engine

dbms-class-2022 is a teaching database engine written in Kotlin. Its storage layer keeps
tables in 4096-byte slotted pages on an emulated disk. On top of that sit a record codec,
buffer pools with pin counts, page directories, table scans and a system catalog that maps
table names to oids. A transaction layer logs page writes, and a small command-line front end
parses query clauses and runs stand-in join and sort operators.

The repository holds two generations of this code. The first lives in the default package
(`DummyPageCacheImpl`, `DumbSystemCatalogImpl`, the older `AccessMethods.kt`). The second
lives in `net.barashev.dbi2022` (`SimplePageCacheImpl`, `SimpleAccessMethodManager`,
`TableBuilder`, the transaction support and the application). Both share the disk page,
the emulated disk and the record codec. Each generation has its own modules here.

The model is layered as the program is:

- `StorageApi`, `Bytes`, `PageLayout`, `PageModel`, `DiskPages`, `DiskStorage`: the result
  flags and exceptions of the page API, the slotted page as a byte
  image and as a list of slots (record bytes plus a tombstone flag), the `DiskPageImpl` class
  over its byte array, and the emulated disk as an ordered map of page objects, shared by
  reference.
- `Records`: big-endian `Int` attributes, strings as a count followed by UTF-16 units, and
  records of one to three fields.
- `Sequences`, `CachePolicy`, `DummyPageCaches`, `SimplePageCaches`: the two buffer pools,
  their admission, eviction, pinning, statistics and usage counters, and the sub-cache.
- `PageStores`: the page cache as the access methods see it, a map from page id to slots
  plus pin counts.
- `Scans`, `RootRecordScans`, `FullScans`, `PageDirectories`, `NameTables`: `advanceRecord`,
  the root-record iterator, the full-scan iterator with `seekFirstPage`, page directories and
  the name table.
- `DumbSystemCatalogs`: the first-generation catalog.
- `AccessMethodManagers`, `TableBuilders`: the second-generation catalog and table builder.
- `LogManagers`, `Schedulers`: the log manager with `FakeWAL` and `RevertableStorage`, the
  scheduler verdicts, `FakeScheduler`, and the blocking scheduler of the transaction manager
  test as a sequential state machine.
- `Text`, `Parser`, `FakeOperations`: the Kotlin string operations the parsers rely on, the
  join, filter and index clause parsers, and the fake merge sort and nested-loop join.

Code that changes state in place is modelled with classes and methods whose contracts state
the new state through specification functions. The properties of those functions are proved
as lemmas: round trips, which slots change and which do not, pin balance, the cache bound,
first fit, error conditions, and others. Exceptions are modelled as `Err` values of a
`Result`. Each Kotlin `assert` is an `AssertionFailed` error.

Two defects of the append test and the page rebuild are listed under "## Findings". The disk
page class here uses the corrected definitions. The as-written definitions are kept next to
them, with lemmas that exhibit the defects. Two first-generation catalog defects are also
listed there. The first-generation modules keep those as written, and the second
generation's own code is the corrected counterpart.

## Model

| member | source | states |
|---|---|---|
| Bytes.Wrap32 | src/main/kotlin/StorageImpl.kt:126 | the result is a 32-bit value, and a value that already fits is unchanged |
| Bytes.Unsigned32 | src/main/kotlin/StorageImpl.kt:134-135 | the bit pattern of a negative value is the value plus 2^32, of a non-negative one the value itself |
| Bytes.DecodeEncodeInt32 | src/main/kotlin/StorageImpl.kt:131-135 | `getInt` reads back exactly what `putInt` wrote |
| Bytes.EncodeDecodeInt32 | src/main/kotlin/StorageImpl.kt:131-135 | writing back what `getInt` read reproduces the four bytes |
| Bytes.DecodeInt32Prefix | src/main/kotlin/Records.kt:16 | `getInt` looks only at the first four bytes of a buffer |
| Bytes.EncodeInt32Injective | src/main/kotlin/Records.kt:12-14 | two different `Int` values never share an encoding |
| Bytes.Int32AtSplice | src/main/kotlin/StorageImpl.kt:131-135 | a value put at a position of a page image is read back there |
| Bytes.UnitRoundTrip | src/main/kotlin/Records.kt:25-32 | a 16-bit unit put with `putChar` is two bytes and reads back as the same unit |
| PageLayout.AppendGuardOverrun | src/main/kotlin/StorageImpl.kt:41-52 | the append test as written admits a 4096-byte record on an empty page; the resulting page is inconsistent and record 0 does not read back what was put |
| PageLayout.AppendGuardWindow | src/main/kotlin/StorageImpl.kt:41-52 | every record size within 4 bytes of the free space, either way, passes the guard as written but does not fit with its directory entry, and such a record starts inside the directory region |
| PageLayout.FreeSpaceAccounting | src/main/kotlin/StorageImpl.kt:30-31 | on a consistent page `freeSpace` is what the header, the directory and the stored records leave of the 4096 bytes, and it is never negative |
| PageLayout.SlotAtIsSlot | src/main/kotlin/StorageImpl.kt:103-109 | `getByteBuffer(i)` returns the slice between entry `i` and entry `i - 1` (the page end for 0) and the sign of entry `i` as the tombstone flag |
| PageLayout.AppendCorrect | src/main/kotlin/StorageImpl.kt:45-51 | an append that passes the corrected test adds one live slot at the end holding the data, and keeps every other slot |
| PageLayout.DeleteCorrect | src/main/kotlin/StorageImpl.kt:86-93 | `deleteRecord` turns the slot into a tombstone that keeps its bytes and changes nothing else |
| PageLayout.ShiftEntriesEffect | src/main/kotlin/StorageImpl.kt:123-127 | the directory loop rewrites exactly entries `from .. stop - 1` as `sign * (abs - requiredSpace)` |
| PageLayout.ShiftEntriesFrame | src/main/kotlin/StorageImpl.kt:123-127 | the directory loop touches no byte outside the entries it rewrites |
| PageLayout.ShiftDirNone | src/main/kotlin/StorageImpl.kt:111-114 | a shift by 0 leaves a consistent directory unchanged |
| PageLayout.ShiftImageDirectory | src/main/kotlin/StorageImpl.kt:111-129 | `shiftRecords(r, req)` moves the entries from `r` on by `req` bytes, keeping their signs, and leaves earlier entries alone |
| PageLayout.ShiftImageBytes | src/main/kotlin/StorageImpl.kt:115-122 | `shiftRecords` keeps the header, the entries before `r` and the bytes from record `r`'s shifted start on, and moves the bytes between the area start and record `r` down by `req` |
| PageLayout.ShiftedCapacity | src/main/kotlin/StorageImpl.kt:59-61 | after `shiftRecords`, record `r`'s slice has exactly the size of the new data, so the `assert` in `putRecord` holds |
| PageLayout.UpdatedSlotsOf | src/main/kotlin/StorageImpl.kt:54-66 | a rewritten record changes only its own slot, which becomes live with the new data; all other slots keep their bytes and flags |
| PageLayout.UpdateCorrect | src/main/kotlin/StorageImpl.kt:54-66 | `putRecord` over an existing slot, once the space test passes, yields the page whose slots are the old ones with that slot replaced (live) |
| PageModel.Get | src/main/kotlin/StorageImpl.kt:72-83 | out of range exactly for ids outside `[0, size)`; deleted with no bytes for a tombstone; otherwise the record's bytes |
| PageModel.PutThenGet | src/main/kotlin/Storage.kt:38-47 | after a successful put, `getRecord` of the reported id returns the data, live |
| PageModel.PutFlags | src/main/kotlin/StorageImpl.kt:36-70 | the reported id is the target (`-1` meaning the slot count); out of range exactly outside `[0, count]`; an append succeeds exactly when record and entry fit; an update fails exactly when `freeSpace < newSize - oldSize`; never both flags |
| PageModel.PutFailureIsStable | src/main/kotlin/StorageImpl.kt:38-57 | a failed put changes nothing, so repeating it fails the same way |
| PageModel.PutKeepsOthers | src/main/kotlin/Storage.kt:18-42 | a put changes only its target slot; ids stay gap-free, growing by one only on an append |
| PageModel.PutFree | src/main/kotlin/StorageImpl.kt:30-66 | free space falls by `size + 4` on an append and by the growth on an update, is unchanged on failure, and stays non-negative |
| PageModel.DeleteFacts | src/main/kotlin/StorageImpl.kt:86-93 | delete is idempotent, keeps the slot count and every slot's bytes, flags only the target, and frees nothing |
| PageModel.DeleteThenGet | src/main/kotlin/StorageImpl.kt:72-93 | a deleted record reads back as deleted with no bytes |
| PageModel.AllRecordsFacts | src/main/kotlin/StorageImpl.kt:95-100 | `allRecords` has exactly the keys `0 .. size - 1`, never reports out of range, reports tombstones with their bytes, and agrees with `getRecord` on live slots |
| PageModel.FreeOfImage | src/main/kotlin/StorageImpl.kt:30-55 | `freeSpace` of a consistent page equals the free space of its slots, and each slice's capacity is its record's size |
| PageModel.PutImageCorrect | src/main/kotlin/StorageImpl.kt:36-70 | `putRecord` on the bytes does on the slots what `Put` says, and leaves a consistent page whose header counts the slots |
| PageModel.DeleteImageCorrect | src/main/kotlin/StorageImpl.kt:86-93 | `deleteRecord` on the bytes keeps the page consistent, the header and the area start, and does `Delete` on the slots |
| PageModel.GetImageCorrect | src/main/kotlin/StorageImpl.kt:72-83 | `getRecord` on the bytes, through `getByteBuffer`, gives what `Get` gives on the slots |
| DiskPages.PutBytes | src/main/kotlin/StorageImpl.kt:47 | the loop writes `data` over positions `at ..` and keeps every other byte |
| DiskPages.ZeroPage | src/main/kotlin/StorageImpl.kt:16-35 | a fresh zeroed page has header 0, an empty consistent directory and its record area at the page end |
| DiskPages.RebuiltAppendOverwrites | src/main/kotlin/StorageImpl.kt:25-35 | on a page rebuilt as written (area start reset to 4096), the next append overwrites the end of record 0, which reads back changed |
| DiskPages.DiskPage.constructor | src/main/kotlin/StorageImpl.kt:13-35 | a new page is zeroed, consistent and empty |
| DiskPages.DiskPage.Rebuilt | src/main/kotlin/StorageImpl.kt:13-35 | a page over existing bytes shares the array, takes its size from the header, and shows the slots those bytes hold (corrected record area start) |
| DiskPages.DiskPage.RebuiltAsWritten | src/main/kotlin/StorageImpl.kt:25-35 | as written, the directory size comes from the header but `lastRecordOffset` is reset to 4096 |
| DiskPages.DiskPage.FreeSpace | src/main/kotlin/StorageImpl.kt:30-31 | `freeSpace` is the free space of the page's slots and is never negative |
| DiskPages.DiskPage.GetRecord | src/main/kotlin/StorageImpl.kt:72-83 | returns `Get` of the page's slots |
| DiskPages.DiskPage.AllRecords | src/main/kotlin/StorageImpl.kt:95-100 | the loop builds exactly `AllRecords` of the page's slots |
| DiskPages.DiskPage.DeleteRecord | src/main/kotlin/StorageImpl.kt:86-93 | the page stays consistent and its slots become `Delete(old slots, id)`; the bytes are the delete image |
| DiskPages.DiskPage.AppendRecord | src/main/kotlin/StorageImpl.kt:45-51 | writes entry, record bytes, area start and header; the page stays consistent with one more slot |
| DiskPages.DiskPage.ShiftRecords | src/main/kotlin/StorageImpl.kt:111-129 | the bytes become the `shiftRecords` image and `lastRecordOffset` moves down by `requiredSpace`; a zero shift changes nothing |
| DiskPages.DiskPage.MoveRecordBytes | src/main/kotlin/StorageImpl.kt:115-122 | the moved area is copied `requiredSpace` lower and a freed gap is zeroed |
| DiskPages.DiskPage.ShiftEntriesFrom | src/main/kotlin/StorageImpl.kt:123-127 | the loop leaves the bytes equal to the directory-shift image of entries `from .. size - 1` |
| DiskPages.DiskPage.RewriteRecord | src/main/kotlin/StorageImpl.kt:59-64 | shift, then data and entry written: the update image, with the page consistent |
| DiskPages.DiskPage.PutRecord | src/main/kotlin/StorageImpl.kt:36-70 | the result and the new slots are `Put` of the old slots (corrected append test); the page stays consistent with its header counting the slots |
| DiskStorage.LastKey | src/main/kotlin/StorageImpl.kt:173-181 | `lastKey()` is a key no smaller than any other |
| DiskStorage.MaxExists | src/main/kotlin/StorageImpl.kt:173-181 | a non-empty set of ids has a largest element |
| DiskStorage.NextPageId | src/main/kotlin/StorageImpl.kt:173 | the next id is larger than every stored id, and 0 on an empty storage |
| DiskStorage.Storage.constructor | src/main/kotlin/StorageImpl.kt:143-145 | the page map starts empty |
| DiskStorage.Storage.ReadPage | src/main/kotlin/StorageImpl.kt:148-153 | returns the stored page itself (by reference), or a fresh empty page with the id that is not stored |
| DiskStorage.Storage.ReadPageSequence | src/main/kotlin/StorageImpl.kt:156-162 | hands the reader the pages `readPage` gives for `start, start + 1, ...`, `numPages` of them, in increasing id order |
| DiskStorage.Storage.WritePage | src/main/kotlin/StorageImpl.kt:164-170 | a negative id throws `IllegalArgumentException` and stores nothing; otherwise the page is stored under its id |
| DiskStorage.Storage.CreatePage | src/main/kotlin/StorageImpl.kt:172-178 | a fresh empty page under id 0 on an empty storage, else one past the largest id, is stored and returned |
| DiskStorage.Storage.LastPageId | src/main/kotlin/StorageImpl.kt:181 | returns the largest stored id |
| DiskStorage.Storage.WritePageSequence | src/main/kotlin/StorageImpl.kt:180-183 | throws on an empty storage (`lastKey()`); otherwise a writer starting at the largest id plus one with no pages written |
| DiskStorage.PageSequenceWriter.constructor | src/main/kotlin/StorageImpl.kt:181-182 | the writer starts at the given id with a zero count |
| DiskStorage.PageSequenceWriter.Apply | src/main/kotlin/StorageImpl.kt:184-195 | `null` ends the sequence and changes nothing; a page is rebuilt over its own bytes under the next id, stored, and both counters advance |
| DiskPages.PutInt | src/main/kotlin/StorageImpl.kt:135-138 | `putInt` on the page array writes the 32-bit value at the position and changes no other byte |
| DiskPages.DiskPage.SetDirectorySize | src/main/kotlin/StorageImpl.kt:19-23 | the `directorySize` setter stores the new size in the field and in the page header, and keeps the record area start |
| Records.ByteSize | src/main/kotlin/Records.kt:3-20 | the byte size is positive (fixed) exactly for `IntAttribute`; `StringAttribute` has none |
| Records.EncodeUnits | src/main/kotlin/Records.kt:25 | one `putChar` per unit: two bytes per unit |
| Records.DecodeUnits | src/main/kotlin/Records.kt:32 | `asCharBuffer().toString()` gives one unit per two bytes |
| Records.EncodeAttribute | src/main/kotlin/Records.kt:11-27 | an `Int` encodes to exactly its 4 bytes; a string to `4 + 2 * length` bytes whose first 4 hold the unit count |
| Records.DecodeAttribute | src/main/kotlin/Records.kt:16-33 | fewer than 4 bytes underflow; a decode consumes at least the 4-byte count and at most the buffer; an `Int` decodes to (value, 4) |
| Records.ByteLength | src/main/kotlin/Records.kt:31 | `count * 2` in 32-bit arithmetic: even, equal to `2 * count` when that fits, and 0 for `Int.MIN_VALUE` |
| Records.EncodeUnitsAt | src/main/kotlin/Records.kt:25-32 | unit `i` is read back from byte `2 * i` of the encoding |
| Records.DecodeEncodeUnits | src/main/kotlin/Records.kt:25-32 | decoding the unit encoding gives the units back, whatever their values (non-ASCII included) |
| Records.EncodeDecodeUnits | src/main/kotlin/Records.kt:25-32 | encoding decoded units gives the bytes back |
| Records.DecodeEncodeAttribute | src/main/kotlin/Records.kt:11-33 | `fromBytes(asBytes(v))` gives `v` and the encoded size (4, or `4 + 2n`), whatever bytes follow |
| Records.EncodeDecodeAttribute | src/main/kotlin/Records.kt:11-33 | a decode with a count that `asBytes` can write back re-encodes to exactly the bytes it consumed |
| Records.NegativeCountWraps | src/main/kotlin/Records.kt:31-32 | a count of `Int.MIN_VALUE` wraps to length 0 and decodes as the empty string, which does not re-encode to those bytes |
| Records.StringDecoded | src/main/kotlin/Records.kt:30-33 | a count that fits decodes to the units that follow it and consumes `4 + 2n` bytes |
| Records.StringAsBytes | src/main/kotlin/Records.kt:21-27 | the `putInt` then `putChar` loop fills a fresh buffer with exactly the string's encoding |
| Records.Fields | src/main/kotlin/Records.kt:37-83 | a record has one to three fields |
| Records.AsBytes | src/main/kotlin/Records.kt:41-75 | `asBytes()` is the field encodings concatenated in order |
| Records.Record1FromBytes | src/main/kotlin/Records.kt:42 | `Record1.fromBytes` is the first attribute's (value, consumed) pair |
| Records.FromBytes | src/main/kotlin/Records.kt:55-82 | a decoded record has the same attribute types as the template |
| Records.Types | src/main/kotlin/Records.kt:37-83 | one attribute type per field |
| Records.ReadField | src/main/kotlin/Records.kt:85-89 | reading a field from its encoding followed by more bytes gives its value and leaves exactly the rest |
| Records.FromBytesAsBytes | src/main/kotlin/Records.kt:54-89 | `fromBytes(asBytes(r)) == r` for two- and three-field records, also when more bytes follow |
| Records.FromBytesAsBytes2 | src/main/kotlin/Records.kt:54-60 | the round trip for `Record2` |
| Records.FromBytesAsBytes3 | src/main/kotlin/Records.kt:75-82 | the round trip for `Record3` |
| Records.Record1FromAsBytes | src/main/kotlin/Records.kt:41-42 | `Record1.fromBytes(asBytes())` is the value paired with its encoded size |
| Records.AttributeReader.constructor | src/main/kotlin/Records.kt:56-77 | `ByteBuffer.wrap(bytes)` starts at position 0 |
| Records.AttributeReader.ReadAttribute | src/main/kotlin/Records.kt:85-89 | decodes from the rest of the buffer and advances the position by the consumed size; a failing read throws and leaves the position |
| Records.ReadRecord | src/main/kotlin/Records.kt:55-82 | reading the fields one `readAttribute` at a time gives `FromBytes` |
| PageStores.Pin | src/main/kotlin/net/barashev/dbi2022/PageCacheImpl.kt:89-98 | a pin adds one to the page's count and leaves every other page's count alone |
| PageStores.Unpin | src/main/kotlin/net/barashev/dbi2022/PageCacheImpl.kt:50-57 | a release takes one from the page's count and leaves every other page's count alone |
| PageStores.UnpinPin | src/main/kotlin/net/barashev/dbi2022/PageCacheImpl.kt:50-57 | releasing a pin just taken restores the counts exactly |
| PageStores.Range | src/main/kotlin/AccessMethods.kt:113-122 | the pages `start .. stop - 1` a directory scan visits, `stop - start` of them |
| PageStores.PagesAt | src/main/kotlin/AccessMethods.kt:28-37 | the pages a table scan visits are those its directory records name, in order |
| PageStores.PageStore.constructor | src/main/kotlin/PageCacheImpl.kt:19-22 | a new pool holds no page and no pin |
| PageStores.PageStore.GetAndPin | src/main/kotlin/PageCacheImpl.kt:32-35 | `getAndPin` adds one pin to the page and changes no page contents |
| PageStores.PageStore.Close | src/main/kotlin/PageCacheImpl.kt:9-17 | `close` takes one pin; without a pin the first generation fails its assertion and the second does nothing; releasing the last pin of a page without a valid id fails |
| PageStores.PageStore.GetRecord | src/main/kotlin/net/barashev/dbi2022/PageCacheImpl.kt:42-44 | `getRecord` on a cached page answers as the page's own `getRecord` |
| PageStores.PageStore.PutRecord | src/main/kotlin/net/barashev/dbi2022/PageCacheImpl.kt:34-36 | `putRecord` on a cached page answers as the page's own `putRecord` and changes only that page |
| PageStores.PageStore.DeleteRecord | src/main/kotlin/net/barashev/dbi2022/PageCacheImpl.kt:38-40 | `deleteRecord` on a cached page tombstones the slot on that page only |
| PageStores.PageStore.Clear | src/main/kotlin/net/barashev/dbi2022/SimpleAccessMethodManager.kt:61 | `clear` leaves the page with an empty directory and touches no other page |
| Scans.NextLiveIsFirstLive | src/main/kotlin/AccessMethods.kt:132-146 | `advanceRecord` stops at the first live record after the cursor, skipping every deleted one; it finds nothing only when every later record is deleted |
| Scans.NextLiveReadsOneMore | src/main/kotlin/AccessMethods.kt:132-146 | each step of `advanceRecord` reads exactly one more live record of the page, and once it finds none the whole page has been read |
| Scans.RowsSnoc | src/main/kotlin/AccessMethods.kt:40-57 | scanning one more page appends its live records to what was read |
| Scans.LivePrefix | src/main/kotlin/AccessMethods.kt:132-146 | the live records up to a slot come first among the page's live records |
| Scans.Between | src/main/kotlin/AccessMethods.kt:113-122 | the directory page ids `start, start + 1, ...`, `stop - start` of them |
| Scans.BetweenSnoc | src/main/kotlin/AccessMethods.kt:113-122 | one more directory page adds its id at the end |
| Scans.OidPageidBytes | src/main/kotlin/net/barashev/dbi2022/AccessMethods.kt:144 | a directory record `(oid, pageId)` is 8 bytes long |
| Scans.ParseOidPageid | src/main/kotlin/Records.kt:45-61 | `fromBytes` of an `OidPageidRecord` succeeds exactly on 8 or more bytes, reading two `Int`s; fewer bytes underflow the buffer |
| Scans.ParseOidPageidBytes | src/main/kotlin/Records.kt:45-61 | a directory record reads back as written, whatever bytes follow it |
| Scans.ParseAll | src/main/kotlin/AccessMethods.kt:93-111 | a list of records parses exactly when each record does, into the parsed records in order |
| Scans.ParseAllSnoc | src/main/kotlin/AccessMethods.kt:93-111 | one more record that parses is added at the end of the parsed list |
| Scans.ParseAllAppend | src/main/kotlin/AccessMethods.kt:93-111 | two parsing lists parse together, one after the other |
| Scans.TablePagesMembers | src/main/kotlin/AccessMethods.kt:28-37 | a page is visited by the table scan exactly when the directory holds the record `(oid, page)` |
| Scans.TablePagesSnoc | src/main/kotlin/AccessMethods.kt:30-35 | one more directory record adds its page at the end exactly when it belongs to the table |
| RootRecordScans.AdvanceRecord | src/main/kotlin/AccessMethods.kt:132-146 | with no page `advanceRecord` returns nothing; otherwise it returns the first live record after the cursor, its bytes and its id, and nothing exactly when there is none |
| RootRecordScans.ReadThrough | src/main/kotlin/AccessMethods.kt:113-122 | the records of the pages up to `cur` are those before it and then page `cur`'s |
| RootRecordScans.ReadInPage | src/main/kotlin/AccessMethods.kt:93-111 | what is read of the current page comes before the rest of the page |
| RootRecordScans.RangeRowsPrefix | src/main/kotlin/AccessMethods.kt:113-122 | the records of fewer directory pages come first among those of more |
| RootRecordScans.ReadPrefix | src/main/kotlin/AccessMethods.kt:93-122 | what the scan has read is the first part of the records of the whole range |
| RootRecordScans.ScanRecord | src/main/kotlin/AccessMethods.kt:106-110 | moving to the next live record reads exactly its bytes |
| RootRecordScans.BadRecord | src/main/kotlin/AccessMethods.kt:94-96 | a live directory record that does not parse fails the parse of the whole range |
| RootRecordScans.ScanPage | src/main/kotlin/AccessMethods.kt:97-104 | with no live record left on a page, the scan has read every page up to it |
| RootRecordScans.ScanStart | src/main/kotlin/AccessMethods.kt:103 | at the first slot of a page the scan has read just the pages before it |
| RootRecordScans.RangeEnd | src/main/kotlin/AccessMethods.kt:116 | past the last page of the range the pages read are the whole range |
| RootRecordScans.RootRecordIterator.ReadInAll | src/main/kotlin/AccessMethods.kt:72-123 | what the iterator has read is always the first part of the records of its range |
| RootRecordScans.RootRecordIterator.BufferedParses | src/main/kotlin/AccessMethods.kt:94-108 | the buffered record is the parse of the bytes it was read from; with none buffered, no bytes are |
| RootRecordScans.RootRecordIterator.ParsedAfterNext | src/main/kotlin/AccessMethods.kt:89-91 | after `next()`, the records read parse to those returned so far and then the buffered one |
| RootRecordScans.RootRecordIterator.ParsedFirst | src/main/kotlin/AccessMethods.kt:80-83 | right after `init`, the records read parse to the buffered one |
| RootRecordScans.RootRecordIterator.Finished | src/main/kotlin/AccessMethods.kt:85-101 | once `hasNext()` is false, the whole range has been read and every pin the iterator took is released |
| RootRecordScans.RootRecordIterator.constructor | src/main/kotlin/AccessMethods.kt:72-81 | the iterator starts before page `startRootPageId` with no page, no record and the cursor at -1 |
| RootRecordScans.RootRecordIterator.HasNext | src/main/kotlin/AccessMethods.kt:85-87 | `hasNext()` is true exactly when a record is buffered |
| RootRecordScans.RootRecordIterator.AdvancePage | src/main/kotlin/AccessMethods.kt:113-122 | `advancePage` releases the current page, moves to the next id and pins it unless the range is exhausted; the release of a page without a valid id fails |
| RootRecordScans.RootRecordIterator.Advance | src/main/kotlin/AccessMethods.kt:93-111 | `advance` buffers the next record of the range, having read one record more; it fails only on a range whose records do not parse or on a negative start page |
| RootRecordScans.RootRecordIterator.ReadPageOut | src/main/kotlin/AccessMethods.kt:97-104 | when the current page has no record left, the pages up to it have been read |
| RootRecordScans.RootRecordIterator.NextPage | src/main/kotlin/AccessMethods.kt:97-104 | `advance` with the page exhausted moves to the next page and reads from its start, or buffers nothing past the range |
| RootRecordScans.RootRecordIterator.Finish | src/main/kotlin/AccessMethods.kt:98-101 | past the last page nothing is buffered and the whole range has been read |
| RootRecordScans.RootRecordIterator.EnterPage | src/main/kotlin/AccessMethods.kt:103-104 | on a page just pinned `advance` reads from the first slot |
| RootRecordScans.RootRecordIterator.Take | src/main/kotlin/AccessMethods.kt:106-110 | a live record found is parsed and buffered, having read its bytes; bytes that do not parse fail the parse of the range |
| RootRecordScans.RootRecordIterator.Next | src/main/kotlin/AccessMethods.kt:89-91 | `next()` returns the buffered record and advances; with none buffered it throws |
| RootRecordScans.RootRecordIterator.ToList | src/main/kotlin/AccessMethods.kt:85-91 | draining the iterator returns every record of the range in order, parsed, and releases every pin |
| RootRecordScans.Open | src/main/kotlin/AccessMethods.kt:72-83 | a new iterator has read exactly its first record, over the pages as they are |
| RootRecordScans.RootRecordsList | src/main/kotlin/AccessMethods.kt:125-129 | iterating `RootRecords(cache, start, count)` lists the parsed records of pages `start .. start + count - 1` in order, releasing every pin |
| FullScans.PagesAtSnoc | src/main/kotlin/AccessMethods.kt:28-37 | one more page id appends that page's slots to the pages a scan visits |
| FullScans.TableRowsSnoc | src/main/kotlin/AccessMethods.kt:28-37 | one more directory record adds the live records of its page when it names the table, and nothing otherwise |
| FullScans.SkippedRows | src/main/kotlin/AccessMethods.kt:30-35 | directory records of other tables add no rows |
| FullScans.TableRowsPrefix | src/main/kotlin/AccessMethods.kt:40-57 | the rows of fewer directory records come first among those of more |
| FullScans.TableRowsAll | src/main/kotlin/AccessMethods.kt:40-57 | with every directory record taken, the rows are those of the whole table |
| FullScans.FirstAcceptedIsFirst | src/main/kotlin/AccessMethods.kt:59-67 | `seekFirstPage` finds a table page the filter takes with no earlier such page, and finds nothing only when the filter takes no remaining table page |
| FullScans.FirstAcceptedSkipped | src/main/kotlin/AccessMethods.kt:30-35 | records of other tables do not change the page `seekFirstPage` finds |
| FullScans.FirstAcceptedStep | src/main/kotlin/AccessMethods.kt:59-67 | one directory record: its page when it is a table page the filter takes, otherwise what the rest gives |
| FullScans.FirstAcceptedOfTable | src/main/kotlin/AccessMethods.kt:59-67 | from the start of the directory, what is found is a table page the filter takes, and nothing is found only when it takes none |
| FullScans.AcceptedEnd | src/main/kotlin/AccessMethods.kt:59-67 | the root position just past the record `seekFirstPage` stops at: a page is found exactly when that record names the table and the filter takes its page, and the page found is that record's |
| FullScans.AcceptedEndSkipped | src/main/kotlin/AccessMethods.kt:30-35 | records of other tables do not move the position where `seekFirstPage` stops |
| FullScans.FirstAcceptedMoved | src/main/kotlin/AccessMethods.kt:59-67 | one move of `seekFirstPage` past other tables' records to a table record: what is found is that record's page when the filter takes it, and what the rest of the directory gives otherwise |
| FullScans.AcceptedEndMoved | src/main/kotlin/AccessMethods.kt:59-67 | the same move: the seek stops just past that record when the filter takes its page, and where the rest of the directory stops it otherwise |
| FullScans.StartAfter | src/main/kotlin/AccessMethods.kt:20-57 | the directory position where the scan stands after buffering the first row stays within the directory |
| FullScans.StartAfterEmpty | src/main/kotlin/AccessMethods.kt:40-57 | directory records that add no rows do not move where the first row is found |
| FullScans.ScanRecord | src/main/kotlin/AccessMethods.kt:41-54 | moving to the next live record reads exactly its bytes |
| FullScans.ScanPage | src/main/kotlin/AccessMethods.kt:42-51 | with no live record left on a table page, the scan has read the table pages up to it |
| FullScans.ScanStart | src/main/kotlin/AccessMethods.kt:48-50 | at the first slot of a page the scan has read just the pages before it |
| FullScans.ScannedPrefix | src/main/kotlin/AccessMethods.kt:40-57 | what the scan has read comes first among the rows of the whole table |
| FullScans.FullScanIterator.StartPosition | src/main/kotlin/AccessMethods.kt:20-22 | after `init` the scan stands just after the first table page holding a live record |
| FullScans.FullScanIterator.ReadInAll | src/main/kotlin/AccessMethods.kt:11-68 | what the scan has read is always the first part of the table's rows |
| FullScans.FullScanIterator.Finished | src/main/kotlin/AccessMethods.kt:24-47 | once `hasNext()` is false the whole table has been read and every pin is released |
| FullScans.FullScanIterator.constructor | src/main/kotlin/AccessMethods.kt:11-18 | the scan starts with no page, no record, cursor 0 and no directory record taken |
| FullScans.FullScanIterator.HasNext | src/main/kotlin/AccessMethods.kt:24 | `hasNext()` is true exactly when a record is buffered |
| FullScans.FullScanIterator.AdvancePage | src/main/kotlin/AccessMethods.kt:28-37 | `advancePage` closes the current page (first generation), skips directory records of other tables and takes the next table page, pinned in the first generation and only read in the second; none once the directory is exhausted |
| FullScans.FullScanIterator.Advance | src/main/kotlin/AccessMethods.kt:40-57 | `advance` buffers the next row of the table, having read one row more; only the first generation can fail, on a table page without an id |
| FullScans.FullScanIterator.ReadPageOut | src/main/kotlin/AccessMethods.kt:42-43 | once the current page has no record left, the table pages up to it have been read |
| FullScans.FullScanIterator.NextPage | src/main/kotlin/AccessMethods.kt:42-51 | `advance` with the page exhausted moves to the next table page and reads from its start, or buffers nothing past the directory |
| FullScans.FullScanIterator.EnterPage | src/main/kotlin/AccessMethods.kt:48-50 | on a page just taken `advance` reads from the first slot |
| FullScans.FullScanIterator.Take | src/main/kotlin/AccessMethods.kt:52-55 | a live record found is buffered, having read its bytes |
| FullScans.FullScanIterator.Next | src/main/kotlin/AccessMethods.kt:26 | `next()` returns the buffered record and advances; with none buffered it throws |
| FullScans.FullScanIterator.ToList | src/main/kotlin/AccessMethods.kt:24-26 | draining the scan returns every live record of the table in order and releases every pin |
| FullScans.FullScanIterator.SeekFirstPage | src/main/kotlin/AccessMethods.kt:59-67 | `seekFirstPage` returns the first remaining table page the filter takes, holding a pin on it in the first generation and on nothing else, and stops the root position just past that page's record, so directory page 0 stays pinned by the root iterator exactly when records remain after it |
| FullScans.Open | src/main/kotlin/AccessMethods.kt:3-22 | a new scan has read exactly its first row, standing just after the first table page with a live record |
| FullScans.Scan | src/main/kotlin/net/barashev/dbi2022/AccessMethods.kt:6-70 | a whole scan yields the live records of the table's pages in directory order and then slot order, and releases every pin |
| FullScans.NoPagesNoRows | src/main/kotlin/AccessMethods.kt:28-37 | a table no directory record names has no pages and yields nothing |
| FullScans.EmptyPagesNoRows | src/main/kotlin/AccessMethods.kt:132-146 | a table whose pages hold only deleted records yields nothing |
| PageDirectories.HandedOut | src/main/kotlin/net/barashev/dbi2022/AccessMethods.kt:137-141 | `add` hands out the counter for `-1` and the given id otherwise |
| PageDirectories.NextCounter | src/main/kotlin/net/barashev/dbi2022/AccessMethods.kt:142 | the counter moves past both the old counter and the given id, unless that maximum is the largest `Int`, where it wraps to the smallest |
| PageDirectories.HandedOutIds | src/main/kotlin/net/barashev/dbi2022/AccessMethods.kt:136-151 | a sequence of `add` calls hands out one id per call |
| PageDirectories.FreshIdsExceedEarlier | src/main/kotlin/net/barashev/dbi2022/AccessMethods.kt:137-142 | without wrap-around an id handed out for `-1` is at least the starting counter and larger than every id handed out before it |
| PageDirectories.FreshIdsPastDirectory | src/main/kotlin/net/barashev/dbi2022/AccessMethods.kt:133 | from the initial counter, every fresh id lies past the 4096 directory pages |
| PageDirectories.AppendToDirectory | src/main/kotlin/net/barashev/dbi2022/AccessMethods.kt:143-148 | appending `(oid, id)` to directory page `oid` adds it at the end of what the directory lists, and `id` at the end of the table's pages |
| PageDirectories.PageDirectory.constructor | src/main/kotlin/net/barashev/dbi2022/AccessMethods.kt:132-133 | the counter starts at 4097, just past the directory pages |
| PageDirectories.PageDirectory.Records | src/main/kotlin/net/barashev/dbi2022/AccessMethods.kt:134 | `records(oid)` lists the parsed records of directory page `oid` alone, and releases its pin |
| PageDirectories.PageDirectory.Add | src/main/kotlin/net/barashev/dbi2022/AccessMethods.kt:136-151 | `add` moves the counter, appends `(oid, id)` to directory page `oid` and returns `id`; a full directory page throws |
| NameTables.OidNameBytes | src/main/kotlin/DumbSystemCatalogImpl.kt:36-37 | a name record is 8 bytes plus two per character of the name |
| NameTables.ParseOidName | src/main/kotlin/DumbSystemCatalogImpl.kt:22 | `fromBytes` of a name record fails on fewer than 8 bytes, and otherwise reads the oid from the first four |
| NameTables.ParseOidNameBytes | src/main/kotlin/Records.kt:20-61 | a name record reads back as written, whatever bytes follow it |
| NameTables.ReadTable | src/main/kotlin/DumbSystemCatalogImpl.kt:63-64 | a full scan of a table lists the live records of the pages its directory page names, and releases every pin; it fails only on an unparsable directory or a page without an id |
| NameTables.RowsOfPagesHas | src/main/kotlin/AccessMethods.kt:40-57 | a live record on any page the scan visits is among its rows |
| NameTables.AppendedRecordListed | src/main/kotlin/DumbSystemCatalogImpl.kt:41-43 | a record appended to a name-table page listed by its directory is among the name table's records afterwards |
| NameTables.FindNameFirst | src/main/kotlin/DumbSystemCatalogImpl.kt:27-29 | when record `k` is the first with the name, `firstOrNull` finds its oid |
| NameTables.FindNameFound | src/main/kotlin/DumbSystemCatalogImpl.kt:27-29 | an oid the search finds is that of the first record with the name |
| NameTables.FindNameNone | src/main/kotlin/DumbSystemCatalogImpl.kt:27-29 | the search finds nothing exactly when every record parses and none has the name |
| NameTables.MemoOverwrite | src/main/kotlin/DumbSystemCatalogImpl.kt:44 | memoising a name twice keeps the later oid |
| NameTables.ForgetMemo | src/main/kotlin/net/barashev/dbi2022/SimpleAccessMethodManager.kt:136 | removing a name drops whatever was memoised for it |
| NameTables.Present | src/main/kotlin/DumbSystemCatalogImpl.kt:31 | a memoised `-1` reads as no table, and any other oid as itself |
| NameTables.SearchName | src/main/kotlin/DumbSystemCatalogImpl.kt:26-30 | the searching loop returns what `FindName` specifies: the first record with the name, or none |
| NameTables.MaxOidBounds | src/main/kotlin/DumbSystemCatalogImpl.kt:48-54 | the fold succeeds exactly when every record parses, and is then at least its start and every stored oid |
| NameTables.MaxOidAttained | src/main/kotlin/DumbSystemCatalogImpl.kt:48-54 | the fold is its start or one of the stored oids |
| NameTables.FoldMaxOid | src/main/kotlin/DumbSystemCatalogImpl.kt:50-52 | the `forEach` loop computes the fold `MaxOid` |
| DumbSystemCatalogs.RoomyFits | src/main/kotlin/DumbSystemCatalogImpl.kt:38-42 | a page the `seekFirstPage` filter of `create` takes has room to append the record: the put appends it as the next slot |
| DumbSystemCatalogs.LegacyNameRecord | src/main/kotlin/DumbSystemCatalogImpl.kt:36-37 | the record `create` writes is 8 bytes plus two per character of the name |
| DumbSystemCatalogs.LegacyCreateListsName | src/main/kotlin/DumbSystemCatalogImpl.kt:38-43 | once its record fits, the name `create` registers is in the name table, on a page the name table's directory lists |
| DumbSystemCatalogs.EveryOidIsOne | src/main/kotlin/DumbSystemCatalogImpl.kt:34-54 | as written, with every stored record holding oid 0, `nextTableOid` is 1 and the record `create` adds holds oid 0 again: every table gets oid 1 |
| DumbSystemCatalogs.SeekSkipsFirstPage | src/main/kotlin/DumbSystemCatalogImpl.kt:38-40 | as written, `create` does not find the name table's first page although it has room, because the scan's `init` has already moved past it |
| DumbSystemCatalogs.TableOidMapping.constructor | src/main/kotlin/DumbSystemCatalogImpl.kt:15-18 | a new mapping memoises nothing |
| DumbSystemCatalogs.TableOidMapping.Get | src/main/kotlin/DumbSystemCatalogImpl.kt:25-32 | `get` answers the memoised oid or the first name record's oid, memoises it (`-1` for none, which reads as no table), and leaves the pages and pins as they were |
| DumbSystemCatalogs.TableOidMapping.NextTableOid | src/main/kotlin/DumbSystemCatalogImpl.kt:48-54 | `nextTableOid` is the largest stored oid, at least 1, and releases every pin |
| DumbSystemCatalogs.TableOidMapping.PageForName | src/main/kotlin/DumbSystemCatalogImpl.kt:38-40 | the page chosen is the one seeking finds from past the first name-table page with a record, pinned, and directory page 0 keeps one pin more when that seek stops before the last root record; else a page the directory adds to the name table |
| DumbSystemCatalogs.TableOidMapping.Create | src/main/kotlin/DumbSystemCatalogImpl.kt:34-46 | `create` returns `nextTableOid()`, appends the name record to the chosen page and memoises the name with the new oid; its pins are those `PageForName` leaves, directory page 0 included |
| DumbSystemCatalogs.DumbSystemCatalog.constructor | src/main/kotlin/DumbSystemCatalogImpl.kt:59-61 | a new catalog has a fresh directory at its initial counter and an empty mapping |
| DumbSystemCatalogs.DumbSystemCatalog.CreateFullScan | src/main/kotlin/DumbSystemCatalogImpl.kt:63-69 | a scan by name lists the records of the table the name resolves to; a name that resolves to no table is a catalog error |
| DumbSystemCatalogs.DumbSystemCatalog.CreateTable | src/main/kotlin/DumbSystemCatalogImpl.kt:71-76 | a name that resolves to a table is refused with nothing written; otherwise the table is created as `create` does |
| DumbSystemCatalogs.DumbSystemCatalog.AddPage | src/main/kotlin/DumbSystemCatalogImpl.kt:78 | `addPage` appends a fresh page id to the table's directory page, for any oid, and moves the counter |
| AccessMethodManagers.AddStop | src/main/kotlin/net/barashev/dbi2022/SimpleAccessMethodManager.kt:45-46 | the new counter is `counter + count` whenever that is a 32-bit value, and wraps otherwise |
| AccessMethodManagers.PutLive | src/main/kotlin/net/barashev/dbi2022/SimpleAccessMethodManager.kt:49 | a record that fits is appended, live, after the page's live records |
| AccessMethodManagers.PutAllLive | src/main/kotlin/net/barashev/dbi2022/SimpleAccessMethodManager.kt:48-54 | when every put of `add` fits, its records follow the page's live records, in order |
| AccessMethodManagers.ParseRangeRows | src/main/kotlin/net/barashev/dbi2022/SimpleAccessMethodManager.kt:49 | the records `add` puts parse back as the directory records of the ids handed out |
| AccessMethodManagers.TablePagesAppend | src/main/kotlin/net/barashev/dbi2022/SimpleAccessMethodManager.kt:42 | the pages listed by two runs of directory records are those of the first run and then the second |
| AccessMethodManagers.BetweenCons | src/main/kotlin/net/barashev/dbi2022/SimpleAccessMethodManager.kt:48 | `nextPageId until maxPageId`, with the first id split off |
| AccessMethodManagers.RangePairsPages | src/main/kotlin/net/barashev/dbi2022/SimpleAccessMethodManager.kt:48-54 | the records `add` writes give the table exactly the pages `counter, ..., stop - 1` |
| AccessMethodManagers.DirectoryRootsOfPage | src/main/kotlin/net/barashev/dbi2022/SimpleAccessMethodManager.kt:42 | `pages(oid)` reads directory page `oid` alone |
| AccessMethodManagers.RangePagesAppended | src/main/kotlin/net/barashev/dbi2022/SimpleAccessMethodManager.kt:44-57 | after `add` the table's pages are those it had and then the run of new ids |
| AccessMethodManagers.AddListsPages | src/main/kotlin/net/barashev/dbi2022/SimpleAccessMethodManager.kt:44-57 | `add(oid, count)` that neither overflows nor wraps lists the records `(oid, counter), ..., (oid, counter + count - 1)` after the ones the directory page had |
| AccessMethodManagers.AddListsRun | src/main/kotlin/net/barashev/dbi2022/SimpleAccessMethodManager.kt:44-57 | the same, stated over the pages after the loop |
| AccessMethodManagers.AppendedLive | src/main/kotlin/net/barashev/dbi2022/SimpleAccessMethodManager.kt:48-54 | the records `add` puts parse after those already on the directory page |
| AccessMethodManagers.ClearedTableEmpty | src/main/kotlin/net/barashev/dbi2022/SimpleAccessMethodManager.kt:59-63 | after `delete(oid)` the directory lists nothing for the table, and a scan of it yields nothing |
| AccessMethodManagers.AddLoopStep | src/main/kotlin/net/barashev/dbi2022/SimpleAccessMethodManager.kt:48-54 | a record that fits moves the loop of `add` on by one id |
| AccessMethodManagers.AddLoopDone | src/main/kotlin/net/barashev/dbi2022/SimpleAccessMethodManager.kt:48-55 | the loop that puts every record leaves the pages `AddedPages` and every record fit |
| AccessMethodManagers.AddLoopFull | src/main/kotlin/net/barashev/dbi2022/SimpleAccessMethodManager.kt:50-52 | the loop stopped by a full directory page leaves the pages `AddedPages`, which then do not fit |
| AccessMethodManagers.SimplePageDirectory.constructor | src/main/kotlin/net/barashev/dbi2022/SimpleAccessMethodManager.kt:40-41 | the counter starts at 4097, just past the directory pages |
| AccessMethodManagers.SimplePageDirectory.Pages | src/main/kotlin/net/barashev/dbi2022/SimpleAccessMethodManager.kt:42 | `pages(oid)` lists the parsed records of directory page `oid`, and releases its pin |
| AccessMethodManagers.SimplePageDirectory.Add | src/main/kotlin/net/barashev/dbi2022/SimpleAccessMethodManager.kt:44-57 | `add` moves the counter by `count`, puts one record per id onto directory page `oid` up to the first that overflows, and returns the first id; an overflow throws |
| AccessMethodManagers.SimplePageDirectory.Delete | src/main/kotlin/net/barashev/dbi2022/SimpleAccessMethodManager.kt:59-63 | `delete` clears directory page `oid` and keeps every pin count |
| AccessMethodManagers.HasOidFirst | src/main/kotlin/net/barashev/dbi2022/SimpleAccessMethodManager.kt:89-92 | a record carrying the oid, with every earlier record parsing, makes `isValid` true |
| AccessMethodManagers.HasOidFound | src/main/kotlin/net/barashev/dbi2022/SimpleAccessMethodManager.kt:89-92 | `isValid` is true only for a record carrying the oid with every earlier record parsing |
| AccessMethodManagers.HasOidNone | src/main/kotlin/net/barashev/dbi2022/SimpleAccessMethodManager.kt:89-92 | `isValid` is false exactly when every record parses and none carries the oid |
| AccessMethodManagers.SearchOid | src/main/kotlin/net/barashev/dbi2022/SimpleAccessMethodManager.kt:89-92 | the searching loop of `isValid` computes `HasOid` |
| AccessMethodManagers.NextOidOf | src/main/kotlin/net/barashev/dbi2022/SimpleAccessMethodManager.kt:116-122 | the new oid is a 32-bit value |
| AccessMethodManagers.NextOid | src/main/kotlin/net/barashev/dbi2022/SimpleAccessMethodManager.kt:116-122 | `nextTableOid()` on the pages is a 32-bit value |
| AccessMethodManagers.NextOidParses | src/main/kotlin/net/barashev/dbi2022/SimpleAccessMethodManager.kt:116-122 | the new oid can be computed exactly when every name record parses |
| AccessMethodManagers.NextOidExceeds | src/main/kotlin/net/barashev/dbi2022/SimpleAccessMethodManager.kt:116-122 | the new oid is positive and larger than every stored oid, unless one of them is the largest `Int`, past which it wraps to the smallest |
| AccessMethodManagers.SameSlotsUpdate | src/main/kotlin/net/barashev/dbi2022/SimpleAccessMethodManager.kt:99-103 | writing the same slots to one page of two maps that show the same slots keeps them so |
| AccessMethodManagers.TryPagesSame | src/main/kotlin/net/barashev/dbi2022/SimpleAccessMethodManager.kt:99-103 | trying the name-table pages depends only on the slots they show |
| AccessMethodManagers.FailedPutSame | src/main/kotlin/net/barashev/dbi2022/SimpleAccessMethodManager.kt:101 | a put that does not fit leaves the pages showing what they showed |
| AccessMethodManagers.TryPagesReleases | src/main/kotlin/net/barashev/dbi2022/SimpleAccessMethodManager.kt:99-103 | trying pages that all have ids never throws |
| AccessMethodManagers.TryPagesFirst | src/main/kotlin/net/barashev/dbi2022/SimpleAccessMethodManager.kt:99-103 | first fit: when a listed page is the first with room, it takes the record and is the only page that changes |
| AccessMethodManagers.TryPagesFound | src/main/kotlin/net/barashev/dbi2022/SimpleAccessMethodManager.kt:99-103 | the page that takes the record is the first listed page with room |
| AccessMethodManagers.NoRoomCons | src/main/kotlin/net/barashev/dbi2022/SimpleAccessMethodManager.kt:99-103 | no listed page takes the record exactly when the first does not and none of the others does |
| AccessMethodManagers.TryPagesNone | src/main/kotlin/net/barashev/dbi2022/SimpleAccessMethodManager.kt:99-104 | no page takes the record exactly when every listed page can be released and has no room; the pages then show what they showed |
| AccessMethodManagers.SameContents | src/main/kotlin/net/barashev/dbi2022/SimpleAccessMethodManager.kt:75-78 | pages that show the same slots hold the same directory records and the same tables |
| AccessMethodManagers.RowsGrow | src/main/kotlin/net/barashev/dbi2022/SimpleAccessMethodManager.kt:99-110 | when each page keeps its records or gains the new one, every record after is an old one or the new one |
| AccessMethodManagers.RowsAfterPut | src/main/kotlin/net/barashev/dbi2022/SimpleAccessMethodManager.kt:99-110 | after the record is appended to a page, each record of the table is one it held before or the new one |
| AccessMethodManagers.FirstOfNewName | src/main/kotlin/net/barashev/dbi2022/SimpleAccessMethodManager.kt:80-87 | when no earlier record has the name and the new record is the only one added, a lookup finds the new oid |
| AccessMethodManagers.RecordPlacedFound | src/main/kotlin/net/barashev/dbi2022/SimpleAccessMethodManager.kt:99-103 | a name record placed on a listed page of the name table is what a lookup of the name finds |
| AccessMethodManagers.NameRecordParses | src/main/kotlin/net/barashev/dbi2022/SimpleAccessMethodManager.kt:96-97 | the name record `create` writes reads back as `(oid, name)` |
| AccessMethodManagers.TryPagesPlaced | src/main/kotlin/net/barashev/dbi2022/SimpleAccessMethodManager.kt:99-103 | the page that takes the record is listed, has room for it, and is the only page that changes |
| AccessMethodManagers.CreatedOnListedPage | src/main/kotlin/net/barashev/dbi2022/SimpleAccessMethodManager.kt:99-103 | a lookup finds the new oid when a listed page took the record |
| AccessMethodManagers.LookupSame | src/main/kotlin/net/barashev/dbi2022/SimpleAccessMethodManager.kt:80-87 | lookups depend only on the slots the pages show |
| AccessMethodManagers.AddedNameDirectory | src/main/kotlin/net/barashev/dbi2022/SimpleAccessMethodManager.kt:104-106 | `add(NAME_SYSTABLE_OID)` with room lists the page at the counter for the name table and changes only the directory page |
| AccessMethodManagers.AddedNameRows | src/main/kotlin/net/barashev/dbi2022/SimpleAccessMethodManager.kt:104-106 | listing an empty page for the name table adds no record to it |
| AccessMethodManagers.CreatedOnAddedPage | src/main/kotlin/net/barashev/dbi2022/SimpleAccessMethodManager.kt:104-110 | a lookup finds the new oid when the record went to the page the directory added |
| AccessMethodManagers.CreatedRecordFound | src/main/kotlin/net/barashev/dbi2022/SimpleAccessMethodManager.kt:80-114 | create, then look up: for a new name, a lookup in the pages `create` leaves finds the oid it wrote |
| AccessMethodManagers.NamedSlotFound | src/main/kotlin/net/barashev/dbi2022/SimpleAccessMethodManager.kt:128-132 | the `find` of `delete` finds only the first live record on the page with the name, every earlier live record parsing |
| AccessMethodManagers.NamedSlotNone | src/main/kotlin/net/barashev/dbi2022/SimpleAccessMethodManager.kt:128-132 | the `find` finds nothing exactly when every live record parses and none has the name |
| AccessMethodManagers.FindNamedSlot | src/main/kotlin/net/barashev/dbi2022/SimpleAccessMethodManager.kt:128-132 | the searching loop of the `find` computes `NamedSlot` |
| AccessMethodManagers.SweepFails | src/main/kotlin/net/barashev/dbi2022/SimpleAccessMethodManager.kt:127-135 | a page whose search fails fails the sweep of `delete` |
| AccessMethodManagers.SweepStep | src/main/kotlin/net/barashev/dbi2022/SimpleAccessMethodManager.kt:127-135 | one page of the sweep: its first live record with the name, if any, becomes a tombstone |
| AccessMethodManagers.SweepOnlyTombstones | src/main/kotlin/net/barashev/dbi2022/SimpleAccessMethodManager.kt:127-135 | the sweep only turns records into tombstones: every page keeps its slots and bytes, nothing comes back to life, and a page it does not visit is unchanged |
| AccessMethodManagers.RangePairsLength | src/main/kotlin/net/barashev/dbi2022/SimpleAccessMethodManager.kt:48 | `add(oid, count)` writes one record per id handed out |
| AccessMethodManagers.TableOidMapping.constructor | src/main/kotlin/net/barashev/dbi2022/SimpleAccessMethodManager.kt:70-73 | a new mapping memoises nothing |
| AccessMethodManagers.TableOidMapping.Get | src/main/kotlin/net/barashev/dbi2022/SimpleAccessMethodManager.kt:80-87 | `get` answers the memoised oid or the first name record's oid, memoises it (`-1` for none, which reads as no table), and leaves pages and pins as they were |
| AccessMethodManagers.TableOidMapping.IsValid | src/main/kotlin/net/barashev/dbi2022/SimpleAccessMethodManager.kt:89-92 | `isValid(oid)` says whether some name record holds the oid, and releases every pin |
| AccessMethodManagers.TableOidMapping.NextTableOid | src/main/kotlin/net/barashev/dbi2022/SimpleAccessMethodManager.kt:116-122 | `nextTableOid` is one past the largest of 0 and the stored oids |
| AccessMethodManagers.TableOidMapping.PutFirstFit | src/main/kotlin/net/barashev/dbi2022/SimpleAccessMethodManager.kt:99-103 | the `firstOrNull` of `create` tries the listed pages in turn as `TryPages` says; directory page 0 keeps one pin more exactly when the page that takes the record is not the last root record, because the abandoned root-record iterator still holds it; every other pin count is kept |
| AccessMethodManagers.TableOidMapping.Create | src/main/kotlin/net/barashev/dbi2022/SimpleAccessMethodManager.kt:94-114 | `create` returns `nextTableOid()`, places the record on the first page with room or on a page the directory adds, and memoises the name; it fails exactly as `CreateFails` says; after a success directory page 0 holds one pin more exactly when the record went to a page before the last root record |
| AccessMethodManagers.TableOidMapping.Delete | src/main/kotlin/net/barashev/dbi2022/SimpleAccessMethodManager.kt:124-137 | `delete` tombstones the first record with the name on every name-table page and forgets the name |
| AccessMethodManagers.SimpleAccessMethodManager.constructor | src/main/kotlin/net/barashev/dbi2022/SimpleAccessMethodManager.kt:152-154 | a new manager has a fresh directory at its initial counter and an empty mapping |
| AccessMethodManagers.SimpleAccessMethodManager.CreateFullScan | src/main/kotlin/net/barashev/dbi2022/SimpleAccessMethodManager.kt:156-162 | a scan by name lists the records of the table the name resolves to; a name that resolves to no table is an access-method error |
| AccessMethodManagers.SimpleAccessMethodManager.CreateTable | src/main/kotlin/net/barashev/dbi2022/SimpleAccessMethodManager.kt:223-228 | a name that resolves to a table is refused with nothing written; otherwise `create` runs, with the same pin on directory page 0 when the record went to a page before the last root record |
| AccessMethodManagers.SimpleAccessMethodManager.AddPage | src/main/kotlin/net/barashev/dbi2022/SimpleAccessMethodManager.kt:230-235 | `addPage` runs `add` for an oid some name record holds, and is an access-method error changing nothing for any other |
| AccessMethodManagers.SimpleAccessMethodManager.PageCount | src/main/kotlin/net/barashev/dbi2022/SimpleAccessMethodManager.kt:237-240 | `pageCount` is the number of records on the table's directory page |
| AccessMethodManagers.SimpleAccessMethodManager.TableExists | src/main/kotlin/net/barashev/dbi2022/SimpleAccessMethodManager.kt:242 | `tableExists` is whether the name resolves to a table |
| AccessMethodManagers.SimpleAccessMethodManager.DeleteTable | src/main/kotlin/net/barashev/dbi2022/SimpleAccessMethodManager.kt:244-251 | `deleteTable` clears the table's directory page, sweeps its name records and forgets the name; the table's own pages keep their records |
| TableBuilders.Released | src/main/kotlin/net/barashev/dbi2022/TableBuilder.kt:7 | releasing a pin takes one from that page's count when it holds one, and no other count changes |
| TableBuilders.SameSlotsFreshPage | src/main/kotlin/net/barashev/dbi2022/TableBuilder.kt:11-18 | the page `insert` moves to does not depend on how the failed put left the page map |
| TableBuilders.TableBuilder.constructor | src/main/kotlin/net/barashev/dbi2022/TableBuilder.kt:3-4 | a builder writes to the page it was given, over the manager's cache |
| TableBuilders.TableBuilder.NewPage | src/main/kotlin/net/barashev/dbi2022/TableBuilder.kt:6-9 | `newPage` succeeds exactly under `Switches`; then the old page holds one pin fewer, the page `addPage` hands out holds one more and is current; on a failure the current page stays and the pins, pages and counter are those the failing step leaves |
| TableBuilders.TableBuilder.Insert | src/main/kotlin/net/barashev/dbi2022/TableBuilder.kt:11-18 | `insert` appends to the current page; when it is full and the switch goes through, the fresh page is current and pinned, and the result is Ok exactly when the put there succeeds, else the `assert` fails with `AssertionFailed`; when the switch fails the result is an error and the pages, pins and counter are those the failing step leaves |
| TableBuilders.TableBuilder.Close | src/main/kotlin/net/barashev/dbi2022/TableBuilder.kt:20-22 | `close` releases the pin on the current page |
| TableBuilders.Open | src/main/kotlin/net/barashev/dbi2022/TableBuilder.kt:3-9 | a new builder's first page is the one the manager adds to the table, pinned; an unknown table fails |
| Sequences.Without | src/main/kotlin/net/barashev/dbi2022/PageCacheImpl.kt:123 | `remove` on an insertion-ordered collection keeps every other element, in order, and drops exactly `x`, shortening a list without repeats by one |
| Sequences.Added | src/main/kotlin/net/barashev/dbi2022/PageCacheImpl.kt:163 | `add` on an insertion-ordered set puts `x` last unless it is there, keeping the elements distinct |
| Sequences.Range | src/main/kotlin/PageCacheImpl.kt:24-25 | `startPageId until startPageId + pageCount`: `pageCount` consecutive ids, none for a non-positive count |
| Sequences.MissingMembers | src/main/kotlin/PageCacheImpl.kt:26-28 | what `load` admits is exactly the requested ids that are not cached, none twice |
| Sequences.MissingStep | src/main/kotlin/PageCacheImpl.kt:25-29 | one page more of the visit adds its id to what is admitted unless it is cached |
| Sequences.IndexedAdd | src/main/kotlin/PageCacheImpl.kt:42 | filing a new id keeps the key order an exact index of the cache |
| Sequences.IndexedRemove | src/main/kotlin/PageCacheImpl.kt:62 | removing an id keeps the key order an exact index and shortens it by one when the id was cached |
| CachePolicy.SameMap | src/main/kotlin/PageCacheImpl.kt:51 | two maps that agree key by key are the same map |
| CachePolicy.MergeUpdate | src/main/kotlin/PageCacheImpl.kt:51 | one more write-back after the earlier ones is the page map with that page stored |
| Sequences.FlushStop | src/main/kotlin/PageCacheImpl.kt:50-52 | where a write-back loop stops: every earlier listed resident id is non-negative, and the one it stops at is resident and negative |
| Sequences.FlushStopAt | src/main/kotlin/PageCacheImpl.kt:50-52 | a loop that wrote the first ids and met a rejected one, or ran out, stopped where `FlushStop` says |
| DummyPageCaches.PagesOf | src/main/kotlin/PageCacheImpl.kt:50-52 | the disk pages of the listed entries of the cache map |
| DummyPageCaches.PagesOfSnoc | src/main/kotlin/PageCacheImpl.kt:50-52 | one more written id adds its entry's disk page |
| DummyPageCaches.PagesOfAll | src/main/kotlin/PageCacheImpl.kt:50-52 | writing every listed id stores every cached page |
| SimplePageCaches.PagesOfSnoc | src/main/kotlin/net/barashev/dbi2022/PageCacheImpl.kt:111-113 | one more written id adds its entry's disk page, when the main map holds it |
| SimplePageCaches.PagesOfAll | src/main/kotlin/net/barashev/dbi2022/PageCacheImpl.kt:111-113 | writing every listed id stores every cached page |
| CachePolicy.AdmissionKeepsIndex | src/main/kotlin/PageCacheImpl.kt:37-44 | admitting a page keeps the key order an exact index of the cache; a pool within its bound stays within it, one page leaving at the bound for the one that enters |
| CachePolicy.FirstFree | src/main/kotlin/PageCacheImpl.kt:54-58 | the index of the first id with pin count 0 from `i` on, every id before it pinned, or the end when there is none |
| CachePolicy.LoadStepsNext | src/main/kotlin/PageCacheImpl.kt:24-30 | after the ids visited so far, one more step gives where the load stands, and a step that throws is where the whole load ends |
| CachePolicy.LoadStepsStopped | src/main/kotlin/PageCacheImpl.kt:24-30 | once a step of `load` has thrown, the later ids change nothing |
| CachePolicy.LoadStepsUnbounded | src/main/kotlin/PageCacheImpl.kt:24-30 | without a bound `load` never throws and appends exactly the uncached ids, in the order they are visited |
| CachePolicy.LoadStepBound | src/main/kotlin/PageCacheImpl.kt:37-44 | one admission step keeps the ids distinct, and a pool within a non-negative bound stays within it |
| CachePolicy.LoadStepsBound | src/main/kotlin/PageCacheImpl.kt:24-30 | `load` keeps the ids distinct and a pool within its bound, as the eviction test relies on |
| CachePolicy.LoadStepKeeps | src/main/kotlin/PageCacheImpl.kt:37-44 | one step admits only its own id, with pin 0, and evicts only a page with pin 0 |
| CachePolicy.LoadStepsKeeps | src/main/kotlin/PageCacheImpl.kt:24-30 | `load` never drops a pinned page or changes a pin count; every page afterwards was cached before or is one of the ids, with pin 0 |
| CachePolicy.EvictionKeepsIndex | src/main/kotlin/PageCacheImpl.kt:60-63 | eviction keeps the key order an exact index; the page is then written to storage and no longer cached |
| DummyPageCaches.StatsImpl.constructor | src/main/kotlin/PageCacheImpl.kt:19-20 | new statistics count no hit and no miss |
| DummyPageCaches.CachedPage.constructor | src/main/kotlin/PageCacheImpl.kt:9 | a cached page holds its disk page, its cache and its pin count |
| DummyPageCaches.CachedPage.Close | src/main/kotlin/PageCacheImpl.kt:10-16 | `close` fails its assertion without a pin, releases one otherwise, and evicts the page when the last pin goes |
| DummyPageCaches.Pages | src/main/kotlin/PageCacheImpl.kt:22 | the disk pages of a cache map, under the same ids |
| DummyPageCaches.Pins | src/main/kotlin/PageCacheImpl.kt:9 | the pin counts of the cached pages, by id, over the same ids |
| DummyPageCaches.PinsAdmitted | src/main/kotlin/PageCacheImpl.kt:37-44 | removing a victim and filing a new page with pin 0 changes the pin counts the same way |
| DummyPageCaches.AdmissionStep | src/main/kotlin/PageCacheImpl.kt:37-44 | the outcome of `addPage` for an uncached id is one `load` step on the pool |
| DummyPageCaches.DummyPageCache.constructor | src/main/kotlin/PageCacheImpl.kt:19-22 | a new cache is empty |
| DummyPageCaches.DummyPageCache.FirstUnpinnedFrom | src/main/kotlin/PageCacheImpl.kt:54-58 | the first page in insertion order from `i` on whose pin count is 0, every earlier one pinned |
| DummyPageCaches.DummyPageCache.FirstUnpinnedFree | src/main/kotlin/PageCacheImpl.kt:54-58 | the page `evictCandidate` picks is the pool's first free id |
| DummyPageCaches.DummyPageCache.EvictCandidate | src/main/kotlin/PageCacheImpl.kt:54-58 | `evictCandidate` returns the first page in insertion order with pin 0, and fails exactly when every page is pinned |
| DummyPageCaches.DummyPageCache.Evict | src/main/kotlin/PageCacheImpl.kt:60-63 | `evict` writes the page back and removes its id from the cache |
| DummyPageCaches.DummyPageCache.Insert | src/main/kotlin/PageCacheImpl.kt:41-43 | the new cached page has pin 0 and its id goes last in the key order |
| DummyPageCaches.DummyPageCache.AddPage | src/main/kotlin/PageCacheImpl.kt:37-44 | `addPage` evicts the first unpinned page when the cache is full, then files the page with pin 0 |
| DummyPageCaches.DummyPageCache.GetAndPin | src/main/kotlin/PageCacheImpl.kt:32-35 | `getAndPin` pins a cached page without touching storage; otherwise it reads the page, admits it and pins it; no other pin count changes |
| DummyPageCaches.DummyPageCache.LoadOne | src/main/kotlin/PageCacheImpl.kt:25-29 | one step of `load` changes the pool's key order and pin counts exactly as `LoadStep` says for any bound: nothing for a cached id, otherwise the page is admitted with pin 0, evicting the first unpinned page at the bound or throwing when every page is pinned |
| DummyPageCaches.DummyPageCache.Load | src/main/kotlin/PageCacheImpl.kt:24-30 | `load` leaves the pool as `LoadSteps` over the range says, for any bound, stopping at the first step that throws; on an unbounded cache it admits exactly the uncached ids of the range, in order, with pin 0, keeps every cached page and writes nothing back |
| DummyPageCaches.DummyPageCache.Image | src/main/kotlin/PageCacheImpl.kt:22 | the pages the cache holds, by id |
| DummyPageCaches.DummyPageCache.Flush | src/main/kotlin/PageCacheImpl.kt:50-52 | `flush` writes every cached page to storage; it succeeds exactly when every id is non-negative, and the cache does not change; on a failure, exactly the pages before the first negative id in insertion order have been stored |
| SimplePageCaches.StatsImpl.constructor | src/main/kotlin/net/barashev/dbi2022/PageCacheImpl.kt:19 | new statistics count no hit and no miss |
| SimplePageCaches.CachedPage.constructor | src/main/kotlin/net/barashev/dbi2022/PageCacheImpl.kt:26-33 | a cached page starts with its pin count and no reads or writes |
| SimplePageCaches.CachedPage.PutRecord | src/main/kotlin/net/barashev/dbi2022/PageCacheImpl.kt:34-36 | `putRecord` answers as the disk page does and counts one write, making the page dirty |
| SimplePageCaches.CachedPage.DeleteRecord | src/main/kotlin/net/barashev/dbi2022/PageCacheImpl.kt:38-40 | `deleteRecord` tombstones the record and counts one write |
| SimplePageCaches.CachedPage.GetRecord | src/main/kotlin/net/barashev/dbi2022/PageCacheImpl.kt:42-44 | `getRecord` answers as the disk page does and counts one read |
| SimplePageCaches.CachedPage.AllRecords | src/main/kotlin/net/barashev/dbi2022/PageCacheImpl.kt:46-48 | `allRecords` answers as the disk page does and counts one read |
| SimplePageCaches.CachedPage.Close | src/main/kotlin/net/barashev/dbi2022/PageCacheImpl.kt:50-57 | `close` releases a pin if one is held; the last release evicts the page from the main cache, or from the sub-cache's members only |
| SimplePageCaches.Pages | src/main/kotlin/net/barashev/dbi2022/PageCacheImpl.kt:63 | the disk pages of a cache map, under the same ids |
| SimplePageCaches.PagesOf | src/main/kotlin/net/barashev/dbi2022/PageCacheImpl.kt:172 | the disk pages of the cached entries whose ids are listed |
| SimplePageCaches.Pins | src/main/kotlin/net/barashev/dbi2022/PageCacheImpl.kt:26-33 | the pin counts of the cached pages, by id, over the same ids |
| SimplePageCaches.PinsAdmitted | src/main/kotlin/net/barashev/dbi2022/PageCacheImpl.kt:100-107 | removing a victim and filing a new page with pin 0 changes the pin counts the same way |
| SimplePageCaches.AdmissionStep | src/main/kotlin/net/barashev/dbi2022/PageCacheImpl.kt:100-107 | the outcome of `doAddPage` for an uncached id is one `load` step on the pool |
| SimplePageCaches.SubAdmissionStep | src/main/kotlin/net/barashev/dbi2022/PageCacheImpl.kt:154-165 | the outcome of the sub-cache's `doAddPage` for an id the main cache lacks is one sub-cache `load` step |
| SimplePageCaches.SubLoadStepsNext | src/main/kotlin/net/barashev/dbi2022/PageCacheImpl.kt:68-74 | after the ids visited so far, one more sub-cache step gives where the load stands, and a step that throws ends it |
| SimplePageCaches.SubLoadStepsStopped | src/main/kotlin/net/barashev/dbi2022/PageCacheImpl.kt:68-74 | once a sub-cache step has thrown, the later ids change nothing |
| SimplePageCaches.SubLoadStepsUnbounded | src/main/kotlin/net/barashev/dbi2022/PageCacheImpl.kt:131-133 | without a bound the sub-cache's `load` never throws, the main keys gain exactly the ids the main cache lacked, in order, and each joins the members |
| SimplePageCaches.SubLoadStepBound | src/main/kotlin/net/barashev/dbi2022/PageCacheImpl.kt:154-165 | one sub-cache step keeps the keys and the members distinct, the members within a non-negative bound, and brings in only its own id |
| SimplePageCaches.SubLoadStepsBound | src/main/kotlin/net/barashev/dbi2022/PageCacheImpl.kt:131-133 | the sub-cache's `load` keeps the keys and the members distinct and the members within their bound, and brings in only ids of the range |
| SimplePageCaches.SubAdmissionKeepsIndex | src/main/kotlin/net/barashev/dbi2022/PageCacheImpl.kt:154-165 | a sub-cache admission keeps the main key order exact and the member list free of repeats, and a sub-cache within its bound stays within it |
| SimplePageCaches.SimplePageCache.constructor | src/main/kotlin/net/barashev/dbi2022/PageCacheImpl.kt:60-63 | a new cache is empty with zeroed statistics |
| SimplePageCaches.SimplePageCache.FirstUnpinnedFrom | src/main/kotlin/net/barashev/dbi2022/PageCacheImpl.kt:115-119 | the first page in insertion order from `i` on whose pin count is 0, every earlier one pinned |
| SimplePageCaches.SimplePageCache.FirstUnpinnedFree | src/main/kotlin/net/barashev/dbi2022/PageCacheImpl.kt:115-119 | the page `evictCandidate` picks is the pool's first free id |
| SimplePageCaches.SimplePageCache.EvictCandidate | src/main/kotlin/net/barashev/dbi2022/PageCacheImpl.kt:115-119 | `evictCandidate` returns the first page in insertion order with pin 0, and fails exactly when every page is pinned |
| SimplePageCaches.SimplePageCache.Evict | src/main/kotlin/net/barashev/dbi2022/PageCacheImpl.kt:121-124 | `evict` writes the page back and removes its id from the cache |
| SimplePageCaches.SimplePageCache.Insert | src/main/kotlin/net/barashev/dbi2022/PageCacheImpl.kt:104-106 | the new cached page has pin 0, no reads or writes, and its id goes last in the key order |
| SimplePageCaches.SimplePageCache.AddPage | src/main/kotlin/net/barashev/dbi2022/PageCacheImpl.kt:100-107 | `doAddPage` evicts the first unpinned page when the cache is full, then files the page with pin 0 |
| SimplePageCaches.SimplePageCache.Admit | src/main/kotlin/net/barashev/dbi2022/PageCacheImpl.kt:68-98 | the `addPage` argument is this cache's admission or the sub-cache's |
| SimplePageCaches.SimplePageCache.DoGetAndPin | src/main/kotlin/net/barashev/dbi2022/PageCacheImpl.kt:89-98 | a hit returns the cached page and counts a hit; a miss reads and admits the page and counts a miss; the pin count grows by `pinIncrement` and no other page's pin count changes |
| SimplePageCaches.SimplePageCache.Miss | src/main/kotlin/net/barashev/dbi2022/PageCacheImpl.kt:91-97 | the miss branch with this cache's admission |
| SimplePageCaches.SimplePageCache.SubMiss | src/main/kotlin/net/barashev/dbi2022/PageCacheImpl.kt:141-151 | the miss branch with the sub-cache's admission |
| SimplePageCaches.SimplePageCache.Get | src/main/kotlin/net/barashev/dbi2022/PageCacheImpl.kt:76-81 | `get` is `doGetAndPin` with no new pin: a hit returns the cached page with nothing else changed, adds one hit and leaves the misses; a miss admits the page as `doAddPage` does, leaves the hits and adds one miss when the admission succeeds; no other pin count changes |
| SimplePageCaches.SimplePageCache.GetAndPin | src/main/kotlin/net/barashev/dbi2022/PageCacheImpl.kt:83-87 | `getAndPin` is `doGetAndPin` with one new pin: a hit adds one hit and leaves the misses, a miss admits the page, leaves the hits and adds one miss when the admission succeeds; the page's pin count grows by one and no other pin count changes |
| SimplePageCaches.SimplePageCache.LoadOne | src/main/kotlin/net/barashev/dbi2022/PageCacheImpl.kt:69-73 | one step of `doLoad` changes the pool as `LoadStep` says, or, through a sub-cache, the main keys and the members as `SubLoadStep` says, for any bound |
| SimplePageCaches.SimplePageCache.DoLoad | src/main/kotlin/net/barashev/dbi2022/PageCacheImpl.kt:68-74 | `doLoad` leaves the pool as `LoadSteps` (or, through a sub-cache, `SubLoadSteps`) over the range says, for any bound, stopping at the first step that throws; on an unbounded cache it admits exactly the uncached ids, in order, with pin 0, and writes nothing back |
| SimplePageCaches.SimplePageCache.Load | src/main/kotlin/net/barashev/dbi2022/PageCacheImpl.kt:65 | `load` leaves the pool as `LoadSteps` over the range says for any bound, counts no hit or miss, and on an unbounded cache admits exactly the uncached ids of the range, in order, with pin 0, keeping every cached page |
| SimplePageCaches.SimplePageCache.Flush | src/main/kotlin/net/barashev/dbi2022/PageCacheImpl.kt:111-113 | `flush` writes every cached page; it succeeds exactly when every id is non-negative; on a failure, exactly the pages before the first negative id in insertion order have been stored |
| SimplePageCaches.SimplePageCache.CreateSubCache | src/main/kotlin/net/barashev/dbi2022/PageCacheImpl.kt:109 | a new sub-cache over this cache has no members and zeroed statistics |
| SimplePageCaches.Subcache.constructor | src/main/kotlin/net/barashev/dbi2022/PageCacheImpl.kt:127-130 | a new sub-cache has no members |
| SimplePageCaches.Subcache.EvictCandidate | src/main/kotlin/net/barashev/dbi2022/PageCacheImpl.kt:175-176 | the candidate is the main cache's entry for the first member; no member or no entry throws |
| SimplePageCaches.Subcache.Evict | src/main/kotlin/net/barashev/dbi2022/PageCacheImpl.kt:178-180 | `evict` only drops the page from the members |
| SimplePageCaches.Subcache.AddPage | src/main/kotlin/net/barashev/dbi2022/PageCacheImpl.kt:154-165 | `doAddPage` evicts the first member when the sub-cache is full, then files the page in the main cache and as the last member |
| SimplePageCaches.Subcache.DoGetAndPin | src/main/kotlin/net/barashev/dbi2022/PageCacheImpl.kt:138-152 | the sub-cache counts a hit exactly when the page is one of its members and a miss otherwise; the main cache then counts a hit exactly when it holds the page and a miss when it admits it, through the sub-cache's admission; no other pin count changes |
| SimplePageCaches.Subcache.Get | src/main/kotlin/net/barashev/dbi2022/PageCacheImpl.kt:135 | `get` is `doGetAndPin` with no new pin: one hit for a member or one miss otherwise in the sub-cache's statistics, the main cache's hit or miss by its own contents, the admission through the sub-cache when the main cache lacks the page |
| SimplePageCaches.Subcache.GetAndPin | src/main/kotlin/net/barashev/dbi2022/PageCacheImpl.kt:137 | `getAndPin` is `doGetAndPin` with one new pin: one hit for a member or one miss otherwise in the sub-cache's statistics, the main cache's hit or miss by its own contents, the admission through the sub-cache when the main cache lacks the page |
| SimplePageCaches.Subcache.Load | src/main/kotlin/net/barashev/dbi2022/PageCacheImpl.kt:131-133 | the sub-cache's `load` leaves the main keys and the members as `SubLoadSteps` over the range says for any bound, new pages with pin 0, and counts no hit or miss in either cache |
| SimplePageCaches.Subcache.Flush | src/main/kotlin/net/barashev/dbi2022/PageCacheImpl.kt:171-173 | `flush` writes the main cache's entries for the members; it succeeds exactly when each such id is non-negative; on a failure, exactly the entries of the members before the first resident negative id have been stored |
| Text.IndexOf | src/main/kotlin/net/barashev/dbi2022/app/Parser.kt:9-17 | `indexOf(c)`: none exactly when `c` does not occur, otherwise the first position holding `c` |
| Text.Trim | src/main/kotlin/net/barashev/dbi2022/app/Parser.kt:63-65 | `trim()`: a contiguous part of the string with only whitespace cut off at either end, and neither end of the result is whitespace |
| Text.TrimUnchanged | src/main/kotlin/net/barashev/dbi2022/app/Parser.kt:65 | a string with no whitespace at either end, in Kotlin's sense that takes in the Unicode space, line and paragraph separators, trims to itself |
| Text.TrimIdempotent | src/main/kotlin/net/barashev/dbi2022/app/Parser.kt:60-65 | trimming twice is trimming once, and a string trims to nothing exactly when `isBlank()` holds of it |
| Text.Split | src/main/kotlin/net/barashev/dbi2022/app/Parser.kt:35 | `split(",")` always gives at least one piece |
| Text.JoinSplit | src/main/kotlin/net/barashev/dbi2022/app/Parser.kt:35 | splitting on one character loses nothing: the pieces joined with it give the string back, and no piece holds it |
| Text.SplitJoin | src/main/kotlin/net/barashev/dbi2022/app/Parser.kt:16-35 | pieces without the delimiter, joined with it and split again, come back unchanged |
| Text.SplitFirst | src/main/kotlin/net/barashev/dbi2022/app/Parser.kt:45-47 | `split(c, limit = 2)`: the whole string when `c` does not occur, otherwise the part before the first `c` and everything after it |
| Text.SplitRuns | src/main/kotlin/net/barashev/dbi2022/app/Parser.kt:62-63 | splitting on `\s+` or `&+` gives at least one piece and, with a positive limit, no more pieces than the limit |
| Text.SplitThree | src/main/kotlin/net/barashev/dbi2022/app/Parser.kt:63 | three words joined by single spaces split with `limit = 3` into exactly those three |
| Text.SplitRunsJoin | src/main/kotlin/net/barashev/dbi2022/app/Parser.kt:44 | non-empty, separator-free pieces joined by one separator split on separator runs into those pieces |
| Text.SplitRunsEdges | src/main/kotlin/net/barashev/dbi2022/app/Parser.kt:44 | a leading separator run gives an empty first piece and a trailing one an empty last piece |
| Text.SplitRunsStrip | src/main/kotlin/net/barashev/dbi2022/app/Parser.kt:62 | a split on separator runs without a limit drops the separators and nothing else |
| Text.SplitRunsPieces | src/main/kotlin/net/barashev/dbi2022/app/Parser.kt:62-63 | no piece holds a separator, except the last piece of a limited split, which keeps the rest of the string |
| Text.WordTrims | src/main/kotlin/net/barashev/dbi2022/app/Parser.kt:65 | a name without whitespace, Unicode separators included, trims to itself |
| Text.Decimal | src/main/kotlin/net/barashev/dbi2022/txn/LogManager.kt:130-148 | the decimal rendering of an `Int` in a string template is never empty |
| Text.ToInt | src/main/kotlin/net/barashev/dbi2022/app/Parser.kt:65 | `toInt()` succeeds only with a value that fits an `Int`; its digits may come from any script of the Basic Multilingual Plane, as `Character.digit` reads them |
| Text.DigitZero | src/main/kotlin/net/barashev/dbi2022/app/Parser.kt:65 | the zero of the block of ten decimal digits a code point lies in, when there is one; the code point is then one of the ten from that zero |
| Text.DigitValue | src/main/kotlin/net/barashev/dbi2022/app/Parser.kt:65 | the value `Character.digit` gives a digit is between 0 and 9 |
| Text.AsciiDigit | src/main/kotlin/net/barashev/dbi2022/txn/LogManager.kt:130-148 | the ASCII digits `Int.toString()` writes are digits with their usual values |
| Text.ToIntDecimal | src/main/kotlin/net/barashev/dbi2022/app/Parser.kt:65 | `toInt()` reads back what an `Int` renders as, for every `Int` |
| Text.DecimalInjective | src/main/kotlin/net/barashev/dbi2022/txn/LogManager.kt:130-148 | two different `Int`s render differently |
| Parser.MapResult | src/main/kotlin/net/barashev/dbi2022/app/Parser.kt:62-75 | `map` over the pieces with an operation that may throw: succeeds exactly when every piece does, with one value per piece in order; otherwise fails with the first piece's failure |
| Parser.OpOf | src/main/kotlin/net/barashev/dbi2022/app/Parser.kt:66-73 | exactly `=`, `>`, `<`, `<=` and `>=` name a comparison; any other token is the unsupported-predicate error |
| Parser.OpToken | src/main/kotlin/net/barashev/dbi2022/app/Parser.kt:66-71 | every comparison has a token without whitespace or `&` that names it |
| Parser.HoldsConverse | src/main/kotlin/net/barashev/dbi2022/app/Parser.kt:53-57 | `GT` is `LT` with the operands swapped, `GE` is `LE` swapped, and `LE`/`GE` are `LT`/`GT` or `EQ` |
| Parser.TableAndAttribute | src/main/kotlin/net/barashev/dbi2022/app/Parser.kt:64 | `val (table, attribute) = s.split(".", limit = 2)` succeeds exactly when `s` holds a `.`; table, `.` and attribute give `s` back, the table has no `.`; otherwise it is an index out of bounds |
| Parser.TableAndAttributeOf | src/main/kotlin/net/barashev/dbi2022/app/Parser.kt:47 | `table.attribute` with a table without `.` reads back as that table and attribute |
| Parser.FilterAttributeOf | src/main/kotlin/net/barashev/dbi2022/app/Parser.kt:8-11 | the full name of a filtered attribute holds a `.` and reads back as its table and attribute |
| Parser.ParseCondition | src/main/kotlin/net/barashev/dbi2022/app/Parser.kt:62-74 | a parsed condition never asks for an index and compares with an `Int` |
| Parser.ParseFilterClause | src/main/kotlin/net/barashev/dbi2022/app/Parser.kt:59-75 | a blank clause (empty or Kotlin whitespace only, Unicode separators included) has no filters; any other clause is its `&+`-separated conditions, each parsed, the first failure failing the clause |
| Parser.ParseConditionText | src/main/kotlin/net/barashev/dbi2022/app/Parser.kt:62-74 | a condition written as `table.attribute op literal` parses back to the filter it was written from |
| Parser.ConditionParts | src/main/kotlin/net/barashev/dbi2022/app/Parser.kt:63 | a written condition trims to itself and splits into its name, its comparison and its literal |
| Parser.ParseFilterClauseText | src/main/kotlin/net/barashev/dbi2022/app/Parser.kt:59-75 | filters written out and joined by `&` parse back to the same filters, in order |
| Parser.JoinSpec.constructor | src/main/kotlin/net/barashev/dbi2022/app/Parser.kt:15-23 | a new join spec carries the given table and attribute names and no filter |
| Parser.JoinSpec.FilterBy | src/main/kotlin/net/barashev/dbi2022/app/Parser.kt:32-34 | `filterBy` attaches the filter |
| Parser.RealNames | src/main/kotlin/net/barashev/dbi2022/app/Parser.kt:35 | `realTables`: exactly the listed names not starting with `@`, never more of them |
| Parser.JoinAttributeOf | src/main/kotlin/net/barashev/dbi2022/app/Parser.kt:16-35 | for one real table and an attribute without `.`, the full attribute name reads back as that table and attribute |
| Parser.ParseJoinName | src/main/kotlin/net/barashev/dbi2022/app/Parser.kt:46-49 | one side of a pair reads as a name exactly when it holds a `.`, otherwise an index out of bounds |
| Parser.ParseJoinPair | src/main/kotlin/net/barashev/dbi2022/app/Parser.kt:45-50 | a pair reads exactly when it holds a `:` and both sides hold a `.`; otherwise an index out of bounds |
| Parser.ParseJoinNames | src/main/kotlin/net/barashev/dbi2022/app/Parser.kt:41-51 | a blank clause (empty or Kotlin whitespace only, Unicode separators included) has no pairs; any other clause is one pair per `\s+`-separated token, the first failure failing the clause; the only failure is an index out of bounds |
| Parser.JoinClauseEdgeSpace | src/main/kotlin/net/barashev/dbi2022/app/Parser.kt:42-45 | a clause that is not blank but starts or ends with whitespace fails: the empty token there is not a pair |
| Parser.ParseJoinClause | src/main/kotlin/net/barashev/dbi2022/app/Parser.kt:41-51 | `parseJoinClause`: the failure of reading the pairs, or one pair of new join specs per pair read, in order, carrying its names and no filter |
| Parser.NewSpecsAll | src/main/kotlin/net/barashev/dbi2022/app/Parser.kt:44-51 | one pair of new, unfiltered join specs per pair of names, in order |
| Parser.NewSpecs | src/main/kotlin/net/barashev/dbi2022/app/Parser.kt:46-50 | both sides of a pair become new join specs with its names |
| Parser.ParsePairText | src/main/kotlin/net/barashev/dbi2022/app/Parser.kt:45-50 | a pair written as `table.attribute:table.attribute` has no whitespace and reads back to the pair |
| Parser.ParseJoinClauseText | src/main/kotlin/net/barashev/dbi2022/app/Parser.kt:41-51 | pairs written out and joined by spaces read back to the same pairs, in order |
| Parser.ParseIndexSpec | src/main/kotlin/net/barashev/dbi2022/app/Parser.kt:82-83 | a trimmed index name reads exactly when it holds a `.`, as table and attribute that give it back; otherwise an index out of bounds |
| Parser.ParseIndexClause | src/main/kotlin/net/barashev/dbi2022/app/Parser.kt:78-84 | a blank clause (empty or Kotlin whitespace only, Unicode separators included) has no indexes; any other clause is one index per comma-separated name, the first failure failing the clause |
| Parser.ParseIndexText | src/main/kotlin/net/barashev/dbi2022/app/Parser.kt:82-83 | an index written as `table.attribute` has no `,` and reads back to the index |
| Parser.ParseIndexClauseText | src/main/kotlin/net/barashev/dbi2022/app/Parser.kt:78-84 | index names written out and joined by commas read back to the same indexes, in order |
| LogManagers.Lines | src/main/kotlin/net/barashev/dbi2022/txn/LogManager.kt:129-148 | one log line per event, in order |
| LogManagers.ParseLineLine | src/main/kotlin/net/barashev/dbi2022/txn/LogManager.kt:130-148 | every log line reads back as the event it was written for, so different events give different lines |
| LogManagers.LineHasNoBreak | src/main/kotlin/net/barashev/dbi2022/txn/LogManager.kt:130-148 | no log line holds a line break |
| LogManagers.LogText | src/main/kotlin/net/barashev/dbi2022/txn/LogManager.kt:150 | `toString` loses nothing: the text split at line breaks gives one line per event, each reading back as its event, in order |
| LogManagers.FakeWAL.constructor | src/main/kotlin/net/barashev/dbi2022/txn/LogManager.kt:128-129 | a new log is empty |
| LogManagers.FakeWAL.Append | src/main/kotlin/net/barashev/dbi2022/txn/LogManager.kt:129-148 | `log.add`: the line of the event is appended and nothing else changes |
| LogManagers.FakeWAL.TransactionStarted | src/main/kotlin/net/barashev/dbi2022/txn/LogManager.kt:130-132 | `<START T..>` is appended |
| LogManagers.FakeWAL.BeforePageWrite | src/main/kotlin/net/barashev/dbi2022/txn/LogManager.kt:134-136 | `<BEFORE T.., page>` is appended |
| LogManagers.FakeWAL.AfterPageWrite | src/main/kotlin/net/barashev/dbi2022/txn/LogManager.kt:138-140 | `<AFTER T.., page>` is appended |
| LogManagers.FakeWAL.TransactionAborted | src/main/kotlin/net/barashev/dbi2022/txn/LogManager.kt:142-144 | `<ABORT T.. (modified n pages)>` is appended, `n` the number of modified pages |
| LogManagers.FakeWAL.TransactionCommitted | src/main/kotlin/net/barashev/dbi2022/txn/LogManager.kt:146-148 | `<COMMIT T.. (modified n pages)>` is appended, `n` the number of modified pages |
| LogManagers.Add | src/main/kotlin/net/barashev/dbi2022/txn/LogManager.kt:87 | `MutableSet.add`: the page joins the set, which stays free of repeats, and a known page changes nothing |
| LogManagers.Tracked | src/main/kotlin/net/barashev/dbi2022/txn/LogManager.kt:83-92 | a write makes the page part of the writer's write set (created on first write) and marks it; every other write set stays |
| LogManagers.Finish | src/main/kotlin/net/barashev/dbi2022/txn/LogManager.kt:95-112 | `txnWrites.remove(txn)` then `allWrites.removeAll`: the write set of `txn` goes, every other stays, and exactly its pages lose their mark |
| LogManagers.TrackKeeps | src/main/kotlin/net/barashev/dbi2022/txn/LogManager.kt:83-92 | a write keeps write sets repeat-free and non-empty, and every marked page in some write set |
| LogManagers.FinishKeeps | src/main/kotlin/net/barashev/dbi2022/txn/LogManager.kt:95-112 | a commit or abort keeps write sets repeat-free and non-empty, and every marked page in some write set |
| LogManagers.TrackExact | src/main/kotlin/net/barashev/dbi2022/txn/LogManager.kt:83-92 | a write keeps the marked pages exactly the pages of the write sets |
| LogManagers.FinishExact | src/main/kotlin/net/barashev/dbi2022/txn/LogManager.kt:95-112 | with disjoint write sets, a commit or abort keeps the marks exact and the sets disjoint |
| LogManagers.FinishShared | src/main/kotlin/net/barashev/dbi2022/txn/LogManager.kt:95-115 | when two running transactions wrote the same page, finishing one unmarks the page the other still holds |
| LogManagers.TrackFinish | src/main/kotlin/net/barashev/dbi2022/txn/LogManager.kt:83-112 | one write followed by a commit leaves the write sets as they were and the page unmarked |
| LogManagers.LogManager.constructor | src/main/kotlin/net/barashev/dbi2022/txn/LogManager.kt:70-79 | a new log manager tracks no writes |
| LogManagers.LogManager.Start | src/main/kotlin/net/barashev/dbi2022/txn/LogManager.kt:81-82 | `start`: `<START>` is logged and nothing is tracked yet |
| LogManagers.LogManager.Track | src/main/kotlin/net/barashev/dbi2022/txn/LogManager.kt:83-92 | the tracker: `BEFORE` is logged before a write, `AFTER` after one; either way the page joins the write set and is marked |
| LogManagers.LogManager.Abort | src/main/kotlin/net/barashev/dbi2022/txn/LogManager.kt:95-105 | `abort`: the write set goes with its marks, its pages are reset in first-write order and `ABORT` is logged with their number; a transaction that wrote nothing changes nothing |
| LogManagers.LogManager.ResetAll | src/main/kotlin/net/barashev/dbi2022/txn/LogManager.kt:98-102 | each page is reset, in the order given |
| LogManagers.LogManager.Commit | src/main/kotlin/net/barashev/dbi2022/txn/LogManager.kt:107-113 | `commit`: the write set goes with its marks and `COMMIT` is logged with the number of pages; a transaction that wrote nothing changes nothing |
| LogManagers.RevertableStorage.constructor | src/main/kotlin/net/barashev/dbi2022/txn/LogManager.kt:120 | the storage wraps the real storage and asks the log manager |
| LogManagers.RevertableStorage.Write | src/main/kotlin/net/barashev/dbi2022/txn/LogManager.kt:121-125 | a write of a marked page is dropped; any other goes to the real storage, with its error for a negative id |
| Schedulers.FakeNeverBlocks | src/main/kotlin/net/barashev/dbi2022/Transactions.kt:81-97 | the fake scheduler lets every read have its own page, lets every write go ahead and wakes nobody |
| Schedulers.HolderExcludes | src/test/kotlin/net/barashev/dbi2022/TransactionManagerTest.kt:94-123 | while the holder neither commits nor aborts it keeps the block, and every write by another transaction waits for it |
| Schedulers.QueueOnlyGrows | src/test/kotlin/net/barashev/dbi2022/TransactionManagerTest.kt:94-123 | the wait queue is never cleared: every list of actions keeps the old queue as a prefix |
| Schedulers.WaiterResumed | src/test/kotlin/net/barashev/dbi2022/TransactionManagerTest.kt:99-122 | a writer that had to wait is among the transactions the holder's next commit or abort hands out, and the block is free |
| Schedulers.BlockAllOnWriteScheduler.constructor | src/test/kotlin/net/barashev/dbi2022/TransactionManagerTest.kt:95-96 | nobody holds the block and nobody waits |
| Schedulers.BlockAllOnWriteScheduler.Read | src/test/kotlin/net/barashev/dbi2022/TransactionManagerTest.kt:97 | every read goes ahead on its own page |
| Schedulers.BlockAllOnWriteScheduler.Write | src/test/kotlin/net/barashev/dbi2022/TransactionManagerTest.kt:99-106 | `write` is one step of the block: go ahead when free or held by the writer, otherwise queue and wait for the holder |
| Schedulers.BlockAllOnWriteScheduler.Commit | src/test/kotlin/net/barashev/dbi2022/TransactionManagerTest.kt:108-114 | `commit` by the holder frees the block and hands out the queue; by anyone else it does nothing |
| Schedulers.BlockAllOnWriteScheduler.Abort | src/test/kotlin/net/barashev/dbi2022/TransactionManagerTest.kt:116-122 | `abort` by the holder frees the block and hands out the queue; by anyone else it does nothing |
| Schedulers.Scenario | src/test/kotlin/net/barashev/dbi2022/TransactionManagerTest.kt:46-89 | the test's schedule: the first writer goes ahead, the second waits for it, is handed out by its commit and then goes ahead |
| FakeOperations.Insert | src/main/kotlin/net/barashev/dbi2022/fake/FakeOperations.kt:13 | placing one more position keeps the list in key order, ties by position, and adds exactly that position |
| FakeOperations.SortPrefix | src/main/kotlin/net/barashev/dbi2022/fake/FakeOperations.kt:13 | the first `n` positions, strictly ordered by key and then position |
| FakeOperations.StableOrder | src/main/kotlin/net/barashev/dbi2022/fake/FakeOperations.kt:13 | `mapIndexed { .. }.sortedBy { it.first }`: every position once, in key order, ties in scan order |
| FakeOperations.OrderedUnique | src/main/kotlin/net/barashev/dbi2022/fake/FakeOperations.kt:13 | only one list of the positions is in that order, so the stable sort is fully determined |
| FakeOperations.SortedStays | src/main/kotlin/net/barashev/dbi2022/fake/FakeOperations.kt:13 | rows already in key order keep their scan order |
| FakeOperations.SortedRecords | src/main/kotlin/net/barashev/dbi2022/fake/FakeOperations.kt:13-17 | the records of the scan, one per position of the stable order |
| FakeOperations.AppendFits | src/main/kotlin/net/barashev/dbi2022/fake/FakeOperations.kt:17 | a put with room appends the record live at the end and takes its bytes and one directory entry |
| FakeOperations.PutAllFits | src/main/kotlin/net/barashev/dbi2022/fake/FakeOperations.kt:16-18 | when the page has room for all records, the puts append them all, in order |
| FakeOperations.PutEach | src/main/kotlin/net/barashev/dbi2022/fake/FakeOperations.kt:16-18 | every record is put onto the output page, in order, whatever each put reports; other pages and the pins stay |
| FakeOperations.Sort | src/main/kotlin/net/barashev/dbi2022/fake/FakeOperations.kt:8-21 | the records go onto the output page in sorted order and the page is closed again; the name is `output` unless the close fails |
| FakeOperations.SortSortedInput | src/main/kotlin/net/barashev/dbi2022/fake/FakeOperations.kt:8-21 | sorted records that fit on an empty page end up there live, in scan order |
| FakeOperations.Matches | src/main/kotlin/net/barashev/dbi2022/fake/FakeOperations.kt:32-38 | the right positions whose key equals the left key, in scan order |
| FakeOperations.JoinIndices | src/main/kotlin/net/barashev/dbi2022/fake/FakeOperations.kt:29-39 | exactly the position pairs with equal keys, left-major, then right |
| FakeOperations.JoinIndicesStep | src/main/kotlin/net/barashev/dbi2022/fake/FakeOperations.kt:29-39 | one more left row adds its matches at the end |
| FakeOperations.MatchesStep | src/main/kotlin/net/barashev/dbi2022/fake/FakeOperations.kt:32-38 | one more right row adds its pair at the end when the keys are equal |
| FakeOperations.MatchRow | src/main/kotlin/net/barashev/dbi2022/fake/FakeOperations.kt:32-38 | the inner loop gives the output rows of one left row against every right row, in order |
| FakeOperations.NestedLoops | src/main/kotlin/net/barashev/dbi2022/fake/FakeOperations.kt:27-50 | `join`: for each left row, every right row with an equal key, in order, as a pair of their bytes |
| FakeOperations.JoinOutput.constructor | src/main/kotlin/net/barashev/dbi2022/fake/FakeOperations.kt:40-41 | the iterator starts before the first row |
| FakeOperations.JoinOutput.Next | src/main/kotlin/net/barashev/dbi2022/fake/FakeOperations.kt:44 | `next()`: the next row and one step on, or `NoSuchElementException` at the end |
| FakeOperations.JoinOutput.Drain | src/main/kotlin/net/barashev/dbi2022/fake/FakeOperations.kt:42-44 | draining with `hasNext`/`next` gives the remaining rows, in order |
| LogManagers.NoRecoveryRun | src/main/kotlin/net/barashev/dbi2022/txn/LogManager.kt:153-156 | `NoRecovery.run` leaves the log storage and the main storage unchanged |

## Left out

- `TransactionManager.kt` and the threads, coroutines, latches and channels of the transaction tests: their point is concurrency. The blocking scheduler is modelled as a sequential state machine with a plain integer in place of the `AtomicInteger`.
- The access-cost counter of `HardDiskEmulatorStorage`: floating-point arithmetic with no effect on stored pages.
- The timestamps in `CachedPageUsage` come from the system clock: only the read and write counts are modelled.
- `app/Engine.kt`, `JoinExecutor.kt`, `app/Main.kt`, `app/DataGenerator.kt`, `app/Initialize.kt`, `app/Metadata.kt`, `app/QueryOptimizer.kt` and `Statistics.kt`: process-wide factories, a command-line front end, random data and constant stubs.
- The index methods of `SimpleAccessMethodManager`, `Indexes.kt` and `fake/FakeIndexes.kt`: a global index factory and a stub.
- Data values are arbitrary byte strings. Record parsers handed to scans as closures are modelled by the fixed `(oid, pageId)` and `(oid, name)` record parsers the catalogs use. Other tables' records are read as raw bytes.
- `createSubCache` of `DummyPageCacheImpl` and of `SubcacheImpl` is `TODO()` in the source and is not modelled.
- `CachedPage.reset()` and `clear()` are declared outside this code. A reset is recorded as an event in `LogManagers.LogManager.resets`, and `clear` empties the page's slot list.
- The second-generation `Storage`, `DiskPage` and `CachedPage` declarations are not part of this model. The first-generation disk page and emulated disk stand in for both generations.
- `OidNameRecord` is declared as a three-field record (`Record3<Oid, String, Boolean>`), but every use builds and parses two fields. It is modelled as the two-field record `(oid, name)`.
- `DumbSystemCatalogs.TableOidMapping.Get`, `AccessMethodManagers.TableOidMapping.Get`, `AccessMethodManagers.TableOidMapping.IsValid`: name-table lookups (`firstOrNull` over a full scan) are modelled as reading the whole name table and then searching it. A scan that the search abandons keeps its current page pinned in the source; the model releases every pin of the read. Errors differ too: the source parses record k+1 before it tests record k and reads root records only as it goes, while the model parses name records up to the match and every root record first, so on an unparsable record the model may answer where the source throws, or the reverse.
- `FullScanAccessImpl` and its `pages()` are not part of this snapshot. Their use is modelled by the list of table pages a directory lists (`Scans.TablePages`).
- The root records of a directory are read once, as a list, before the table pages are visited. The source interleaves the two reads, but no operation here changes a directory page during a scan.
- `TableBuilders.Open`: the builder is given the manager's own page cache. The source accepts any `PageCache`.
- `FakeOperations.Sort`: it starts from the scanned rows with their keys and from the page `addPage` handed out. The scan, `createTable("output")` and `addPage` are the manager operations modelled in `AccessMethodManagers`.
- `FakeOperations.NestedLoops`: both scans are given as rows with their join keys. Rescanning the right table once per left row reads the same rows each time, because nothing writes in between.
- `PageStores.PageStore`: the page cache as the access methods see it is an unbounded pool, and is not proved to be either buffer pool. Its `GetAndPin` never fails, where both pools throw `IllegalStateException` when they are full and every page is pinned; so every catalog, scan and table-builder contract that promises `Ok` holds for an unbounded pool only.
- `PageStores.PageStore`: the first-generation write-back on the last `close` and the admissions and evictions of the log manager's `pageCache.get` are not reflected in it; it keeps page contents only.
- `DumbSystemCatalogs.RoomyFits`: `it.diskPage.recordHeaderSize` is not declared in this source; it is taken to be the 4-byte directory entry.
- `FullScans.FullScanIterator.SeekFirstPage`: the root-record iterator's pin on the directory page is not part of the scan's state. The seek states where the root position stops, and the catalogs add that pin to their own contracts.
- `Text.IsWhitespace`: U+180E is whitespace only on a runtime whose Unicode tables are older than version 6.3; the model follows the newer tables.
- `FakeOperations`: the `Comparable` keys of the fake sort and join are modelled as integers.
- `AccessMethodManagers.TableOidMapping.Create`: on a failure, only the memo is stated; the pages a failed put or add leaves behind are not.
- `AccessMethodManagers.TableOidMapping.Delete`: on a failure, the pages already swept are not stated.
- `AccessMethodManagers.SimpleAccessMethodManager.CreateTable`: on a failure, the pages left behind are not stated.
- `AccessMethodManagers.SimpleAccessMethodManager.DeleteTable`: on a failure, the pages left behind are not stated.
- `DumbSystemCatalogs.TableOidMapping.Create`: on a failure, only the memo is stated; the pages left behind are not. The pins after a success are stated only when the name table holds records.
- `DumbSystemCatalogs.DumbSystemCatalog.CreateTable`: on a failure, the pages left behind are not stated.
- `TableBuilders.TableBuilder.NewPage`: when the name table holds a record that does not parse, `isValid` throws partway through its scan, and the pins that scan leaves are not stated.
- `TableBuilders.TableBuilder.Insert`: the same holds for the page switch on a full page: the pins after an unparsable name record are not stated.
- `Schedulers.WriteResult`: `WriteOk` carries no `versionWriteCallback`, because the callback of every scheduler modelled here (`FakeScheduler` and `BlockAllOnWriteScheduler`) does nothing.

## Findings

| source | as written | input that shows it | evidently intended | confidence | as-written member | corrected member |
|---|---|---|---|---|---|---|
| src/main/kotlin/StorageImpl.kt:42 | an append is refused only when `size > freeSpace + 4` | an empty page (free space 4092) and a 4096-byte record: the guard lets it through, the record starts at byte 0 over the header and its own directory entry, and record 0 then reads back bytes that differ from what was put | refuse an append unless the record and its 4-byte directory entry both fit, `size + 4 > freeSpace` | high; not executed | PageLayout.AppendGuardOverrun | PageLayout.AppendCorrect |
| src/main/kotlin/StorageImpl.kt:25-35 | a page rebuilt from existing bytes takes `directorySize` from the header but starts `lastRecordOffset` at 4096 | a page whose only record is the byte 1, copied by `writePageSequence`, then an append of the byte 2: the new record is written at byte 4095, over record 0 | restore the start of the record area from the last directory entry | high; not executed | DiskPages.RebuiltAppendOverwrites | DiskPages.DiskPage.Rebuilt |
| src/main/kotlin/DumbSystemCatalogImpl.kt:34-54 | `create` writes a name record whose oid field is the default 0, and `nextTableOid` is the largest of 1 and the stored oids, with no increment | creating tables `a` and then `b` on a new catalog: both get oid 1, so both list their pages on directory page 1 | every new table gets an oid larger than every stored one, and that oid is written into its record, as the second generation does | high; not executed | DumbSystemCatalogs.EveryOidIsOne | AccessMethodManagers.NextOidExceeds |
| src/main/kotlin/DumbSystemCatalogImpl.kt:38-40 | `create` looks for a page with room by calling `seekFirstPage` on a fresh scan, whose `init` has already moved onto the first table page | a name table whose only page, 4097, holds one record and has room: the seek finds no page and the directory adds a new one, on every `create` | the seek considers every page of the name table, first one included | high; not executed | DumbSystemCatalogs.SeekSkipsFirstPage | AccessMethodManagers.TryPagesFirst |
