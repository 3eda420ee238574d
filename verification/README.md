# SimpleDB storage layer in Dafny

This project models the storage core of SimpleDB, a small teaching database written in Java. It covers four pieces:

- **Schemas** (`TupleDesc`): the fixed-width field types of a table and their names.
- **Heap pages** (`HeapPage`): how one page's bytes are split into a slot bitmap (the header) and fixed-size slots. The model covers how a page is decoded from bytes, how it is encoded back, and the iterator over its occupied slots.
- **Heap files** (`HeapFile`): a table stored as consecutive pages. The model covers the page count and the iterator that walks the pages through the buffer pool.
- **Sequential scans** (`SeqScan`): the operator that scans one table. It reports the table's schema with every field name qualified by the scan's alias.

Files and modules, in dependency order:

| file | module | contents |
|---|---|---|
| `util.dfy` | `Util` | the Java `byte` (`int8`), exceptions as an `Error` datatype, `Option`/`Result`, Java integer helpers |
| `types.dfy` | `Types` | field types known by a positive byte length; a field value is the bytes that encode it |
| `schema.dfy` | `Schema` | `TupleDesc` as a value, its constructors and queries, `equals`, `TDItemIterator` |
| `page_format.dfy` | `PageFormat` | the page layout: slot count, header size, header bit tests, decoding and encoding a page image, the tuples of occupied slots in slot order |
| `heap_page.dfy` | `HeapPages` | class `HeapPage` over `header` and `tuples` arrays, built by `Read`; class `UsedTupleIterator` |
| `heap_file.dfy` | `HeapFiles` | class `HeapFile`; class `HeapFileIterator`; the functions that specify its one-page lookahead |
| `seq_scan.dfy` | `SeqScans` | class `SeqScan` over a catalog and a buffer pool given as parameters |

Some pieces are parameters instead of singletons:

- The buffer pool's page size is a `pageSize` parameter.
- The catalog is a map from table id to the table's heap file and name.
- The buffer pool's pages are a function from page id to the tuples that page's iterator yields.

### How decoding behaves

The `HeapPage` constructor turns `data` into a page.

- With `S = floor(8P / (8L + 1))` slots and `H = ceil(S / 8)` header bytes, it fails with `IOException` when `data` is shorter than `H`.
- A slot that the data cuts short raises `NoSuchElementException` inside the slot loop. That exception is swallowed, so that slot and every later slot stay null.
- If such a slot is marked used and the schema has a field, the constructor's final `setBeforeImage()` call reaches it through `getPageData()` and dereferences null. The constructor then fails with `NullPointerException`.

`PageFormat.Decode` states exactly this. `PageFormat.DecodeSucceeds` gives the resulting condition on `data`.

### How the heap file iterator behaves

The heap file iterator's `hasNext()` looks at most one page ahead. A drain (`open()`, then `while (hasNext()) next()`) therefore stops at the first empty page after page 0. Tuples on later pages are never returned. The model keeps this behaviour, and `HeapFiles.DrainedStopsAtEmpty` states it.

`open()` requests page 0 whatever the page count is, so a file with no whole page is still scanned from page 0. What such a scan yields depends on what the buffer pool returns for a page beyond the end of the file. `HeapFiles.EmptyFileScan` states that the scan yields that page's tuples, and nothing when that page is empty. A page of zero bytes is such an empty page: `PageFormat.EmptyPageDecodes` shows that it decodes with every slot free.

## Model

| member | source | states |
|---|---|---|
| Util.JavaDiv | src/main/java/simpledb/storage/HeapPage.java:351 | `i / 8` truncates toward zero: `q * 8` is the multiple of 8 nearest `i` on the side of zero, so `q * 8 <= i < q * 8 + 8` for non-negative `i` and `q * 8 - 8 < i <= q * 8 <= 0` for negative `i` |
| Util.JavaRem | src/main/java/simpledb/storage/HeapPage.java:353 | `i % 8` keeps the dividend's sign, lies strictly between -8 and 8, and recombines with the quotient to `i` |
| Util.ToByte | src/main/java/simpledb/storage/HeapPage.java:366 | the `(byte)` cast keeps the value modulo 256 |
| Util.Unsigned | src/main/java/simpledb/storage/HeapPage.java:366 | the unsigned reading of a byte lies in 0..255 and agrees with it modulo 256 |
| Types.Parse | src/main/java/simpledb/storage/HeapPage.java:187 | parsing a field succeeds exactly when the type's length in bytes remains, and then takes exactly those bytes; otherwise it fails with a ParseException |
| Types.Serialize | src/main/java/simpledb/storage/HeapPage.java:244 | a field's bytes; `Types.ParseSerialize` states that parsing them gives the field back |
| Types.ParseSerialize | src/main/java/simpledb/storage/HeapPage.java:187 | parsing a serialized field gives it back, whatever surrounds it |
| Schema.FieldTypes | src/main/java/simpledb/storage/TupleDesc.java:182-188 | the field types, one per item, in schema order |
| Schema.TotalLenAppend | src/main/java/simpledb/storage/TupleDesc.java:216-223 | the byte length of concatenated type lists is the sum of their lengths |
| Schema.TotalLenPrefix | src/main/java/simpledb/storage/TupleDesc.java:216-223 | a prefix plus the next field fits in the record length; a non-empty record has at least one byte per field |
| Schema.FromTypesAndNames | src/main/java/simpledb/storage/TupleDesc.java:112-129 | throws IllegalArgumentException for an empty type array or arrays of different lengths; otherwise item `i` is `(typeAr[i], fieldAr[i])` |
| Schema.FromTypes | src/main/java/simpledb/storage/TupleDesc.java:138-141 | throws for an empty array; otherwise the same types with every name null |
| Schema.FromItems | src/main/java/simpledb/storage/TupleDesc.java:143-149 | rejects a null or empty item array; otherwise keeps the items as given |
| Schema.NumFields | src/main/java/simpledb/storage/TupleDesc.java:154-157 | the number of items; `GetFieldName`, `GetFieldType` and `FromTypesAndNames` state their contracts in terms of it |
| Schema.GetFieldName | src/main/java/simpledb/storage/TupleDesc.java:166-172 | IllegalArgumentException exactly when `i` is outside `0..numFields-1`; otherwise item `i`'s name |
| Schema.GetFieldType | src/main/java/simpledb/storage/TupleDesc.java:182-188 | the same, for item `i`'s type |
| Schema.FieldNameToIndex | src/main/java/simpledb/storage/TupleDesc.java:197-210 | the smallest index whose name equals `name`; NoSuchElementException exactly when `name` is null or nothing matches |
| Schema.GetSize | src/main/java/simpledb/storage/TupleDesc.java:216-223 | the sum of the field types' lengths |
| Schema.Merge | src/main/java/simpledb/storage/TupleDesc.java:233-243 | td1's items in order, then td2's; `n1 + n2` fields; the size is the sum of the sizes |
| Schema.MergeSize | src/main/java/simpledb/storage/TupleDesc.java:233-243 | the record length of the merged schema is the sum of the two lengths |
| Schema.ItemEquals | src/main/java/simpledb/storage/TupleDesc.java:52-64 | two items are equal exactly when type and name agree, null matching only null; a null name in the argument against a non-null one in the receiver throws NullPointerException |
| Schema.CompareItemsTrue | src/main/java/simpledb/storage/TupleDesc.java:255-274 | the position-by-position scan answers true exactly when the item lists are equal |
| Schema.CompareItemsThrows | src/main/java/simpledb/storage/TupleDesc.java:255-274 | the scan throws exactly when the first position with a difference has a null name in the argument and a non-null name in the receiver |
| Schema.Equals | src/main/java/simpledb/storage/TupleDesc.java:255-274 | false for null or different field counts; true exactly for equal schemas (names are compared as well as types); the NullPointerException case exactly |
| Schema.TDItemIterator.HasNext | src/main/java/simpledb/storage/TupleDesc.java:87-89 | true while the cursor is before the last item; `Next` throws exactly when it is false |
| Schema.TDItemIterator.Next | src/main/java/simpledb/storage/TupleDesc.java:82-98 | returns the item at `pos` and advances, or NoSuchElementException after the last |
| Schema.IterateItems | src/main/java/simpledb/storage/TupleDesc.java:82-98 | draining the item iterator yields every item in index order |
| PageFormat.NumSlots | src/main/java/simpledb/storage/HeapPage.java:99-106 | `floorDiv(8P, 8L + 1)`; `NumSlotsBounds` states that it is the largest slot count that fits |
| PageFormat.NumSlotsBounds | src/main/java/simpledb/storage/HeapPage.java:99-106 | `S` slots with their header bits fit in the page and `S + 1` would not |
| PageFormat.HeaderSize | src/main/java/simpledb/storage/HeapPage.java:115-125 | `ceil(S / 8)`: the fewest whole bytes that hold `S` bits |
| PageFormat.LayoutFits | src/main/java/simpledb/storage/HeapPage.java:253 | `H + S*L <= P`, so the padding length is never negative |
| PageFormat.SlotInRegion | src/main/java/simpledb/storage/HeapPage.java:82-84 | slot `i` of `S` lies inside the slot region |
| PageFormat.IsOne | src/main/java/simpledb/storage/HeapPage.java:362-367 | the shift-and-cast sign test as written; `IsOneIsBitAt` and `IsOneNegativePosition` state what it reads |
| PageFormat.IsOneIsBitAt | src/main/java/simpledb/storage/HeapPage.java:362-367 | `(byte)(b << (7 - pos)) < 0` is bit `pos` of `b` counted from the least significant bit |
| PageFormat.ShiftedSign | src/main/java/simpledb/storage/HeapPage.java:366 | a left shift by `k` brings bit `7 - k` into the sign position of the low byte |
| PageFormat.IsOneNegativePosition | src/main/java/simpledb/storage/HeapPage.java:345-366 | for a negative slot index the shift distance exceeds 7 and the test is always false |
| PageFormat.IsSlotUsed | src/main/java/simpledb/storage/HeapPage.java:345-355 | in range it is the slot's header bit; a small negative index reads as free; otherwise ArrayIndexOutOfBoundsException, exactly in those cases |
| PageFormat.CountUsed | src/main/java/simpledb/storage/HeapPage.java:400 | the number of used slots before `k`, at most `k`; `CountUsedCounts` states what it counts |
| PageFormat.CountUsedCounts | src/main/java/simpledb/storage/HeapPage.java:398-400 | `CountUsed(k)` is the size of the set of used slots below `k` |
| PageFormat.EmptySlots | src/main/java/simpledb/storage/HeapPage.java:331-340 | the free slots below `k`, counted one by one; `EmptyPlusUsed` relates it to the used count |
| PageFormat.EmptyPlusUsed | src/main/java/simpledb/storage/HeapPage.java:331-340 | free slots plus used slots make all slots |
| PageFormat.CountUsedMonotone | src/main/java/simpledb/storage/HeapPage.java:398-417 | the used-slot count only grows, and strictly past a used slot |
| PageFormat.ParseFields | src/main/java/simpledb/storage/HeapPage.java:186-189 | fields parsed in schema order match the schema's types one for one |
| PageFormat.SerializeFieldsLength | src/main/java/simpledb/storage/HeapPage.java:241-249 | a tuple's fields serialize to exactly the record length |
| PageFormat.ParseFieldsStep | src/main/java/simpledb/storage/HeapPage.java:186-189 | parsing one more field appends the field read right after the bytes of the earlier ones |
| PageFormat.ParseFieldsFrame | src/main/java/simpledb/storage/HeapPage.java:186-189 | parsing a record reads only its own `L` bytes |
| PageFormat.ParseSerializeFields | src/main/java/simpledb/storage/HeapPage.java:186-189 | parsing a tuple's serialized fields gives the fields back |
| PageFormat.Decode | src/main/java/simpledb/storage/HeapPage.java:67-91 | IOException exactly when the header is cut short; otherwise NullPointerException or a canonical page whose header is the data's first `H` bytes |
| PageFormat.DecodeOutcome | src/main/java/simpledb/storage/HeapPage.java:79-90 | slots filled as the loop fills them decode to that page, unless a used slot is left null, which throws NullPointerException |
| PageFormat.CanonicalFilled | src/main/java/simpledb/storage/HeapPage.java:79-90 | a decoded page has a tuple in every used slot |
| PageFormat.DecodeSucceeds | src/main/java/simpledb/storage/HeapPage.java:67-91 | decoding succeeds exactly when the header is present and every used slot lies wholly inside the data |
| PageFormat.ConcatLength | src/main/java/simpledb/storage/HeapPage.java:225-250 | slots of `L` bytes each write `S*L` bytes |
| PageFormat.ConcatChunk | src/main/java/simpledb/storage/HeapPage.java:225-250 | slot `i` is written at offset `i*L` of the slot region |
| PageFormat.SlotChunkLengths | src/main/java/simpledb/storage/HeapPage.java:227-249 | every slot, free or used, is written as exactly `L` bytes |
| PageFormat.Encode | src/main/java/simpledb/storage/HeapPage.java:209-268 | header, then each slot's bytes, then zero padding; `EncodeLength`, `EncodeSlotAt` and `DecodeEncode` state its length, layout and inverse |
| PageFormat.EncodeLength | src/main/java/simpledb/storage/HeapPage.java:209-268 | `getPageData()` returns exactly `pageSize` bytes, starting with the header |
| PageFormat.EncodeSlotAt | src/main/java/simpledb/storage/HeapPage.java:225-250 | the bytes at `H + i*L` are slot `i`'s encoding |
| PageFormat.ParseSerializedAt | src/main/java/simpledb/storage/HeapPage.java:186-189 | a tuple's serialized fields found at any offset of the page parse back to the same fields |
| PageFormat.DecodeSlotFrom | src/main/java/simpledb/storage/HeapPage.java:167-196 | reading back slot `i`'s encoding gives slot `i` back |
| PageFormat.DecodeEncode | src/main/java/simpledb/storage/HeapPage.java:198-268 | round trip: decoding `getPageData()` of a decoded page gives the same header and slots back |
| PageFormat.EmptyPageData | src/main/java/simpledb/storage/HeapPage.java:279-282 | `pageSize` zero bytes; `EmptyPageDecodes` states what they decode to |
| PageFormat.EmptyPageDecodes | src/main/java/simpledb/storage/HeapPage.java:270-282 | `createEmptyPageData()` decodes to a page with every slot free and absent, so every slot counts as empty |
| PageFormat.NoneUsed | src/main/java/simpledb/storage/HeapPage.java:400 | an all-zero header has no used slot |
| PageFormat.UsedTuples | src/main/java/simpledb/storage/HeapPage.java:388-419 | one tuple per used slot |
| PageFormat.UsedTuplesAt | src/main/java/simpledb/storage/HeapPage.java:408-418 | the tuple of used slot `j` comes at position "used slots before `j`" |
| PageFormat.UsedTuplesOrdered | src/main/java/simpledb/storage/HeapPage.java:381-419 | the iterator yields only tuples of used slots, each with its own record id, in strictly increasing slot order |
| PageFormat.UsedTuplesFrom | src/main/java/simpledb/storage/HeapPage.java:381-419 | every yielded tuple comes from a used slot below `k` that holds it |
| PageFormat.UsedTuplesIndex | src/main/java/simpledb/storage/HeapPage.java:398-417 | the `a`-th yielded tuple comes from the slot with exactly `a` used slots before it |
| HeapPages.HeapPage.Alloc | src/main/java/simpledb/storage/HeapPage.java:68-79 | a page with the layout's array sizes, a zero header and every slot null |
| HeapPages.HeapPage.NumTuples | src/main/java/simpledb/storage/HeapPage.java:99-106 | the cached `numSlots` once set, and the layout's slot count while it is still 0 |
| HeapPages.HeapPage.ReadNextTuple | src/main/java/simpledb/storage/HeapPage.java:167-196 | consumes `L` bytes; a free slot gives null and a used one the parsed tuple with `RecordId(pid, i)`; NoSuchElementException exactly when fewer than `L` bytes remain |
| HeapPages.HeapPage.ReadHeader | src/main/java/simpledb/storage/HeapPage.java:74-77 | the header is the first `H` bytes of the data, or the read fails exactly when the data is shorter |
| HeapPages.HeapPage.ReadSlots | src/main/java/simpledb/storage/HeapPage.java:79-87 | every slot ends as the decoded slot: filled up to the first slot the data cuts short, null from there on |
| HeapPages.HeapPage.ReadSlot | src/main/java/simpledb/storage/HeapPage.java:82-83 | one turn of the slot loop: slot `i` is read as decoding reads it and the stream moves on `L` bytes, or the data is cut short and every slot from `i` on stays null |
| HeapPages.HeapPage.GetPageData | src/main/java/simpledb/storage/HeapPage.java:209-268 | the page's encoding, or NullPointerException exactly when a used slot is null and the schema has a field |
| HeapPages.HeapPage.WriteSlots | src/main/java/simpledb/storage/HeapPage.java:224-250 | the slot bytes in slot order, or NullPointerException at a null used slot |
| HeapPages.HeapPage.CopyHeader | src/main/java/simpledb/storage/HeapPage.java:214-222 | the header bytes in order |
| HeapPages.HeapPage.WriteSlot | src/main/java/simpledb/storage/HeapPage.java:227-249 | `L` zero bytes for a free slot, the serialized fields for a used one; throws exactly for a null used slot with a field to read |
| HeapPages.HeapPage.SetBeforeImage | src/main/java/simpledb/storage/HeapPage.java:147-152 | the before-image becomes the page's encoding; on NullPointerException it is unchanged |
| HeapPages.HeapPage.GetNumEmptySlots | src/main/java/simpledb/storage/HeapPage.java:331-340 | the number of free slots, which plus the used slots is `numSlots` |
| HeapPages.HeapPage.Iterator | src/main/java/simpledb/storage/HeapPage.java:381-386 | a fresh iterator that will yield exactly the used slots' tuples from slot 0 |
| HeapPages.SkipBytes | src/main/java/simpledb/storage/HeapPage.java:170-178 | skips `L` bytes, or NoSuchElementException exactly when fewer remain |
| HeapPages.ReadFields | src/main/java/simpledb/storage/HeapPage.java:182-193 | the fields parsed in schema order, or NoSuchElementException exactly when fewer than `L` bytes remain |
| HeapPages.Read | src/main/java/simpledb/storage/HeapPage.java:67-91 | the constructor: fails exactly when decoding fails, with the same exception; otherwise a fresh valid page whose state is the decoded page |
| HeapPages.UsedTupleIterator.constructor | src/main/java/simpledb/storage/HeapPage.java:398-400 | starts at slot 0 with nothing returned, with every used slot's tuple still to come |
| HeapPages.UsedTupleIterator.HasNext | src/main/java/simpledb/storage/HeapPage.java:403-405 | `index < getNumTuples() && pos < usedTuplesNum`; `HasNextRemaining` states that this is true exactly when tuples remain |
| HeapPages.UsedTupleIterator.HasNextRemaining | src/main/java/simpledb/storage/HeapPage.java:403-405 | `hasNext()` is true exactly when tuples remain |
| HeapPages.UsedTupleIterator.Next | src/main/java/simpledb/storage/HeapPage.java:408-418 | returns the next remaining tuple and drops it, or NoSuchElementException when none remain |
| HeapPages.UsedTupleIterator.SkipFree | src/main/java/simpledb/storage/HeapPage.java:413-415 | the skip loop stops at a used slot without passing one |
| HeapPages.PageNextStep | src/main/java/simpledb/storage/HeapPage.java:416-417 | returning the tuple of used slot `index` moves past exactly one yielded tuple |
| HeapPages.DrainPage | src/main/java/simpledb/storage/HeapPage.java:381-419 | `hasNext`/`next` from a fresh iterator yield exactly the used slots' tuples in slot order |
| HeapFiles.PageCount | src/main/java/simpledb/storage/HeapFile.java:53 | the number of whole pages: `n` pages fit in the file and `n + 1` do not |
| HeapFiles.PageOffset | src/main/java/simpledb/storage/HeapFile.java:108-110 | the seek offset `pageNumber * pageSize` of `readPage`; `PageInFile` states that counted pages lie inside the file, back to back |
| HeapFiles.PageInFile | src/main/java/simpledb/storage/HeapFile.java:105-111 | every counted page lies inside the file, and pages sit back to back |
| HeapFiles.Advance | src/main/java/simpledb/storage/HeapFile.java:190-210 | true exactly when the current page iterator has a tuple after the call; moves at most one page, and only from a used-up page that is not the last |
| HeapFiles.NextStep | src/main/java/simpledb/storage/HeapFile.java:212-218 | NoSuchElementException exactly when `hasNext()` is false |
| HeapFiles.AdvanceYield | src/main/java/simpledb/storage/HeapFile.java:190-210 | `hasNext()` is true exactly when a drain has something left, and a true answer loses nothing |
| HeapFiles.NextYield | src/main/java/simpledb/storage/HeapFile.java:212-218 | `next()` returns the first tuple left and leaves the rest; it throws exactly when nothing is left |
| HeapFiles.RestFromUpTo | src/main/java/simpledb/storage/HeapFile.java:197-209 | from page `n` a drain runs through the non-empty pages up to the last page or the first empty one |
| HeapFiles.DrainedAllPages | src/main/java/simpledb/storage/HeapFile.java:183-218 | with no empty page after page 0, a scan yields every tuple of every page, in page order and slot order within a page |
| HeapFiles.DrainedStopsAtEmpty | src/main/java/simpledb/storage/HeapFile.java:203-208 | an empty page after page 0 ends the scan there, whatever later pages hold |
| HeapFiles.EmptyFileScan | src/main/java/simpledb/storage/HeapFile.java:183-188 | a file of no whole page still yields page 0's tuples, and nothing with `hasNext()` false when page 0 is empty |
| HeapFiles.ThreePagesOfTwo | src/main/java/simpledb/storage/HeapFile.java:183-218 | three pages of two tuples scan to six tuples, page after page |
| HeapFiles.HeapFile.constructor | src/main/java/simpledb/storage/HeapFile.java:48-54 | the page count is fixed once, from the file length |
| HeapFiles.HeapFile.NumPages | src/main/java/simpledb/storage/HeapFile.java:136-139 | the number of whole pages; a trailing partial page is not counted |
| HeapFiles.HeapFile.Iterator | src/main/java/simpledb/storage/HeapFile.java:159-162 | a fresh, closed iterator over this file |
| HeapFiles.HeapFileIterator.constructor | src/main/java/simpledb/storage/HeapFile.java:172-174 | not opened: `hasNext()` is false until `open()` |
| HeapFiles.HeapFileIterator.GetTuplesInPage | src/main/java/simpledb/storage/HeapFile.java:176-180 | the page's tuples come from the buffer pool, and the request is logged |
| HeapFiles.HeapFileIterator.Open | src/main/java/simpledb/storage/HeapFile.java:183-188 | back to page 0 with page 0's tuples loaded, after requesting `HeapPageId(getId(), 0)` |
| HeapFiles.HeapFileIterator.HasNext | src/main/java/simpledb/storage/HeapFile.java:190-210 | behaves as `Advance`; a page is requested, as `HeapPageId(getId(), pagePos)`, exactly when `pagePos` moves |
| HeapFiles.HeapFileIterator.Next | src/main/java/simpledb/storage/HeapFile.java:212-218 | behaves as `NextStep`; the only page it requests from the buffer pool is the one its `hasNext()` lookahead moves to |
| HeapFiles.HeapFileIterator.Rewind | src/main/java/simpledb/storage/HeapFile.java:221-224 | exactly `open()` |
| HeapFiles.HeapFileIterator.Close | src/main/java/simpledb/storage/HeapFile.java:227-230 | page 0 and no page iterator, so `hasNext()` is false |
| HeapFiles.HeapFileIterator.Drain | src/main/java/simpledb/storage/HeapFile.java:183-218 | `open()` then `while (hasNext()) next()` yields exactly `Drained` |
| SeqScans.QualifiedNameParts | src/main/java/simpledb/execution/SeqScan.java:120-123 | a rewritten name is the alias (or "null"), a dot, then the field name (or "null") |
| SeqScans.QualifiedNameInjective | src/main/java/simpledb/execution/SeqScan.java:120-123 | under one alias, different field names stay different |
| SeqScans.SeqScan.constructor | src/main/java/simpledb/execution/SeqScan.java:45-51 | records table and alias; a closed iterator over that table's heap file |
| SeqScans.SeqScan.Named | src/main/java/simpledb/execution/SeqScan.java:86-88 | the catalog's table name becomes the alias |
| SeqScans.SeqScan.GetTableName | src/main/java/simpledb/execution/SeqScan.java:57-59 | the catalog's name for the current table id, or NoSuchElementException for an id the catalog lacks |
| SeqScans.SeqScan.GetAlias | src/main/java/simpledb/execution/SeqScan.java:64-67 | the alias given at construction or by the last `reset`; `Reset` states the latter |
| SeqScans.SeqScan.Reset | src/main/java/simpledb/execution/SeqScan.java:80-84 | only table id and alias change, and `getAlias()` returns the new alias; the iterator, its position and the table it scans are unchanged |
| SeqScans.SeqScan.GetTupleDesc | src/main/java/simpledb/execution/SeqScan.java:110-126 | the table's field types in order, each name rewritten to `alias.name`, so no name is null; errors for an unknown table or a schema without fields |
| SeqScans.SeqScan.Open | src/main/java/simpledb/execution/SeqScan.java:90-94 | forwards to the file iterator's `open()`, which requests page 0 of the scanned table |
| SeqScans.SeqScan.HasNext | src/main/java/simpledb/execution/SeqScan.java:128-133 | forwards to the file iterator's `hasNext()`, with the same page request when the lookahead moves |
| SeqScans.SeqScan.Next | src/main/java/simpledb/execution/SeqScan.java:135-140 | forwards to the file iterator's `next()`, with the same page request when the lookahead moves |
| SeqScans.SeqScan.Close | src/main/java/simpledb/execution/SeqScan.java:142-145 | forwards to the file iterator's `close()`, which requests no page |
| SeqScans.SeqScan.Rewind | src/main/java/simpledb/execution/SeqScan.java:147-151 | forwards to the file iterator's `rewind()`, which requests page 0 of the scanned table |

## Left out

- `Type.parse` and `Field.serialize` are modelled only by byte length and their round trip (`Types.Parse`, `Types.Serialize`, `Types.ParseSerialize`). A type is known only by its byte length. A field is the bytes it was parsed from. The per-type encodings (integers, length-prefixed strings) are left out, so content checks inside `Type.parse` are not modelled either.
- `HeapPage.getBeforeImage` (HeapPage.java:131-145) is not modelled. It reads `oldData` under a lock, re-runs the constructor on it after releasing the lock, and exits the JVM on IOException. Locking and `System.exit` are concurrency and recovery machinery. `oldData` is kept as the encoding `setBeforeImage` saves.
- The `HeapPage` mutators are not modelled because they have no behaviour: `deleteTuple`, `insertTuple`, `markDirty`, `isDirty` and `markSlotUsed` (HeapPage.java:292-326, 372-375) are unimplemented. So are `HeapFile.writePage`, `insertTuple` and `deleteTuple` (HeapFile.java:128-155). Pages are therefore never changed after construction.
- HeapPages.Read: the `HeapPage` constructor's exceptions become a `Result`. A Dafny constructor cannot fail, so `Read` allocates the page and returns it or the error.
- The `HeapPage` constructor takes its schema from `Database.getCatalog()`. The model takes it as a parameter.
- `HeapPage.getId` and `HeapFile.getTupleDesc` are not members; they are the `pid` and `td` fields.
- `HeapFile.getFile` is not modelled. The `java.io.File` is reduced to the ghost `fileLength` and the table id `id`.
- `HeapFile.readPage` (HeapFile.java:99-119) is file I/O and is not modelled. Only its seek offset is kept, as `PageOffset`. Its exception logging is not modelled.
- `HeapFile.getId` hashes the file's absolute path, a library call. The table id is a constructor parameter.
- The buffer pool is not modelled. `getPage` is a function from page id to the tuples that page's iterator yields. Locking, permissions, eviction and `TransactionAbortedException` are not modelled.
- `HeapFiles.HeapFileIterator` holds the current page iterator as the sequence of tuples it still has to yield. It does not hold a reference to a `HeapPage` iterator object, so aliasing of that object is not modelled.
- SeqScans.SeqScan.constructor: requires the table id to be in the catalog. The missing-table exception comes from `Catalog`, which is not part of this model. `GetTableName` and `GetTupleDesc` report an unknown id (possible after `reset`) as NoSuchElementException.
- SeqScans.SeqScan.Named: requires the table id to be in the catalog, as the constructor it delegates to does. In the source, `Catalog.getTableName` throws for an unknown id before that constructor runs (SeqScan.java:86-87), and `Catalog` is not part of this model.
- The transaction id that `SeqScan` and `HeapFile.iterator` pass along is not modelled; it only matters to the buffer pool's locking.
- Java `int` overflow is not modelled: page counts, offsets (`pageNumber * pageSize`) and sizes are unbounded integers. The shift in `isOne` cannot overflow for the indices the callers pass.
- `toString`, the `hashCode` methods and logging are left out.
