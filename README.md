# MYDB storage core in Dafny

This project models the storage core of MYDB, a small relational database written in Java, and proves
properties of that model. It covers:

- **The data manager.**
  - The reference-counted cache behind every other cache (`Cache.AbstractCache`).
  - The page cache over the database file (`PageCache.PageCacheImpl`).
  - The validity marker of page 1 (`PageOne`).
  - The 41-bucket free-space index (`PageIndex`).
  - The data item record and its `before`/`unBefore`/`after` snapshot protocol (`DataItem`, `DataItemImpl`).
  - The write-ahead log with its checksum fold (`Logger`).
  - Crash recovery: truncation, then redo, then undo (`Recover`).
  - The insert and read paths of the data manager (`DataManager`).
- **The transaction manager**: the xid status file (`TransactionManager`).
- **The version manager.**
  - The entry record `[xmin][xmax][data]` (`Entry`).
  - Snapshots (`Transaction`) and the visibility rules (`Visibility`).
  - The lock wait-for graph with its deadlock search (`LockTable`).
  - The begin/read/insert/delete/commit/abort lifecycle (`VersionManager`).
- **The B+ tree node.**
  - The node's byte layout and its pure reading (`NodeLayout`).
  - The in-place searches, insert and split of `Node` (`Node`).

Two further modules support the rest:

- `Bytes` is the fixed-width big-endian codec that the engine's `Parser` class provides. The model assumes that codec: short, int and long in two's complement, with Java's wrap-around. It also models files as byte sequences, where reading past the end gives zeros.
- `Pages` holds the page object and the page layout that the `PageX` class provides. The model assumes that layout: a two-byte free space offset at byte 0, data from byte 2, and a new page whose free space offset is 2.

The modelling follows the shape of the source code:

- Objects whose fields the Java code updates become classes. Each class has a `Valid()` invariant, and each method's postconditions give its whole new state, outcome by outcome.
- Byte formats become functions on `seq<byte>`, with round-trip and field-isolation lemmas.
- The loops of the source stay loops, and each carries the invariants that tie it to a specification function.
- I/O, clocks and concurrency are replaced by parameters: a page fetch that fails is the flag `cacheFull`, and a load is the `Result` it yields.
- The wait-for graph, the log and the files are values held in fields.

## Model

| member | source | states |
|---|---|---|
| Bytes.Signed | src/main/java/top/guoziyang/mydb/backend/im/Node.java:46 | A Java byte is the unsigned byte value, less 256 from 128 on |
| Bytes.JavaInt | src/main/java/top/guoziyang/mydb/backend/dm/pageCache/PageCacheImpl.java:173 | A Java int expression is the exact value wrapped to 32 bits: in range, congruent modulo 2^32 |
| Bytes.JavaShort | src/main/java/top/guoziyang/mydb/backend/im/Node.java:50 | A cast to short is the value wrapped to 16 bits: in range, congruent modulo 2^16 |
| Bytes.JavaDiv | src/main/java/top/guoziyang/mydb/backend/dm/pageCache/PageCacheImpl.java:53 | Java integer division truncates toward zero: the remainder has the dividend's sign and is smaller than the divisor |
| Bytes.JavaIntInRange | src/main/java/top/guoziyang/mydb/backend/dm/pageCache/PageCacheImpl.java:173 | Wrapping a value already in int range leaves it as it is |
| Bytes.JavaShortInRange | src/main/java/top/guoziyang/mydb/backend/im/Node.java:50 | Wrapping a value already in short range leaves it as it is |
| Bytes.Short2Byte | src/main/java/top/guoziyang/mydb/backend/dm/dataItem/DataItem.java:38 | A short is written as two bytes |
| Bytes.ParseShort | src/main/java/top/guoziyang/mydb/backend/dm/dataItem/DataItem.java:45 | Two bytes read as a short give a value in short range |
| Bytes.DecodeShort | src/main/java/top/guoziyang/mydb/backend/dm/dataItem/DataItem.java:45 | Reading a short is the big-endian value taken as signed 16-bit |
| Bytes.ShortRoundTrip | src/main/java/top/guoziyang/mydb/backend/im/Node.java:49-55 | A short written and read back is the same short |
| Bytes.ShortBytesRoundTrip | src/main/java/top/guoziyang/mydb/backend/dm/dataItem/DataItem.java:45 | Two bytes read as a short and written again are the same bytes |
| Bytes.Int2Byte | src/main/java/top/guoziyang/mydb/backend/dm/logger/LoggerImpl.java:169-170 | An int is written as four bytes |
| Bytes.ParseInt | src/main/java/top/guoziyang/mydb/backend/dm/logger/LoggerImpl.java:203 | Four bytes read as an int give a value in int range |
| Bytes.DecodeInt | src/main/java/top/guoziyang/mydb/backend/dm/logger/LoggerImpl.java:203 | Reading an int is the big-endian value taken as signed 32-bit |
| Bytes.IntRoundTrip | src/main/java/top/guoziyang/mydb/backend/dm/Recover.java:247-257 | An int written and read back is the same int |
| Bytes.IntBytesRoundTrip | src/main/java/top/guoziyang/mydb/backend/dm/logger/LoggerImpl.java:218 | Four bytes read as an int and written again are the same bytes |
| Bytes.Long2Byte | src/main/java/top/guoziyang/mydb/backend/dm/Recover.java:185-186 | A long is written as eight bytes |
| Bytes.ParseLong | src/main/java/top/guoziyang/mydb/backend/dm/Recover.java:197-198 | Eight bytes read as a long give a value in long range |
| Bytes.LongRoundTrip | src/main/java/top/guoziyang/mydb/backend/dm/Recover.java:185-198 | A long written and read back is the same long |
| Bytes.LongBytesRoundTrip | src/main/java/top/guoziyang/mydb/backend/im/Node.java:61-63 | Eight bytes read as a long and written again are the same bytes |
| Bytes.SignedRoundTrip | src/main/java/top/guoziyang/mydb/backend/dm/Recover.java:185-198 | A signed value in range survives the unsigned encoding and back |
| Bytes.BytesRoundTrip | src/main/java/top/guoziyang/mydb/backend/dm/Recover.java:197-198 | Any bytes survive decoding and encoding again |
| Bytes.DecodeEncodeBE | src/main/java/top/guoziyang/mydb/backend/dm/Recover.java:185-198 | Big-endian encoding of a value that fits decodes to the value |
| Bytes.EncodeDecodeBE | src/main/java/top/guoziyang/mydb/backend/dm/Recover.java:197-198 | Big-endian decoding of bytes encodes back to the same bytes |
| Bytes.Overwrite | src/main/java/top/guoziyang/mydb/backend/im/Node.java:58 | Copying d in at off keeps the length, puts d at off and changes nothing else |
| Bytes.WriteBytes | src/main/java/top/guoziyang/mydb/backend/im/Node.java:67 | The array becomes its old contents with d copied in at pos |
| Bytes.ArrayCopy | src/main/java/top/guoziyang/mydb/backend/im/Node.java:87 | The target becomes its old contents with the source range copied in at the target position |
| Bytes.NewBuffer | src/main/java/top/guoziyang/mydb/backend/im/Node.java:106 | A fresh array holding exactly the given bytes |
| Bytes.WriteAt | src/main/java/top/guoziyang/mydb/backend/dm/pageCache/PageCacheImpl.java:134-136 | A write at an offset puts the bytes there, keeps the rest, and extends the file with zeros when it runs past the end |
| Bytes.ReadAt | src/main/java/top/guoziyang/mydb/backend/dm/pageCache/PageCacheImpl.java:86-92 | A read returns as many bytes as asked for |
| Bytes.ReadAtSlice | src/main/java/top/guoziyang/mydb/backend/dm/pageCache/PageCacheImpl.java:86-92 | A read inside the file is the slice of the file at that offset |
| Bytes.ReadAfterWrite | src/main/java/top/guoziyang/mydb/backend/dm/pageCache/PageCacheImpl.java:128-143 | Reading back what was just written gives the written bytes |
| Bytes.SetLength | src/main/java/top/guoziyang/mydb/backend/dm/pageCache/PageCacheImpl.java:145-153 | Setting the length keeps the bytes below it and zero-fills beyond the old end |
| Pages.FSO | src/main/java/top/guoziyang/mydb/backend/dm/Recover.java:249 | The free space offset is the short at the start of the page |
| Pages.SetFSO | src/main/java/top/guoziyang/mydb/backend/dm/DataManagerImpl.java:85 | Setting the free space offset leaves the page's data area as it was |
| Pages.InitRaw | src/main/java/top/guoziyang/mydb/backend/dm/DataManagerImpl.java:64-66 | A new page is a full page whose free space starts right after the offset field, so all of its data area is free |
| Pages.Insert | src/main/java/top/guoziyang/mydb/backend/dm/DataManagerImpl.java:85 | Marks the page dirty and returns the old offset; when the record fits it lies at that offset and the offset moves past it, otherwise the page is unchanged |
| Pages.InsertedFreeSpace | src/main/java/top/guoziyang/mydb/backend/dm/DataManagerImpl.java:94 | An insert shrinks the page's free space by exactly the record's length |
| Pages.InsertedHolds | src/main/java/top/guoziyang/mydb/backend/dm/DataManagerImpl.java:85-88 | The inserted record reads back at the returned offset |
| Cache.AbstractCache.constructor | src/main/java/top/guoziyang/mydb/backend/common/AbstractCache.java:34-40 | A new cache is empty, with count 0 and the given bound, and satisfies the bookkeeping invariant |
| Cache.AbstractCache.BeginGet | src/main/java/top/guoziyang/mydb/backend/common/AbstractCache.java:43-81 | A key being fetched yields Wait with no change. A cached key yields its object, with its reference count up by exactly 1 and nothing else changed. A miss in a bounded, full cache yields Full with no change. Any other miss marks the key as being fetched and increments count. The invariant (cached keys have count >= 1, count = cached + being fetched) is kept |
| Cache.AbstractCache.EndGet | src/main/java/top/guoziyang/mydb/backend/common/AbstractCache.java:97-104 | A successful load caches the object with reference count 1 and clears the fetching mark; count is unchanged |
| Cache.AbstractCache.FailGet | src/main/java/top/guoziyang/mydb/backend/common/AbstractCache.java:88-94 | A failed load undoes count++ and the fetching mark; cache and references are unchanged |
| Cache.AbstractCache.Get | src/main/java/top/guoziyang/mydb/backend/common/AbstractCache.java:43-107 | All of `get`. A hit returns the stored object with its count +1. A full cache throws CacheFull with no change. A miss returns the load's outcome: on success the key is cached with count 1 and not being fetched; on failure no bookkeeping leaks |
| Cache.AbstractCache.Release | src/main/java/top/guoziyang/mydb/backend/common/AbstractCache.java:114-138 | The reference count drops by 1. At zero, the object is handed back exactly once for `releaseForCache`, the key leaves cache and references, and count drops by 1 |
| Cache.AbstractCache.Close | src/main/java/top/guoziyang/mydb/backend/common/AbstractCache.java:144-158 | Evicts every cached entry whatever its reference count, each object handed back once. cache and references end empty; count and getting are unchanged |
| Cache.Drain | src/main/java/top/guoziyang/mydb/backend/common/AbstractCache.java:147-154 | The eviction loop visits every key of the map exactly once, in some order, and yields each key's object |
| Pages.Page.constructor | src/main/java/top/guoziyang/mydb/backend/dm/page/PageImpl.java:22-27 | A page holds its number and the shared data buffer, and starts clean |
| PageCache.PageOffsetBlocks | src/main/java/top/guoziyang/mydb/backend/dm/pageCache/PageCacheImpl.java:171-174 | Page pgno lives at byte (pgno-1)*PAGE_SIZE; consecutive pages are adjacent PAGE_SIZE blocks, and an offset lies in page pgno's block iff it maps back to pgno |
| PageCache.PageCountCovers | src/main/java/top/guoziyang/mydb/backend/dm/pageCache/PageCacheImpl.java:53 | The page count of a file of `length` bytes is exactly the number of pages whose block ends inside the file |
| PageCache.AsWrittenAgreesBelow2GiB | src/main/java/top/guoziyang/mydb/backend/dm/pageCache/PageCacheImpl.java:171-174 | The 32-bit formulas as written agree with the intended ones while offsets and the file length stay below 2^31 |
| PageCache.PageOffsetOverflows | src/main/java/top/guoziyang/mydb/backend/dm/pageCache/PageCacheImpl.java:171-174 | Page 262145 should start at 2^31, but `(pgno-1) * PAGE_SIZE` in int wraps to -2^31 |
| PageCache.PageCountOverflows | src/main/java/top/guoziyang/mydb/backend/dm/pageCache/PageCacheImpl.java:53 | A 2 GiB file holds 262144 pages, but `(int)length / PAGE_SIZE` gives -262144 |
| PageCache.WriteBackClean | src/main/java/top/guoziyang/mydb/backend/dm/pageCache/PageCacheImpl.java:106-113 | Writing back only clean pages leaves the file unchanged |
| PageCache.WriteBackElsewhere | src/main/java/top/guoziyang/mydb/backend/dm/pageCache/PageCacheImpl.java:128-143 | Write-back changes no byte outside the blocks of the dirty pages written |
| PageCache.PageCacheImpl.constructor | src/main/java/top/guoziyang/mydb/backend/dm/pageCache/PageCacheImpl.java:39-54 | The page count is file length / PAGE_SIZE, and the cache is empty with the given bound |
| PageCache.PageCacheImpl.Open | src/main/java/top/guoziyang/mydb/backend/dm/pageCache/PageCacheImpl.java:39-54 | Fails with MemTooSmall iff maxResource < 10; otherwise a valid cache over the file with page count = length / PAGE_SIZE |
| PageCache.PageCacheImpl.Flush | src/main/java/top/guoziyang/mydb/backend/dm/pageCache/PageCacheImpl.java:128-143 | Writes exactly the page's bytes at the page's offset; no other byte and not the page count changes |
| PageCache.PageCacheImpl.FlushPage | src/main/java/top/guoziyang/mydb/backend/dm/pageCache/PageCacheImpl.java:121-123 | The same as Flush |
| PageCache.PageCacheImpl.NewPage | src/main/java/top/guoziyang/mydb/backend/dm/pageCache/PageCacheImpl.java:58-67 | Returns the previous page count + 1, which becomes the page count, and the initial bytes are written at that page's offset at once |
| PageCache.PageCacheImpl.GetForCache | src/main/java/top/guoziyang/mydb/backend/dm/pageCache/PageCacheImpl.java:80-99 | A fresh clean page holding the PAGE_SIZE bytes at the page's offset (zero-padded past the end of the file) |
| PageCache.PageCacheImpl.GetPage | src/main/java/top/guoziyang/mydb/backend/dm/pageCache/PageCacheImpl.java:69-71 | `get` through the cache. A hit returns the cached page with its reference count +1. A full cache gives CacheFull with no change. A miss loads the page's bytes from the file and caches it with reference count 1 |
| PageCache.PageCacheImpl.ReleaseForCache | src/main/java/top/guoziyang/mydb/backend/dm/pageCache/PageCacheImpl.java:106-113 | A dirty page is written back at its offset and becomes clean; a clean page causes no write |
| PageCache.PageCacheImpl.Release | src/main/java/top/guoziyang/mydb/backend/dm/pageCache/PageCacheImpl.java:116-118 | Drops one reference. The last one evicts the page and writes it back only if it was dirty, leaving it clean. Otherwise the file and the page are unchanged |
| PageCache.PageCacheImpl.TruncateByBgno | src/main/java/top/guoziyang/mydb/backend/dm/pageCache/PageCacheImpl.java:145-153 | The file length becomes maxPgno*PAGE_SIZE and the page count maxPgno; the bytes kept are the old ones, zero-filled when the file grew |
| PageCache.PageCacheImpl.WriteBackAll | src/main/java/top/guoziyang/mydb/backend/dm/pageCache/PageCacheImpl.java:106-113 | `releaseForCache` on distinct pages in turn: the file is the write-back of their images, and every page ends clean |
| PageCache.PageCacheImpl.Close | src/main/java/top/guoziyang/mydb/backend/dm/pageCache/PageCacheImpl.java:155-164 | Every cached page is evicted exactly once, whatever its reference count. The file receives the write-back of the pages' images in eviction order, and every evicted page ends clean |
| PageOne.VcOpened | src/main/java/top/guoziyang/mydb/backend/dm/page/PageOne.java:36-38 | Opening writes the 8 random bytes at 100..107 and changes no other byte |
| PageOne.VcClosed | src/main/java/top/guoziyang/mydb/backend/dm/page/PageOne.java:46-48 | Closing copies bytes 100..107 onto 108..115 and changes no other byte |
| PageOne.CheckVcBytewise | src/main/java/top/guoziyang/mydb/backend/dm/page/PageOne.java:56-58 | checkVc holds iff byte i of 100..107 equals byte i+8 for all 8 bytes, in both directions |
| PageOne.CheckAfterClose | src/main/java/top/guoziyang/mydb/backend/dm/page/PageOne.java:46-58 | After setVcClose, checkVc holds whatever the bytes were |
| PageOne.CheckAfterOpen | src/main/java/top/guoziyang/mydb/backend/dm/page/PageOne.java:36-58 | After setVcOpen, checkVc holds iff the random bytes equal the old close half, so an open database that was not closed is seen as not cleanly closed |
| PageOne.OpenThenClose | src/main/java/top/guoziyang/mydb/backend/dm/page/PageOne.java:36-58 | Open then close passes the check and leaves the random bytes in both halves |
| PageOne.SetVcOpenRaw | src/main/java/top/guoziyang/mydb/backend/dm/page/PageOne.java:36-38 | The in-place copy leaves the buffer equal to VcOpened of its old bytes |
| PageOne.SetVcCloseRaw | src/main/java/top/guoziyang/mydb/backend/dm/page/PageOne.java:46-48 | The in-place copy leaves the buffer equal to VcClosed of its old bytes |
| PageOne.InitRaw | src/main/java/top/guoziyang/mydb/backend/dm/page/PageOne.java:23-27 | A fresh PAGE_SIZE buffer of zeros in the open state |
| PageOne.SetVcOpen | src/main/java/top/guoziyang/mydb/backend/dm/page/PageOne.java:30-33 | Marks the page dirty and opens the validity check in place |
| PageOne.SetVcClose | src/main/java/top/guoziyang/mydb/backend/dm/page/PageOne.java:41-44 | Marks the page dirty and closes the validity check in place |
| PageIndex.ThresholdValue | src/main/java/top/guoziyang/mydb/backend/dm/pageIndex/PageIndex.java:16-18 | THRESHOLD = 8192/40 = 204, and 41 buckets of that width cover every free space up to PAGE_SIZE |
| PageIndex.TotalUpdate | src/main/java/top/guoziyang/mydb/backend/dm/pageIndex/PageIndex.java:42 | Replacing one bucket changes the total entry count by exactly the change in that bucket's length |
| PageIndex.EntriesOfEmpty | src/main/java/top/guoziyang/mydb/backend/dm/pageIndex/PageIndex.java:27-33 | Buckets that are all empty hold no entry |
| PageIndex.EntriesUpdate | src/main/java/top/guoziyang/mydb/backend/dm/pageIndex/PageIndex.java:42 | Replacing one bucket takes that bucket's entries out of the index and puts the new ones in, counted with multiplicity, and keeps every other entry |
| PageIndex.EntriesAppend | src/main/java/top/guoziyang/mydb/backend/dm/pageIndex/PageIndex.java:41-42 | Appending an entry to one bucket adds exactly that entry to the index |
| PageIndex.EntriesRemove | src/main/java/top/guoziyang/mydb/backend/dm/pageIndex/PageIndex.java:69 | Taking one entry out of a bucket removes exactly that entry from the index |
| PageIndex.FirstNonEmpty | src/main/java/top/guoziyang/mydb/backend/dm/pageIndex/PageIndex.java:57-70 | The bucket the scan stops at is non-empty, at or above the start, and every bucket before it is empty; None means every bucket from the start up is empty |
| PageIndex.SelectedHasRoom | src/main/java/top/guoziyang/mydb/backend/dm/pageIndex/PageIndex.java:53-69 | While the request's bucket is below 40, the page picked from the first non-empty bucket above it has more free space than requested |
| PageIndex.SelectLastBucketTooSmall | src/main/java/top/guoziyang/mydb/backend/dm/pageIndex/PageIndex.java:53-69 | As written, with one entry (2, 8170) in bucket 40, select(8180) starts at bucket 40 and picks a page with less room than requested |
| PageIndex.FirstWithRoom | src/main/java/top/guoziyang/mydb/backend/dm/pageIndex/PageIndex.java:57-69 | The first entry of a bucket with the requested room, and none before it; None when no entry has the room |
| PageIndex.PageIndex.constructor | src/main/java/top/guoziyang/mydb/backend/dm/pageIndex/PageIndex.java:27-33 | 41 buckets, all empty, so the index holds no entry |
| PageIndex.PageIndex.Add | src/main/java/top/guoziyang/mydb/backend/dm/pageIndex/PageIndex.java:37-46 | Appends (pgno, freeSpace) to bucket freeSpace / THRESHOLD only; the entry count grows by 1. The index's entries are the old ones plus (pgno, freeSpace) |
| PageIndex.PageIndex.Select | src/main/java/top/guoziyang/mydb/backend/dm/pageIndex/PageIndex.java:49-76 | As written: from bucket s/THRESHOLD (+1 if that is below 40) upward, removes and returns the first entry of the first non-empty bucket, leaves the other buckets untouched, and drops the entry count by 1. When all those buckets are empty it returns None and changes nothing. Below bucket 40 the page returned has free space > s. A returned entry leaves the index, and every other entry stays in it |
| PageIndex.PageIndex.SelectInLast | src/main/java/top/guoziyang/mydb/backend/dm/pageIndex/PageIndex.java:57-69 | For a request in the last bucket: removes and returns the first entry there with the requested room, keeping the others in order. A returned entry leaves the index, and every other entry stays in it |
| PageIndex.PageIndex.SelectWithRoom | src/main/java/top/guoziyang/mydb/backend/dm/pageIndex/PageIndex.java:49-76 | select as evidently intended: the same as written below bucket 40, and in bucket 40 the first entry that really has the room. Every page returned has free space >= s, and one is returned whenever bucket 40 holds an entry with that room. A returned entry leaves the index, and every other entry stays in it |
| PageIndex.PageIndex.RemoveFirst | src/main/java/top/guoziyang/mydb/backend/dm/pageIndex/PageIndex.java:69 | `lists[number].remove(0)`: the bucket loses its first entry and keeps the rest in order, no other bucket changes, and the index holds exactly that entry fewer |
| PageIndex.PageIndex.RemoveFromLast | src/main/java/top/guoziyang/mydb/backend/dm/pageIndex/PageIndex.java:49-76 | The chosen entry of the last bucket is removed, the other entries keep their order, and exactly that entry leaves the index |
| Types.AddressToUid | src/main/java/top/guoziyang/mydb/backend/dm/DataManagerImpl.java:88 | The uid returned by insert is non-negative and below 2^63 for a 31-bit page number and a 15-bit offset |
| Types.UidOffset | src/main/java/top/guoziyang/mydb/backend/dm/DataManagerImpl.java:125 | The offset is the uid's low 16 bits narrowed to short, within short range |
| Types.UidPgno | src/main/java/top/guoziyang/mydb/backend/dm/DataManagerImpl.java:126-127 | The page number is bits 32..63 of the uid narrowed to int, within int range |
| Types.UidRoundTrip | src/main/java/top/guoziyang/mydb/backend/dm/DataManagerImpl.java:124-127 | Decoding the uid made from a page number and an offset gives both back exactly |
| DataItem.WrapDataItemRaw | src/main/java/top/guoziyang/mydb/backend/dm/dataItem/DataItem.java:36-40 | [0][(short)len:2][data]: length len+3, valid byte 0, size field (short)len, data unchanged after it |
| DataItem.ItemSize | src/main/java/top/guoziyang/mydb/backend/dm/dataItem/DataItem.java:45 | The size field read at offset+1..offset+3 is a short |
| DataItem.ItemLength | src/main/java/top/guoziyang/mydb/backend/dm/dataItem/DataItem.java:46 | The span length (short)(size+3) is a short |
| DataItem.ParseWrapped | src/main/java/top/guoziyang/mydb/backend/dm/dataItem/DataItem.java:36-48 | Parsing a wrapped item stored at an offset recovers size = len for len < 32768, and the span is exactly the wrapped bytes while len+3 fits in a short |
| DataItem.InvalidRaw | src/main/java/top/guoziyang/mydb/backend/dm/dataItem/DataItem.java:51-53 | Byte 0 becomes 1 and no other byte changes |
| DataItem.InvalidatedWrapped | src/main/java/top/guoziyang/mydb/backend/dm/dataItem/DataItem.java:36-53 | A wrapped item is valid; after invalidation it is not, with its size field and data unchanged |
| DataItem.SetDataItemRawInvalid | src/main/java/top/guoziyang/mydb/backend/dm/dataItem/DataItem.java:51-53 | The buffer in place equals InvalidRaw of its old bytes |
| DataItemImpl.DataItemImpl.constructor | src/main/java/top/guoziyang/mydb/backend/dm/dataItem/DataItemImpl.java:32-41 | The item holds the span, the oldRaw buffer, the page and the uid it is given |
| DataItemImpl.DataItemImpl.IsValid | src/main/java/top/guoziyang/mydb/backend/dm/dataItem/DataItemImpl.java:43-45 | True iff the byte at start is 0 |
| DataItemImpl.DataItemImpl.Data | src/main/java/top/guoziyang/mydb/backend/dm/dataItem/DataItemImpl.java:49-51 | The window [start+3, end) over the same buffer |
| DataItemImpl.DataItemImpl.Before | src/main/java/top/guoziyang/mydb/backend/dm/dataItem/DataItemImpl.java:57-61 | Marks the page dirty and copies the raw span into oldRaw; the page's bytes do not change |
| DataItemImpl.DataItemImpl.UnBefore | src/main/java/top/guoziyang/mydb/backend/dm/dataItem/DataItemImpl.java:67-70 | Writes oldRaw back over the span; no byte outside the span changes |
| DataItemImpl.DataItemImpl.UpdateRecord | src/main/java/top/guoziyang/mydb/backend/dm/DataManagerImpl.java:113-116 | The update record logged for the item has length 17 + 2 * span length |
| DataItemImpl.DataItemImpl.After | src/main/java/top/guoziyang/mydb/backend/dm/dataItem/DataItemImpl.java:77-80 | Appends the update record built from (oldRaw, current span) to the log, with the checksum header rewritten; position and fileSize do not change |
| DataItemImpl.Restored | src/main/java/top/guoziyang/mydb/backend/dm/dataItem/DataItemImpl.java:68 | The saved bytes land at start and no byte outside them changes |
| DataItemImpl.RestoreUndoesEdit | src/main/java/top/guoziyang/mydb/backend/dm/dataItem/DataItemImpl.java:57-70 | before, then any edit inside the span, then unBefore gives back the page exactly as it was at before |
| DataItemImpl.AfterRecordRecovers | src/main/java/top/guoziyang/mydb/backend/dm/dataItem/DataItemImpl.java:77-80 | The record after() logs is one recovery can use: undo writes the saved bytes and redo the current ones, both at the item's place in the page file |
| DataItemImpl.ParseDataItem | src/main/java/top/guoziyang/mydb/backend/dm/dataItem/DataItem.java:43-49 | The item at the offset spans offset + (short)(size+3), with a fresh oldRaw of that length and uid addressToUid(pgno, offset). None iff that length is negative, where new byte[length] would throw |
| DataManager.FreeSpaceIndexable | src/main/java/top/guoziyang/mydb/backend/dm/DataManagerImpl.java:94 | The free space of any page after page one is between 0 and MAX_FREE_SPACE, so it has a bucket |
| DataManager.AccurateAdd | src/main/java/top/guoziyang/mydb/backend/dm/DataManagerImpl.java:66 | Indexing a page that has no entry yet, with at most its real free space, keeps the index accurate: no entry promises more room than its page has, and no page has two entries |
| DataManager.AccurateRemove | src/main/java/top/guoziyang/mydb/backend/dm/DataManagerImpl.java:59 | Once select takes an entry out of an accurate index, the rest stays accurate, no entry names that page any more, and the page has at least the free space the entry promised |
| DataManager.AccurateOtherPage | src/main/java/top/guoziyang/mydb/backend/dm/DataManagerImpl.java:85 | Writing to a page that has no index entry keeps the index accurate |
| DataManager.AccurateGrow | src/main/java/top/guoziyang/mydb/backend/dm/DataManagerImpl.java:64 | Allocating a page keeps the index accurate, and the new page has no entry |
| DataManager.BelowAdd | src/main/java/top/guoziyang/mydb/backend/dm/DataManagerImpl.java:165-172 | While fillPageIndex is at page i, page i has no entry, and adding it leaves every entry below page i + 1 |
| DataManager.ItemAtAddress | src/main/java/top/guoziyang/mydb/backend/dm/DataManagerImpl.java:128-130 | The item at an address is absent iff its valid byte is not 0, and otherwise is its whole span of (short)(size+3) bytes |
| DataManager.ItemAt | src/main/java/top/guoziyang/mydb/backend/dm/DataManagerImpl.java:34-42 | read(uid) is absent iff the item at the uid's page and offset is flagged invalid |
| DataManager.UidReadsAddress | src/main/java/top/guoziyang/mydb/backend/dm/DataManagerImpl.java:123-131 | Reading through the uid made from a page number and an offset reads the item at that very address |
| DataManager.InsertedReadsBack | src/main/java/top/guoziyang/mydb/backend/dm/DataManagerImpl.java:85-88 | An item wrapped and stored at an offset reads back from that address as exactly the wrapped bytes |
| DataManager.InsertRecordRecovers | src/main/java/top/guoziyang/mydb/backend/dm/DataManagerImpl.java:81-82 | The insert record is accepted by recovery; its redo writes the item at the page's file position, its undo writes the item flagged invalid there |
| DataManager.StoredReadsBack | src/main/java/top/guoziyang/mydb/backend/dm/DataManagerImpl.java:85-88 | insert then read: the uid insert returns reads back exactly the wrapped item |
| DataManager.DataManagerImpl.constructor | src/main/java/top/guoziyang/mydb/backend/dm/DataManagerImpl.java:26-32 | The data manager starts with the given pages and log and an empty page index |
| DataManager.DataManagerImpl.Insert | src/main/java/top/guoziyang/mydb/backend/dm/DataManagerImpl.java:46-100 | DataTooLarge iff the wrapped item exceeds MAX_FREE_SPACE, with nothing changed. Otherwise at most one page is allocated, and the selected page is re-added exactly once as the last entry of its bucket: with 0 when fetching fails, else with its free space after the insert. CacheFull is the only error left: when the page is fetched the item always fits, because the index never promises more room than a page has. The insert record is logged before the page is written, and the result is Ok(addressToUid(pgno, FSO)), with the item stored at that FSO |
| DataManager.DataManagerImpl.InsertFitting | src/main/java/top/guoziyang/mydb/backend/dm/DataManagerImpl.java:55-99 | Same outcome as insert for an item that fits in an empty page. CacheFull leaves the log and pages as they were and re-adds the page with free space 0. Otherwise the result is Ok(addressToUid(pgno, FSO)), and the log and trace gain the insert record and then the page write |
| DataManager.DataManagerImpl.InsertSelected | src/main/java/top/guoziyang/mydb/backend/dm/DataManagerImpl.java:79-94 | For a selected page with room for the item and no index entry: the log gains exactly the insert record before the page changes, the item always fits and is stored at the page's FSO, and the page is re-added with its new free space |
| DataManager.DataManagerImpl.ReAdd | src/main/java/top/guoziyang/mydb/backend/dm/DataManagerImpl.java:90-99 | The page, which has no entry, goes back as the last entry of its free space's bucket with at most its real free space, so the index stays accurate and grows by one |
| DataManager.DataManagerImpl.PageInsert | src/main/java/top/guoziyang/mydb/backend/dm/DataManagerImpl.java:85 | The item is stored iff it fits at the FSO, the FSO moves past it and only that page changes; otherwise nothing changes |
| DataManager.DataManagerImpl.SelectPage | src/main/java/top/guoziyang/mydb/backend/dm/DataManagerImpl.java:57-71 | The five-try loop allocates at most one page and always ends with a page whose free space is at least the request, so DatabaseBusy cannot be raised. That page has at least the free space its entry promised and has left the index |
| DataManager.DataManagerImpl.TrySelect | src/main/java/top/guoziyang/mydb/backend/dm/DataManagerImpl.java:59 | A selected page has room for the request, really has the free space its entry promised, and has no entry left in the index; a miss changes nothing; a page freshly indexed with MAX_FREE_SPACE is always found |
| DataManager.DataManagerImpl.AllocatePage | src/main/java/top/guoziyang/mydb/backend/dm/DataManagerImpl.java:64-66 | One fresh initRaw page is appended and indexed with MAX_FREE_SPACE in the last bucket |
| DataManager.DataManagerImpl.IndexPage | src/main/java/top/guoziyang/mydb/backend/dm/DataManagerImpl.java:166-174 | One turn of fillPageIndex: page i, which has no entry yet, goes to the end of the bucket of its free space, and every entry now names a page below i + 1 |
| DataManager.DataManagerImpl.FillPageIndex | src/main/java/top/guoziyang/mydb/backend/dm/DataManagerImpl.java:163-176 | Called on the empty index of a data manager just opened, as DataManager.open does. The index afterwards equals adding page p with its free space for p = 2..|pages| in order, |pages| - 1 entries more |
| DataManager.AddedAll | src/main/java/top/guoziyang/mydb/backend/dm/DataManagerImpl.java:165-172 | Adding a sequence of entries in turn keeps the 41 buckets |
| DataManager.PageInfosAddable | src/main/java/top/guoziyang/mydb/backend/dm/DataManagerImpl.java:172 | Every page after page one has a free space with a bucket |
| DataManager.AddedAllContains | src/main/java/top/guoziyang/mydb/backend/dm/DataManagerImpl.java:165-172 | Adding entries in turn adds exactly that many, each in the bucket of its free space |
| DataManager.FillIndexesEachPageOnce | src/main/java/top/guoziyang/mydb/backend/dm/DataManagerImpl.java:163-176 | Over an empty index, fillPageIndex indexes every page 2..|pages| with its free space in its bucket and nothing else |
| Logger.Mix | src/main/java/top/guoziyang/mydb/backend/dm/logger/LoggerImpl.java:127 | One fold step x * 13331 + b stays a 32-bit int |
| Logger.Checksum | src/main/java/top/guoziyang/mydb/backend/dm/logger/LoggerImpl.java:125-130 | The fold over the signed bytes stays a 32-bit int |
| Logger.ChecksumConcat | src/main/java/top/guoziyang/mydb/backend/dm/logger/LoggerImpl.java:154-156 | The fold over a ++ b is the fold over b started from the fold over a, which justifies the incremental xChecksum |
| Logger.CalChecksum | src/main/java/top/guoziyang/mydb/backend/dm/logger/LoggerImpl.java:125-130 | The loop computes exactly the fold from the given start |
| Logger.WrapLog | src/main/java/top/guoziyang/mydb/backend/dm/logger/LoggerImpl.java:167-173 | [size:4][checksum:4][data]: length 8 + |d|, data part d, size field |d|, checksum field calChecksum(0, d) |
| Logger.NegativeSizeThrows | src/main/java/top/guoziyang/mydb/backend/dm/logger/LoggerImpl.java:203-217 | A size field of -1 passes the overrun test, and the checksum copy of the 7-byte record then throws instead of stopping at the bad tail |
| Logger.InternNext | src/main/java/top/guoziyang/mydb/backend/dm/logger/LoggerImpl.java:188-225 | Never throws; a record it finds has at least the 8 header bytes and ends within fileSize |
| Logger.InternNextAgrees | src/main/java/top/guoziyang/mydb/backend/dm/logger/LoggerImpl.java:188-225 | Wherever the code as written does not throw, it gives the same result as the corrected read |
| Logger.ChecksumAtRead | src/main/java/top/guoziyang/mydb/backend/dm/logger/LoggerImpl.java:217 | The fold over a read window equals the fold over the bytes that read yields |
| Logger.Scan | src/main/java/top/guoziyang/mydb/backend/dm/logger/LoggerImpl.java:98-102 | Every log the scan finds has at least the 8 header bytes |
| Logger.ScanEnd | src/main/java/top/guoziyang/mydb/backend/dm/logger/LoggerImpl.java:98-111 | The scan stops between its start and fileSize |
| Logger.ScanFound | src/main/java/top/guoziyang/mydb/backend/dm/logger/LoggerImpl.java:98-111 | The scan stops just after the logs it found, laid end to end |
| Logger.FoldStep | src/main/java/top/guoziyang/mydb/backend/dm/logger/LoggerImpl.java:98-102 | One found log moves from the unscanned part to the seen part and the checksum fold extends over it |
| Logger.DataParts | src/main/java/top/guoziyang/mydb/backend/dm/logger/LoggerImpl.java:234 | next() yields the data part of each whole log, in order |
| Logger.FileOf | src/main/java/top/guoziyang/mydb/backend/dm/logger/LoggerImpl.java:137-165 | The log file log() writes: the header, then the wrapped logs |
| Logger.WrapLogWellFormed | src/main/java/top/guoziyang/mydb/backend/dm/logger/LoggerImpl.java:167-173 | Every log with non-empty data that log() writes is accepted by internNext |
| Logger.ReadLog | src/main/java/top/guoziyang/mydb/backend/dm/logger/LoggerImpl.java:188-224 | A well-formed log reads back whole from wherever it lies, when it ends within fileSize |
| Logger.FoundAt | src/main/java/top/guoziyang/mydb/backend/dm/logger/LoggerImpl.java:204-224 | A log whose size fits and whose checksum matches reads back whole |
| Logger.TornLogNotRead | src/main/java/top/guoziyang/mydb/backend/dm/logger/LoggerImpl.java:188-221 | A log cut short by a crash is never read: it is a bad tail |
| Logger.ScanStep | src/main/java/top/guoziyang/mydb/backend/dm/logger/LoggerImpl.java:98-102 | The scan from a found log is that log followed by the scan after it |
| Logger.ScanStop | src/main/java/top/guoziyang/mydb/backend/dm/logger/LoggerImpl.java:99-100 | The scan ends where no log reads back |
| Logger.LaidOut | src/main/java/top/guoziyang/mydb/backend/dm/logger/LoggerImpl.java:188-224 | Well-formed logs laid out back to back in a file all read back in turn |
| Logger.ScanLogs | src/main/java/top/guoziyang/mydb/backend/dm/logger/LoggerImpl.java:98-102 | Scanning yields exactly the logs laid out back to back when what follows them does not read as a log |
| Logger.ScanFileOf | src/main/java/top/guoziyang/mydb/backend/dm/logger/LoggerImpl.java:93-111 | The logs of a file log() wrote, possibly followed by a torn log, are exactly the logs written, and their fold matches the header |
| Logger.ScanWholeFile | src/main/java/top/guoziyang/mydb/backend/dm/logger/LoggerImpl.java:93-111 | A file of well-formed logs whose header folds over them scans to exactly those logs and passes the checksum test |
| Logger.TailNotRead | src/main/java/top/guoziyang/mydb/backend/dm/logger/LoggerImpl.java:188-221 | The torn log after the written logs is not read |
| Logger.HeaderOf | src/main/java/top/guoziyang/mydb/backend/dm/logger/LoggerImpl.java:159 | The header of a file log() wrote holds the fold over all its logs |
| Logger.LogExtendsFileOf | src/main/java/top/guoziyang/mydb/backend/dm/logger/LoggerImpl.java:137-165 | log(d) on the file of ds leaves exactly the file of ds ++ [d] |
| Logger.PhantomLogAfterTruncation | src/main/java/top/guoziyang/mydb/backend/dm/logger/LoggerImpl.java:111 | With the length from before the truncation, a read at the new end sees zeros that pass as an empty log; with the new length, reading stops there |
| Logger.DecodePastEnd | src/main/java/top/guoziyang/mydb/backend/dm/logger/LoggerImpl.java:198 | A read past the end of the file sees zero bytes |
| Logger.LoggerImpl.constructor | src/main/java/top/guoziyang/mydb/backend/dm/logger/LoggerImpl.java:60-65 | A logger holds the file and the header checksum it is given, with fileSize the file's length and position 4 |
| Logger.LoggerImpl.Rewind | src/main/java/top/guoziyang/mydb/backend/dm/logger/LoggerImpl.java:243-245 | position becomes 4 and nothing else changes |
| Logger.LoggerImpl.InternNextLog | src/main/java/top/guoziyang/mydb/backend/dm/logger/LoggerImpl.java:188-225 | With no record left: None and position unmoved. Otherwise the record found there, with position moved past it |
| Logger.LoggerImpl.Next | src/main/java/top/guoziyang/mydb/backend/dm/logger/LoggerImpl.java:229-238 | None iff no log is left; otherwise the head of the remaining data parts, moving past it |
| Logger.LoggerImpl.Truncate | src/main/java/top/guoziyang/mydb/backend/dm/logger/LoggerImpl.java:177-184 | The file is cut to x bytes; a larger x leaves it as it is |
| Logger.LoggerImpl.Log | src/main/java/top/guoziyang/mydb/backend/dm/logger/LoggerImpl.java:137-151 | Appends wrapLog(d) at the end of the file and rewrites the header with the fold extended over it; position and fileSize do not change |
| Logger.LoggerImpl.UpdateXChecksum | src/main/java/top/guoziyang/mydb/backend/dm/logger/LoggerImpl.java:154-165 | xChecksum becomes the fold extended over the log and is written at offset 0 |
| Logger.LoggerImpl.FoldLogs | src/main/java/top/guoziyang/mydb/backend/dm/logger/LoggerImpl.java:94-102 | The loop ends with the fold over every complete log from the first, and position at the end of the last one |
| Logger.LoggerImpl.CheckAndRemoveTail | src/main/java/top/guoziyang/mydb/backend/dm/logger/LoggerImpl.java:93-122 | Succeeds iff the fold over the complete logs equals the header. The file is then cut after the last complete log, with fileSize that length and position 4 |
| Logger.LoggerImpl.Open | src/main/java/top/guoziyang/mydb/backend/dm/logger/LoggerImpl.java:67-90 | A file under 4 bytes, or one whose header does not match the fold, is BadLogFile. Otherwise the logger's file is cut after the last complete log and starts at position 4 |
| Logger.LaidOutFirst | src/main/java/top/guoziyang/mydb/backend/dm/logger/LoggerImpl.java:188-224 | The first of well-formed logs laid out back to back reads back whole, and the others follow it |
| Logger.ReadFields | src/main/java/top/guoziyang/mydb/backend/dm/logger/LoggerImpl.java:197-218 | The size, checksum and checksummed data of a log read at a position are the fields the file holds there |
| Logger.ChecksumAt | src/main/java/top/guoziyang/mydb/backend/dm/logger/LoggerImpl.java:217-218 | The checksum fold over a file range stays in int range |
| Logger.Wraps | src/main/java/top/guoziyang/mydb/backend/dm/logger/LoggerImpl.java:167-173 | Each log is wrapped in turn, keeping the order |
| Recover.UpdateLog | src/main/java/top/guoziyang/mydb/backend/dm/Recover.java:183-192 | [type 1][xid:8][uid:8][oldRaw][newRaw]: 17 bytes plus both images, never taken for an insert record |
| Recover.ParseUpdateLog | src/main/java/top/guoziyang/mydb/backend/dm/Recover.java:195-206 | The raw part is cut into two halves of equal length; xid, pgno and offset are a long, an int and a short |
| Recover.InsertLog | src/main/java/top/guoziyang/mydb/backend/dm/Recover.java:245-251 | [type 0][xid:8][pgno:4][offset:2][raw]: 15 bytes plus the item, always taken for an insert record |
| Recover.ParseInsertLog | src/main/java/top/guoziyang/mydb/backend/dm/Recover.java:253-260 | The item is everything after byte 15; xid, pgno and offset are a long, an int and a short |
| Recover.InsertLogRoundTrip | src/main/java/top/guoziyang/mydb/backend/dm/Recover.java:245-260 | Parsing an insert record gives back its xid, page, offset and item |
| Recover.UpdateLogRoundTrip | src/main/java/top/guoziyang/mydb/backend/dm/Recover.java:183-206 | Parsing an update record of the item at (pgno, offset) gives back its xid, page, offset and both images, when the images have the same length |
| Recover.UpdateLogUnequalImages | src/main/java/top/guoziyang/mydb/backend/dm/Recover.java:202-204 | Images of unequal lengths do not survive: an empty old image and a new one of two bytes parse with a one-byte old image |
| Recover.PgnoOf | src/main/java/top/guoziyang/mydb/backend/dm/Recover.java:62-69 | The page a replayable record names is 1 or higher |
| Recover.LogWrite | src/main/java/top/guoziyang/mydb/backend/dm/Recover.java:210-284 | The byte write doInsertLog or doUpdateLog makes lies inside the record's page: redo writes the item or the new image, undo the item flagged invalid or the old image |
| Recover.ApplyWrite | src/main/java/top/guoziyang/mydb/backend/dm/Recover.java:234 | An overwrite keeps the page file's length |
| Recover.Apply | src/main/java/top/guoziyang/mydb/backend/dm/Recover.java:103-121 | A sequence of overwrites keeps the page file's length |
| Recover.ApplyAt | src/main/java/top/guoziyang/mydb/backend/dm/Recover.java:103-121 | Each byte after the writes is the one the last write covering it left, or the original byte |
| Recover.ApplyTwice | src/main/java/top/guoziyang/mydb/backend/dm/Recover.java:103-121 | Replaying the same writes on their own result changes nothing |
| Recover.ApplySnoc | src/main/java/top/guoziyang/mydb/backend/dm/Recover.java:103-121 | One more write is applied after the others |
| Recover.ApplyConcat | src/main/java/top/guoziyang/mydb/backend/dm/Recover.java:83-87 | Applying a ++ b is applying b after a |
| Recover.MaxPgno | src/main/java/top/guoziyang/mydb/backend/dm/Recover.java:57-73 | The scan's maximum is 0 iff there are no records and bounds every record's page |
| Recover.MaxPgnoAttained | src/main/java/top/guoziyang/mydb/backend/dm/Recover.java:57-73 | Some record names exactly the maximum page |
| Recover.RecoverPages | src/main/java/top/guoziyang/mydb/backend/dm/Recover.java:57-79 | The file is truncated to at least one page |
| Recover.WritesFitTruncated | src/main/java/top/guoziyang/mydb/backend/dm/Recover.java:79-87 | Every redo and undo write lies inside the truncated file, so no page recovery touches is cut off |
| Recover.Inactive | src/main/java/top/guoziyang/mydb/backend/dm/Recover.java:103-121 | The records redo replays all come from the log and belong to xids that are not active |
| Recover.InactiveComplete | src/main/java/top/guoziyang/mydb/backend/dm/Recover.java:103-121 | Every record of an xid that is not active is replayed |
| Recover.WritesOf | src/main/java/top/guoziyang/mydb/backend/dm/Recover.java:103-121 | One write per record |
| Recover.WritesOfFit | src/main/java/top/guoziyang/mydb/backend/dm/Recover.java:103-121 | The writes of records naming pages up to n all fit a file of n pages |
| Recover.RedoWritesFit | src/main/java/top/guoziyang/mydb/backend/dm/Recover.java:100-122 | The redo writes fit the truncated file |
| Recover.RedoIdempotent | src/main/java/top/guoziyang/mydb/backend/dm/Recover.java:100-122 | Redo is idempotent: a crash during recovery followed by another recovery redoes to the same bytes |
| Recover.OfXid | src/main/java/top/guoziyang/mydb/backend/dm/Recover.java:129-153 | The records gathered for an xid are records of that xid from the log |
| Recover.CollectGroups | src/main/java/top/guoziyang/mydb/backend/dm/Recover.java:129-153 | logCache holds exactly the active xids that have records, each with all its records in log order |
| Recover.OfXidNone | src/main/java/top/guoziyang/mydb/backend/dm/Recover.java:129-153 | An xid without records gets no records |
| Recover.UndoWritesOf | src/main/java/top/guoziyang/mydb/backend/dm/Recover.java:159-166 | One undo write per record |
| Recover.MaxPgnoStep | src/main/java/top/guoziyang/mydb/backend/dm/Recover.java:59-72 | One step of the scan keeps the maximum page of the records read so far |
| Recover.Recover | src/main/java/top/guoziyang/mydb/backend/dm/Recover.java:53-91 | The page file becomes the file truncated to the highest page named, with the redo writes and then the undo writes applied. Every active xid with records ends aborted and no other status changes |
| Recover.ReadStep | src/main/java/top/guoziyang/mydb/backend/dm/Recover.java:104-105 | Reading one more record moves the read prefix along by one |
| Recover.RedoTransactions | src/main/java/top/guoziyang/mydb/backend/dm/Recover.java:100-122 | The page file is the input with every redo write of non-active records applied, in log order |
| Recover.RedoAdvance | src/main/java/top/guoziyang/mydb/backend/dm/Recover.java:103-121 | The redo loop's invariant carries over one more record |
| Recover.RedoStep | src/main/java/top/guoziyang/mydb/backend/dm/Recover.java:107-119 | A record of an active xid adds no write; any other adds its redo write |
| Recover.WritesOfMember | src/main/java/top/guoziyang/mydb/backend/dm/Recover.java:159-166 | The write of each listed record is among the listed writes |
| Recover.CollectStep | src/main/java/top/guoziyang/mydb/backend/dm/Recover.java:131-153 | One record of an active xid is appended to its xid's list; any other leaves the cache as it was |
| Recover.UndoWritesStep | src/main/java/top/guoziyang/mydb/backend/dm/Recover.java:159-166 | Undo goes from the newest record back to the oldest |
| Recover.UndoWritesFit | src/main/java/top/guoziyang/mydb/backend/dm/Recover.java:159-166 | Every undo write of the cached records fits the truncated file |
| Recover.CollectActive | src/main/java/top/guoziyang/mydb/backend/dm/Recover.java:129-153 | The first loop builds logCache: each active xid with records, mapped to its records in log order |
| Recover.UndoLogs | src/main/java/top/guoziyang/mydb/backend/dm/Recover.java:159-166 | One xid's records undone newest first give exactly its undo writes applied |
| Recover.UndoWritesSuffix | src/main/java/top/guoziyang/mydb/backend/dm/Recover.java:159-166 | The undo writes of the older records are among the undo writes of all |
| Recover.UndoTransactions | src/main/java/top/guoziyang/mydb/backend/dm/Recover.java:125-170 | The page file gets the undo writes of each cached xid in the cache's iteration order. Each of those xids is aborted afterwards and no other status changes |
| Recover.UndoCached | src/main/java/top/guoziyang/mydb/backend/dm/Recover.java:157-169 | Each cached xid is visited once: its writes are applied newest first and it is then marked aborted |
| Recover.CacheFits | src/main/java/top/guoziyang/mydb/backend/dm/Recover.java:129-166 | The cache the scan builds lists only active xids with replayable records that fit the file |
| TransactionManager.XidPositionsDistinct | src/main/java/top/guoziyang/mydb/backend/tm/TransactionManagerImpl.java:101-104 | Every xid from 1 on has its own status byte, after the 8-byte header |
| TransactionManager.CheckXidCounter | src/main/java/top/guoziyang/mydb/backend/tm/TransactionManagerImpl.java:68-98 | BadXIDFile iff the file is shorter than the header or its length is not the position after the last begun xid; otherwise the counter the header holds, which is exactly the number of status bytes |
| TransactionManager.CreatedFileOpens | src/main/java/top/guoziyang/mydb/backend/tm/TransactionManagerImpl.java:68-98 | A file holding only an all-zero header opens with counter 0 |
| TransactionManager.BeganReopens | src/main/java/top/guoziyang/mydb/backend/tm/TransactionManagerImpl.java:158-173 | After begin the file still passes checkXIDCounter, with the counter one higher, the new xid active and every earlier xid's status as it was |
| TransactionManager.Updated | src/main/java/top/guoziyang/mydb/backend/tm/TransactionManagerImpl.java:107-129 | Writing a status byte gives that xid that status and changes no other byte |
| TransactionManager.UpdatedReopens | src/main/java/top/guoziyang/mydb/backend/tm/TransactionManagerImpl.java:107-129 | Writing the status of a begun xid keeps the file passing checkXIDCounter with the same counter |
| TransactionManager.TransactionManagerImpl.constructor | src/main/java/top/guoziyang/mydb/backend/tm/TransactionManagerImpl.java:57-62 | An accepted file opens with the counter its header holds |
| TransactionManager.TransactionManagerImpl.Begin | src/main/java/top/guoziyang/mydb/backend/tm/TransactionManagerImpl.java:158-173 | Returns counter + 1, marked active, with the counter advanced and persisted; earlier xids keep their status |
| TransactionManager.TransactionManagerImpl.UpdateXid | src/main/java/top/guoziyang/mydb/backend/tm/TransactionManagerImpl.java:107-129 | The file gets the xid's status byte written, and the counter is unchanged |
| TransactionManager.TransactionManagerImpl.Commit | src/main/java/top/guoziyang/mydb/backend/tm/TransactionManagerImpl.java:176-178 | Afterwards the xid is committed, neither active nor aborted, and no other xid's status changes |
| TransactionManager.TransactionManagerImpl.Abort | src/main/java/top/guoziyang/mydb/backend/tm/TransactionManagerImpl.java:181-183 | Afterwards the xid is aborted, neither active nor committed, and no other xid's status changes |
| Transaction.Transaction.constructor | src/main/java/top/guoziyang/mydb/backend/vm/Transaction.java:29-32 | A transaction holds its xid, level and snapshot, with no error and not auto-aborted |
| Transaction.CopyKeys | src/main/java/top/guoziyang/mydb/backend/vm/Transaction.java:34-37 | The loop copies exactly the keys of the active map |
| Transaction.NewTransaction | src/main/java/top/guoziyang/mydb/backend/vm/Transaction.java:29-40 | A snapshot equal to the active set exactly when the level is not 0, none at level 0 |
| Transaction.InSnapshotIff | src/main/java/top/guoziyang/mydb/backend/vm/Transaction.java:43-49 | In a snapshot taken from the active set iff the xid is not 0 and was active; the super transaction never is |
| Visibility.ReadCommittedIff | src/main/java/top/guoziyang/mydb/backend/vm/Visibility.java:35-55 | Visible under read committed iff the caller's own live version, or created by a committed xid and either not deleted or deleted by another xid that has not committed |
| Visibility.RepeatableReadIff | src/main/java/top/guoziyang/mydb/backend/vm/Visibility.java:64-84 | Visible under repeatable read iff the caller's own live version, or created by a committed older xid outside the snapshot, and not deleted by a committed older xid outside the snapshot other than the caller |
| Visibility.OwnDeletionInvisible | src/main/java/top/guoziyang/mydb/backend/vm/Visibility.java:20-26 | A transaction never sees a version it deleted itself |
| Visibility.NoDirtyRead | src/main/java/top/guoziyang/mydb/backend/vm/Visibility.java:20-26 | A version created by another xid that has not committed is invisible at both levels |
| Visibility.LaterCreatorInvisible | src/main/java/top/guoziyang/mydb/backend/vm/Visibility.java:72 | Under repeatable read, a version created by a later xid or by one in the snapshot is invisible |
| Visibility.RepeatableReadStable | src/main/java/top/guoziyang/mydb/backend/vm/Visibility.java:64-84 | Repeatable read depends only on the statuses of xids older than the caller outside its snapshot: later commits of any other xid do not change what it sees |
| Visibility.VisibleCommittedDeleteSkips | src/main/java/top/guoziyang/mydb/backend/vm/Visibility.java:8-18 | Under repeatable read, a visible version whose deleter committed is a version skip |
| Visibility.ReadCommittedNoSkip | src/main/java/top/guoziyang/mydb/backend/vm/Visibility.java:8-12 | Read committed never reports a skip, and a committed deletion hides the version |
| Entry.WrapEntryRaw | src/main/java/top/guoziyang/mydb/backend/vm/Entry.java:78-85 | [xmin:8][xmax:8][data] has 16 bytes more than the data |
| Entry.XminOf | src/main/java/top/guoziyang/mydb/backend/vm/Entry.java:113 | xmin is a long read from bytes 0..8 |
| Entry.XmaxOf | src/main/java/top/guoziyang/mydb/backend/vm/Entry.java:123 | xmax is a long read from bytes 8..16 |
| Entry.DataOf | src/main/java/top/guoziyang/mydb/backend/vm/Entry.java:101-102 | The data is everything past the 16 header bytes |
| Entry.WithXmax | src/main/java/top/guoziyang/mydb/backend/vm/Entry.java:135 | Writing xmax keeps the entry's length |
| Entry.WrapEntryRoundTrip | src/main/java/top/guoziyang/mydb/backend/vm/Entry.java:78-127 | A wrapped entry reads back the creating xid as xmin, 0 as xmax, and its data |
| Entry.WithXmaxFields | src/main/java/top/guoziyang/mydb/backend/vm/Entry.java:129-139 | setXmax makes xmax read back as the new xid and leaves xmin and the data as they were |
| Entry.WithXmaxSpan | src/main/java/top/guoziyang/mydb/backend/vm/Entry.java:134-135 | Writing xmax into the page changes the entry's span exactly at its xmax field |
| Entry.Entry.constructor | src/main/java/top/guoziyang/mydb/backend/vm/Entry.java:53-56 | The entry holds the uid and data item it is given |
| Entry.Entry.GetXmin | src/main/java/top/guoziyang/mydb/backend/vm/Entry.java:109-117 | Returns the xmin field of the entry's bytes |
| Entry.Entry.GetXmax | src/main/java/top/guoziyang/mydb/backend/vm/Entry.java:119-127 | Returns the xmax field of the entry's bytes |
| Entry.Entry.Data | src/main/java/top/guoziyang/mydb/backend/vm/Entry.java:97-107 | A fresh copy of the entry's data |
| Entry.Entry.SetXmax | src/main/java/top/guoziyang/mydb/backend/vm/Entry.java:129-139 | The xid lands in the xmax field in place and no other byte changes. The page is dirty, the old span is saved, and the update record of the old and new span is appended to the log |
| Entry.NewEntry | src/main/java/top/guoziyang/mydb/backend/vm/Entry.java:49-58 | None iff there is no data item; otherwise an entry over that item with the given uid |
| LockTable.FirstIn | src/main/java/top/guoziyang/mydb/backend/vm/LockTable.java:112-124 | The first queued xid with a wait lock: no earlier one has one |
| LockTable.FirstInIs | src/main/java/top/guoziyang/mydb/backend/vm/LockTable.java:112-124 | The index where the scan stops is exactly that first one |
| LockTable.PutIntoList | src/main/java/top/guoziyang/mydb/backend/vm/LockTable.java:190-195 | The value goes to the front of the key's list, created when missing; other lists are unchanged |
| LockTable.SelectNew | src/main/java/top/guoziyang/mydb/backend/vm/LockTable.java:103-128 | Handing on a uid never touches x2u |
| LockTable.LockTable.constructor | src/main/java/top/guoziyang/mydb/backend/vm/LockTable.java:28-35 | All tables start empty |
| LockTable.LockTable.Add | src/main/java/top/guoziyang/mydb/backend/vm/LockTable.java:39-74 | The tables and outcome are exactly AddOutcome: no wait if xid has uid or uid is free; otherwise Deadlock with the tables as before when hasDeadLock fires, else a wait lock |
| LockTable.LockTable.Remove | src/main/java/top/guoziyang/mydb/backend/vm/LockTable.java:77-100 | The tables become Removed: each listed uid released and handed on in list order, then xid erased from x2u, waitU and waitLock |
| LockTable.LockTable.SelectNewXID | src/main/java/top/guoziyang/mydb/backend/vm/LockTable.java:103-128 | The tables become SelectNew: uid freed, dead waiters dropped, the first live waiter made holder without its lock or wait edge, and an empty queue removed |
| LockTable.LockTable.HasDeadLock | src/main/java/top/guoziyang/mydb/backend/vm/LockTable.java:135-152 | True iff the wait-for chain from some xid with a list in x2u revisits an xid; the tables are unchanged |
| LockTable.LockTable.Dfs | src/main/java/top/guoziyang/mydb/backend/vm/LockTable.java:154-172 | True only when the chain from the walk's root revisits an xid; false leaves every stamped xid with an ending chain |
| LockTable.LockTable.IsInList | src/main/java/top/guoziyang/mydb/backend/vm/LockTable.java:198-209 | True iff the value is in the key's list |
| LockTable.LockTable.RemoveFromList | src/main/java/top/guoziyang/mydb/backend/vm/LockTable.java:174-188 | The first occurrence leaves the list, and an emptied list leaves the map |
| LockTable.EndedStaysEnded | src/main/java/top/guoziyang/mydb/backend/vm/LockTable.java:154-172 | Once a wait chain ends it stays ended |
| LockTable.FollowShift | src/main/java/top/guoziyang/mydb/backend/vm/LockTable.java:167-171 | Following i steps and then n more is following i + n steps |
| LockTable.EndlessAlong | src/main/java/top/guoziyang/mydb/backend/vm/LockTable.java:167-171 | An xid's chain is endless iff the chain of any xid along it is |
| LockTable.ChainPrefixStep | src/main/java/top/guoziyang/mydb/backend/vm/LockTable.java:165 | Each xid stamped in the current walk was met at a step before the current one |
| LockTable.CurrentRoundEnds | src/main/java/top/guoziyang/mydb/backend/vm/LockTable.java:161-162 | When the root's chain ends, so does the chain of every xid the walk stamped |
| LockTable.CycleEndless | src/main/java/top/guoziyang/mydb/backend/vm/LockTable.java:157-158 | A chain that returns to an xid goes round forever |
| LockTable.EndlessIfRevisits | src/main/java/top/guoziyang/mydb/backend/vm/LockTable.java:157-158 | Meeting the current stamp again means an endless chain |
| LockTable.AddConsistent | src/main/java/top/guoziyang/mydb/backend/vm/LockTable.java:39-74 | add keeps the tables consistent: waiters exactly hold wait locks, wait for held uids and sit in their queues, and each listed uid is held by its lister, once |
| LockTable.AcquireConsistent | src/main/java/top/guoziyang/mydb/backend/vm/LockTable.java:47-50 | Taking a free uid keeps the tables consistent |
| LockTable.WaitConsistent | src/main/java/top/guoziyang/mydb/backend/vm/LockTable.java:53-68 | Queueing behind the holder with a wait lock keeps the tables consistent |
| LockTable.AddDeadlockRestores | src/main/java/top/guoziyang/mydb/backend/vm/LockTable.java:58-61 | A deadlocked add removes exactly the edge it recorded, leaving the tables as before |
| LockTable.AddNoWaitHolds | src/main/java/top/guoziyang/mydb/backend/vm/LockTable.java:43-50 | add without a wait leaves xid the holder of uid, with uid in its list |
| LockTable.AddWaitQueuesFront | src/main/java/top/guoziyang/mydb/backend/vm/LockTable.java:53-69 | add with a wait leaves xid waiting for uid at the front of its queue, holding a wait lock |
| LockTable.SameGraphSameDeadlock | src/main/java/top/guoziyang/mydb/backend/vm/LockTable.java:135-172 | Only x2u, u2x and waitU enter the deadlock test |
| LockTable.SameGraphSameChain | src/main/java/top/guoziyang/mydb/backend/vm/LockTable.java:167-171 | The chain depends only on u2x and waitU |
| LockTable.SelectNewConsistent | src/main/java/top/guoziyang/mydb/backend/vm/LockTable.java:103-128 | Handing on a uid no list names keeps the tables consistent |
| LockTable.DropHeadConsistent | src/main/java/top/guoziyang/mydb/backend/vm/LockTable.java:85 | Taking the first uid off xid's list keeps the tables consistent and leaves that uid in no list |
| LockTable.ListedOnce | src/main/java/top/guoziyang/mydb/backend/vm/LockTable.java:19 | A uid is listed under one xid at most |
| LockTable.ReleaseAllConsistent | src/main/java/top/guoziyang/mydb/backend/vm/LockTable.java:81-89 | The release loop keeps the tables consistent |
| LockTable.RemovedConsistent | src/main/java/top/guoziyang/mydb/backend/vm/LockTable.java:77-100 | remove keeps the tables consistent |
| LockTable.ReleaseAllKeepsLists | src/main/java/top/guoziyang/mydb/backend/vm/LockTable.java:81-89 | The release loop changes only the released xid's own list |
| LockTable.ReleaseAllHolder | src/main/java/top/guoziyang/mydb/backend/vm/LockTable.java:81-89 | After the loop xid holds exactly the uids it held outside its list |
| LockTable.RemovedReleases | src/main/java/top/guoziyang/mydb/backend/vm/LockTable.java:77-100 | remove erases xid from x2u, waitU and waitLock and leaves other lists alone; xid keeps only the uids it held outside its list |
| LockTable.SelectNewServesFirstLive | src/main/java/top/guoziyang/mydb/backend/vm/LockTable.java:103-128 | The first queued xid with a wait lock becomes the holder and stops waiting; those before it are dropped, those after stay queued; with none the uid is free |
| LockTable.NewestWaiterServedFirst | src/main/java/top/guoziyang/mydb/backend/vm/LockTable.java:190-195 | The queue is last in, first out: the live xid queued last gets the uid |
| LockTable.WokenNotListed | src/main/java/top/guoziyang/mydb/backend/vm/LockTable.java:118 | A woken xid becomes the holder in u2x but its x2u list does not gain the uid |
| LockTable.WokenLockOutlivesRemove | src/main/java/top/guoziyang/mydb/backend/vm/LockTable.java:77-100 | A uid an xid got by being woken stays held by it after remove |
| LockTable.WokenCycleMissed | src/main/java/top/guoziyang/mydb/backend/vm/LockTable.java:138 | A cycle between woken xids is not detected, and add hands out a wait lock |
| VersionManager.VersionManagerImpl.constructor | src/main/java/top/guoziyang/mydb/backend/vm/VersionManagerImpl.java:23-31 | Only the super transaction is registered, at read committed with no snapshot, and the lock table is empty |
| VersionManager.VersionManagerImpl.Begin | src/main/java/top/guoziyang/mydb/backend/vm/VersionManagerImpl.java:147-157 | The xid tm.begin hands out is registered, active, with the given level and, at a level other than 0, a snapshot of the xids registered before it |
| VersionManager.VersionManagerImpl.Read | src/main/java/top/guoziyang/mydb/backend/vm/VersionManagerImpl.java:35-63 | The transaction's error if it has one; otherwise the entry's data iff the entry exists and is visible to the caller, and nothing otherwise |
| VersionManager.VersionManagerImpl.Insert | src/main/java/top/guoziyang/mydb/backend/vm/VersionManagerImpl.java:67-78 | The transaction's error if it has one; otherwise the entry wrapped with xmin = xid goes to the data manager. An entry too large for a page is DataTooLarge. Otherwise the insert succeeds exactly when the cache has room, giving CacheFull when it has none, and the uid returned reads back as that entry |
| VersionManager.VersionManagerImpl.Delete | src/main/java/top/guoziyang/mydb/backend/vm/VersionManagerImpl.java:81-139 | The error if set; false for a missing or invisible entry; a deadlock auto-aborts and surfaces as ConcurrentUpdate; a lock to wait for stops the delete; otherwise as ResumeDelete. For each outcome, the new state: true means the lock table is add's result for (xid, uid), the entry's xmax is now xid, and the transaction and TM file are unchanged. false and a wait leave the entry's bytes as they were. An error aborts the transaction, releases its locks and marks it aborted in the TM file |
| VersionManager.VersionManagerImpl.DeleteVisible | src/main/java/top/guoziyang/mydb/backend/vm/VersionManagerImpl.java:100-134 | Past the error check, the outcome is DeleteOutcome of the entry's bytes and the lock table's answer. True means the lock table is add's result, xmax is xid, and the transaction and TM file are unchanged. false and a wait leave the entry's bytes unchanged, with the lock taken only for a visible entry. An error sets ConcurrentUpdate, auto-aborts, and on the first abort releases the xid's locks and marks it aborted |
| VersionManager.VersionManagerImpl.LockAndDelete | src/main/java/top/guoziyang/mydb/backend/vm/VersionManagerImpl.java:104-134 | A visible entry's uid is locked; Deadlock auto-aborts, a wait stops, and otherwise the delete resumes. After a lock held at once: true means the lock table is add's result and xmax is xid; false leaves the entry as it was; an error aborts, releasing the xid's locks and marking it aborted in the TM file |
| VersionManager.VersionManagerImpl.ResumeDelete | src/main/java/top/guoziyang/mydb/backend/vm/VersionManagerImpl.java:120-134 | false if xid already deleted the entry; a version skip auto-aborts with ConcurrentUpdate; otherwise xmax becomes xid and true |
| VersionManager.VersionManagerImpl.AutoAbort | src/main/java/top/guoziyang/mydb/backend/vm/VersionManagerImpl.java:109-111 | The error becomes ConcurrentUpdate and the transaction is marked auto-aborted, still registered; the locks are released and the xid aborted unless that already happened |
| VersionManager.VersionManagerImpl.Commit | src/main/java/top/guoziyang/mydb/backend/vm/VersionManagerImpl.java:165-189 | A transaction with an error stays registered and gets its error back; any other is deregistered, its locks released and the xid committed |
| VersionManager.VersionManagerImpl.Abort | src/main/java/top/guoziyang/mydb/backend/vm/VersionManagerImpl.java:193-195 | A manual abort deregisters the transaction, and unless it was auto-aborted releases its locks and aborts the xid |
| VersionManager.VersionManagerImpl.InternAbort | src/main/java/top/guoziyang/mydb/backend/vm/VersionManagerImpl.java:198-211 | Only a manual abort deregisters; locks are released and the xid aborted unless the transaction was auto-aborted before |
| VersionManager.Resumed | src/main/java/top/guoziyang/mydb/backend/vm/VersionManagerImpl.java:120-134 | false iff the caller is the entry's xmax; any error is ConcurrentUpdate |
| VersionManager.DeletedWasVisible | src/main/java/top/guoziyang/mydb/backend/vm/VersionManagerImpl.java:100-134 | A delete returning true removed a version the caller could see, that it had not deleted and that is no version skip; afterwards the caller no longer sees it, and its creator and data are unchanged |
| VersionManager.InvisibleNotLocked | src/main/java/top/guoziyang/mydb/backend/vm/VersionManagerImpl.java:101-103 | A delete never waits for, or fails on, an entry the caller cannot see |
| VersionManager.OwnInsertVisible | src/main/java/top/guoziyang/mydb/backend/vm/VersionManagerImpl.java:76-77 | A transaction sees the entry it has just inserted, with the data it gave |
| VersionManager.OwnDeleteInvisible | src/main/java/top/guoziyang/mydb/backend/vm/VersionManagerImpl.java:133 | Once a transaction deletes an entry, the entry is invisible to it |
| NodeLayout.KeyCountOf | src/main/java/top/guoziyang/mydb/backend/im/Node.java:53-55 | The key count is the signed 16-bit field at bytes 1-2 |
| NodeLayout.SiblingOf | src/main/java/top/guoziyang/mydb/backend/im/Node.java:61-63 | The sibling uid is the signed 64-bit field at bytes 3-10 |
| NodeLayout.SonOf | src/main/java/top/guoziyang/mydb/backend/im/Node.java:70-73 | Son k is the signed 64-bit field at byte 11 + 16k |
| NodeLayout.KeyOf | src/main/java/top/guoziyang/mydb/backend/im/Node.java:80-83 | Key k is the signed 64-bit field at byte 19 + 16k |
| NodeLayout.AllSons | src/main/java/top/guoziyang/mydb/backend/im/Node.java:30 | A node has 66 son slots, slot k holding son k |
| NodeLayout.AllKeys | src/main/java/top/guoziyang/mydb/backend/im/Node.java:30 | A node has 66 key slots, slot k holding key k |
| NodeLayout.Keys | src/main/java/top/guoziyang/mydb/backend/im/Node.java:53-55 | The node's keys are the first key-count key slots |
| NodeLayout.Sons | src/main/java/top/guoziyang/mydb/backend/im/Node.java:53-55 | The node's sons are the first key-count son slots |
| NodeLayout.Ins | src/main/java/top/guoziyang/mydb/backend/im/Node.java:293-297 | Putting x in at i keeps the elements before i, puts x at i and moves the rest one on |
| NodeLayout.LeafSet | src/main/java/top/guoziyang/mydb/backend/im/Node.java:37-43 | Writing the leaf flag changes the flag and no count, sibling, key or son |
| NodeLayout.KeyCountSet | src/main/java/top/guoziyang/mydb/backend/im/Node.java:49-51 | Writing the count stores it cut to 16 bits and changes neither flag nor sibling |
| NodeLayout.SiblingSet | src/main/java/top/guoziyang/mydb/backend/im/Node.java:57-59 | Writing the sibling changes only the sibling |
| NodeLayout.SonSet | src/main/java/top/guoziyang/mydb/backend/im/Node.java:65-68 | Writing son k changes son k alone |
| NodeLayout.KeySet | src/main/java/top/guoziyang/mydb/backend/im/Node.java:75-78 | Writing key k changes key k alone |
| NodeLayout.ShiftedSlots | src/main/java/top/guoziyang/mydb/backend/im/Node.java:90-96 | The shift at kth keeps the header and slots up to kth and moves slots kth to 64 one slot on, dropping the last |
| NodeLayout.CopiedSlots | src/main/java/top/guoziyang/mydb/backend/im/Node.java:85-88 | The copy from kth puts from's slots kth onward at the target's first slots and keeps the target's header |
| NodeLayout.FirstAtLeast | src/main/java/top/guoziyang/mydb/backend/im/Node.java:283-290 | The first index whose key is at least x: every earlier key is below x |
| NodeLayout.FirstAbove | src/main/java/top/guoziyang/mydb/backend/im/Node.java:174-183 | The first index whose key is above x: every earlier key is at most x |
| NodeLayout.FirstAboveSorted | src/main/java/top/guoziyang/mydb/backend/im/Node.java:174-186 | In sorted keys the index splits the keys at most x from those above it |
| NodeLayout.FirstAtLeastSorted | src/main/java/top/guoziyang/mydb/backend/im/Node.java:283-290 | In sorted keys the index splits the keys below x from those at least x |
| NodeLayout.RangeEnd | src/main/java/top/guoziyang/mydb/backend/im/Node.java:216-225 | The second scan of the range search stops no earlier than the first and no later than the last key |
| NodeLayout.InRange | src/main/java/top/guoziyang/mydb/backend/im/Node.java:200-225 | The sons whose keys lie within the range are at most as many as the keys |
| NodeLayout.InRangeNone | src/main/java/top/guoziyang/mydb/backend/im/Node.java:216-225 | No key at most hi means no son in the range |
| NodeLayout.RangeIsInRange | src/main/java/top/guoziyang/mydb/backend/im/Node.java:203-225 | For sorted keys the two scans collect exactly the sons of the keys within the range, in order |
| NodeLayout.RangeReachesEnd | src/main/java/top/guoziyang/mydb/backend/im/Node.java:228-232 | The scan reaches the last key, and the sibling is handed on, exactly when every key at least lo is at most hi |
| NodeLayout.InsertedKeys | src/main/java/top/guoziyang/mydb/backend/im/Node.java:280-307 | An insert puts the key in at its first slot, adds it to the key multiset, keeps sorted keys sorted, and in a leaf puts the uid beside it |
| NodeLayout.SplitHalves | src/main/java/top/guoziyang/mydb/backend/im/Node.java:319-333 | A split of 64 keys leaves 32 in each node; left then right are the old keys and sons in order; for sorted keys both halves are sorted and the new key lies above the left half |
| NodeLayout.LeafInsertFields | src/main/java/top/guoziyang/mydb/backend/im/Node.java:293-297 | The leaf branch puts the key and the uid in at kth and grows the count by one |
| NodeLayout.InnerInsertFields | src/main/java/top/guoziyang/mydb/backend/im/Node.java:298-305 | The inner branch puts the key in at kth and the uid at kth + 1 and grows the count by one |
| NodeLayout.RootFields | src/main/java/top/guoziyang/mydb/backend/im/Node.java:105-124 | The new root is an inner node of keys key and Long.MAX_VALUE over sons left and right, with no sibling |
| NodeLayout.NilRootFields | src/main/java/top/guoziyang/mydb/backend/im/Node.java:127-135 | The empty root is a leaf of no keys with no sibling |
| NodeLayout.RightHalfFields | src/main/java/top/guoziyang/mydb/backend/im/Node.java:320-324 | The new node has the old leaf flag, 32 keys, the old sibling and the slots from 32 on |
| NodeLayout.LeftHalfFields | src/main/java/top/guoziyang/mydb/backend/im/Node.java:326-327 | The old node keeps its flag and slots, holds 32 keys and links to the new node |
| Node.SetRawIsLeaf | src/main/java/top/guoziyang/mydb/backend/im/Node.java:37-43 | The node's bytes become the flag written into them; nothing outside the node changes |
| Node.GetRawIfLeaf | src/main/java/top/guoziyang/mydb/backend/im/Node.java:45-47 | The result is the node's leaf flag |
| Node.SetRawNoKeys | src/main/java/top/guoziyang/mydb/backend/im/Node.java:49-51 | The node's bytes become the count written into them; nothing outside the node changes |
| Node.GetRawNoKeys | src/main/java/top/guoziyang/mydb/backend/im/Node.java:53-55 | The result is the node's key count |
| Node.SetRawSibling | src/main/java/top/guoziyang/mydb/backend/im/Node.java:57-59 | The node's bytes become the sibling written into them; nothing outside the node changes |
| Node.GetRawSibling | src/main/java/top/guoziyang/mydb/backend/im/Node.java:61-63 | The result is the node's sibling |
| Node.SetRawKthSon | src/main/java/top/guoziyang/mydb/backend/im/Node.java:65-68 | The node's bytes become son kth written into them; nothing outside the node changes |
| Node.GetRawKthSon | src/main/java/top/guoziyang/mydb/backend/im/Node.java:70-73 | The result is son kth |
| Node.SetRawKthKey | src/main/java/top/guoziyang/mydb/backend/im/Node.java:75-78 | The node's bytes become key kth written into them; nothing outside the node changes |
| Node.GetRawKthKey | src/main/java/top/guoziyang/mydb/backend/im/Node.java:80-83 | The result is key kth |
| Node.CopyRawFromKth | src/main/java/top/guoziyang/mydb/backend/im/Node.java:85-88 | The target node becomes its header with from's slots kth onward; nothing outside it changes |
| Node.ShiftRawKth | src/main/java/top/guoziyang/mydb/backend/im/Node.java:90-96 | The byte-by-byte backward copy leaves the node shifted by one slot from kth + 1; nothing outside it changes |
| Node.NewRootRaw | src/main/java/top/guoziyang/mydb/backend/im/Node.java:105-124 | A fresh inner node of keys key and Long.MAX_VALUE over sons left and right, with no sibling |
| Node.NewNilRootRaw | src/main/java/top/guoziyang/mydb/backend/im/Node.java:127-135 | A fresh leaf of no keys and no sibling |
| Node.RootRouting | src/main/java/top/guoziyang/mydb/backend/im/Node.java:174-183 | In a new root, keys below key route to slot 0 and the other keys below Long.MAX_VALUE to slot 1 |
| Node.RightHalf | src/main/java/top/guoziyang/mydb/backend/im/Node.java:320-324 | A fresh node with the old leaf flag, 32 keys, the old sibling and the old slots from 32 on |
| Node.InsertNode | src/main/java/top/guoziyang/mydb/backend/im/Node.java:325 | A node inserted as the super transaction succeeds exactly when the cache has room, giving CacheFull otherwise; its uid then reads back as its data item |
| Node.Node.constructor | src/main/java/top/guoziyang/mydb/backend/im/Node.java:140-144 | The node is its data item's data, of exactly the node size, under the given uid |
| Node.Node.Bytes | src/main/java/top/guoziyang/mydb/backend/im/Node.java:34 | The node's bytes are the node size long |
| Node.Node.IsLeaf | src/main/java/top/guoziyang/mydb/backend/im/Node.java:152-159 | The result is the node's leaf flag |
| Node.Node.SearchNext | src/main/java/top/guoziyang/mydb/backend/im/Node.java:167-192 | The son of the first key above key with no sibling; when no key is above it, uid 0 and the sibling |
| Node.Node.FindSlot | src/main/java/top/guoziyang/mydb/backend/im/Node.java:283-290 | The scan stops at the first key at least x |
| Node.Node.LeafSearchRange | src/main/java/top/guoziyang/mydb/backend/im/Node.java:200-240 | The sons from the first key at least lo to the first later key above hi; the sibling exactly when that scan reached the last key |
| Node.Node.CollectFrom | src/main/java/top/guoziyang/mydb/backend/im/Node.java:216-225 | The sons from slot a on while the key is at most hi; the stop slot's key is above hi |
| Node.Node.Insert | src/main/java/top/guoziyang/mydb/backend/im/Node.java:280-307 | Refused, with nothing changed, exactly when the key belongs past the last key and there is a sibling; otherwise the key and uid go in at the first key at least as large |
| Node.Node.InsertLeaf | src/main/java/top/guoziyang/mydb/backend/im/Node.java:293-297 | The leaf branch puts key and uid in at kth and grows the count |
| Node.Node.InsertInner | src/main/java/top/guoziyang/mydb/backend/im/Node.java:298-305 | The inner branch puts key in at kth and uid at kth + 1 and grows the count |
| Node.Node.NeedSplit | src/main/java/top/guoziyang/mydb/backend/im/Node.java:310-313 | True exactly when the node holds 64 keys |
| Node.Node.Split | src/main/java/top/guoziyang/mydb/backend/im/Node.java:319-333 | The split succeeds exactly when the cache has room, giving CacheFull otherwise. The right half goes to a new data item that reads back; this node keeps the left half and links to it; the new key is the right node's first; a failed insert leaves the node as it was |
| Node.Node.InsertAndSplit | src/main/java/top/guoziyang/mydb/backend/im/Node.java:246-278 | A refused insert returns the sibling with the node and the log unchanged; an accepted one puts the key in and splits at 64 keys. That split succeeds exactly when the cache has room; when it fails (CacheFull) the insert is undone, and otherwise the change is logged as one update record of the data item |
| Node.Node.SplitAndLog | src/main/java/top/guoziyang/mydb/backend/im/Node.java:258-277 | After an insert: no split below 64 keys; at 64 keys the split succeeds exactly when the cache has room, and a failed split (CacheFull) restores the page; a kept change is logged as one update record |
| Node.Node.BeforeInsert | src/main/java/top/guoziyang/mydb/backend/im/Node.java:251-253 | `before` saves the node's span of the page, then the key goes in exactly when the node accepts it, with one key more; a refusal leaves the bytes as they were, and nothing outside the node changes |
| Node.Node.SplitThenLog | src/main/java/top/guoziyang/mydb/backend/im/Node.java:258-277 | A node of 64 keys is split, successfully exactly when the cache has room. A failed split (CacheFull) leaves the page as before the insert. A split that works leaves the right half readable at the new son's uid, with its first key as the new key, and the update record logged |
| Node.Node.LogUpdate | src/main/java/top/guoziyang/mydb/backend/im/Node.java:272-273 | The data item's update record under the super transaction is appended to the log |
| Node.Node.SplitOrUndo | src/main/java/top/guoziyang/mydb/backend/im/Node.java:259-267 | The split succeeds exactly when the cache has room. One that fails (CacheFull) leaves the page as before the insert; one that succeeds splits the node |
| Node.Node.Reject | src/main/java/top/guoziyang/mydb/backend/im/Node.java:254-257 | A refused insert hands back the sibling and the page as it was |
| Node.Node.Undo | src/main/java/top/guoziyang/mydb/backend/im/Node.java:274-276 | The page goes back to what it was before the edit |
| Node.CollectedSons | src/main/java/top/guoziyang/mydb/backend/im/Node.java:216-225 | Sons collected one by one from slot a to b are the sons of that slice |

## Left out

- **File I/O.** Every file is a byte sequence, or a sequence of pages, held in a field. `force`, file positions and I/O failures (`Panic.panic`) are not modelled. Reads past the end of a file give zeros; writes past the end extend the file with zeros.
- **Concurrency.** Every `ReentrantLock`, read-write lock and `AtomicInteger` is erased, and the operations run one at a time.
  - The sleep-and-retry in `AbstractCache.get`, for a key another caller is loading, is `Err(Busy)` with nothing changed.
  - The blocking `l.lock()` in `VersionManagerImpl.delete` is the `MustWait` step, followed by `ResumeDelete`.
- **Classes outside this model:** `Parser`, `Types`, `PageX`, `BPlusTree`, `RandomUtil` and the `Logger` interface.
  - The assumptions made about `Parser` and `PageX` are stated above.
  - `Types.addressToUid` is assumed to be `pgno * 2^32 + offset`, for a page number below 2^31 and an offset below 2^15. That is the reading under which `getForCache` decodes every uid back to its page number and offset.
  - The `BPlusTree` that owns a node is reached only through its data manager.
- **Factory and orchestration code.** This covers `create`/`open` of the page cache, the transaction manager and the data manager, and `DataManagerImpl.close`, `initPageOne` and `loadCheckPageOne`. The initial states come from the constructors instead.
- **Loading and releasing cached objects.** This covers `Node.loadNode`/`release`, `Entry.loadEntry`/`release`/`remove`, `DataManagerImpl.releaseDataItem` and the data item cache of the data manager. A node or entry is built over a data item that is already loaded. The version manager receives entries as values, not from its entry cache.
- **`DataManagerImpl.read`.** It is the function `DataManager.ItemAt` over the pages, with no data item cache in between. `logDataItem` is `DataItemImpl.After` writing straight to the logger.
- **Recover undo order.** The undo pass walks the active transactions in `HashMap` order, which Java leaves unspecified. The model takes that order as an arbitrary ghost sequence of the active xids.
- **`Node.toString`** and all console output.
- Cache.AbstractCache.Close: does not reset `count`, because the Java `close` does not either. Java's `ConcurrentModificationException` from removing entries while iterating is not modelled; the model evicts every entry, as intended.
- LockTable.LockTable.Add: requires `xid !in waitU`, so the caller must not be blocked on another lock. A transaction that is waiting never calls `add` again.
- Node.Node.InsertAndSplit: requires at most 63 keys before the insert. A node reaches 64 keys only in the moment before it splits, so it never holds 64 when an insert starts.
- Node.Node.Insert: requires at most 64 keys. The inner-node case writes slot `kth + 1`, which must be one of the 66 slots. It also requires a key count between 0 and 66 (`NodeLayout.CountFits`), which every node the model builds has; a node whose count field holds another value is not modelled.
- DataManager.DataManagerImpl.Insert: never raises `DatabaseBusy`. The page allocated after a failed `select` has all of its data area free, so the next `select` finds it. That `select` is the corrected `SelectWithRoom`.
- DataManager.DataManagerImpl.Insert: requires fewer than 2^31 - 1 pages, which keeps page numbers in Java's int range. The requirement is in line with the overflow finding below.

## Findings

| source | as written | input that shows it | evidently intended | confidence | as-written member | corrected member |
|---|---|---|---|---|---|---|
| src/main/java/top/guoziyang/mydb/backend/dm/pageCache/PageCacheImpl.java:171-174 | `(pgno-1) * PAGE_SIZE` is computed in 32-bit int and wraps | page 262145, which starts at byte 2^31, gets offset -2^31 | the offset computed as a long | not executed | PageCache.PageOffsetAsWritten (lemma PageCache.PageOffsetOverflows) | PageCache.PageOffset |
| src/main/java/top/guoziyang/mydb/backend/dm/pageCache/PageCacheImpl.java:53 | `(int)length / PAGE_SIZE` casts the length to int before dividing | a file of exactly 2^31 bytes counts -262144 pages | the length divided first, then cast | not executed | PageCache.PageCountAsWritten (lemma PageCache.PageCountOverflows) | PageCache.PageCount |
| src/main/java/top/guoziyang/mydb/backend/dm/pageIndex/PageIndex.java:53-55 | a request whose bucket number is 40 starts its scan at bucket 40, which holds pages with 8160-8363 bytes free | index with page (2, 8170) only; select(8180) returns that page, which lacks the room | only pages with at least the requested room are returned | not executed | PageIndex.PageIndex.Select (lemma PageIndex.SelectLastBucketTooSmall) | PageIndex.PageIndex.SelectWithRoom |
| src/main/java/top/guoziyang/mydb/backend/dm/logger/LoggerImpl.java:203-217 | a negative size field passes the overrun check at line 204. A size of -9 or less then makes `ByteBuffer.allocate(OF_DATA + size)` throw; a size from -8 to -1 gives a buffer shorter than OF_DATA, and `Arrays.copyOfRange(log, OF_DATA, log.length)` at line 217 throws | file `00 00 00 00 FF FF FF FF 00 00 00 00 00`; the record at 4 has size -1, so the 7-byte buffer makes the copy at line 217 throw | a record that does not fit, including a negative size, is a bad tail, and reading stops there | not executed | Logger.InternNextAsWritten (lemma Logger.NegativeSizeThrows) | Logger.InternNext |
| src/main/java/top/guoziyang/mydb/backend/dm/logger/LoggerImpl.java:108-121 | `init` truncates a bad tail but leaves `fileSize` at the old length | a bad tail longer than 8 bytes; after truncation, a read at the new end sees zeros and returns an empty log whose checksum 0 matches | `fileSize` becomes the truncated length, so reading ends there | not executed | Logger.PhantomLogAfterTruncation | Logger.LoggerImpl.CheckAndRemoveTail |
