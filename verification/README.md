# Ubase storage engine: a verified model

This project models the storage stack of Ubase, a small relational database engine, and proves
how its layers behave. The modelled code is the copy under `part5/part5`; `part4/heapfile.C` is
modelled where its `insertRecord` differs.

The layers, from the disk up:

* **File pages** (`FileSpec`, `Disk`). A database file is a sequence of 4096-byte images. Page 0
  holds the head of the free list, the first page and the page count as little-endian integers;
  the free pages are chained through their own first bytes. `Disks.Disk` updates these images as
  `db.C` does.
* **Slotted page** (`PageSpec`, `PageLayout`, `Page`). `Pages.Page` is one byte array, which its
  methods change in place byte by byte. `PageLayout` says what the bytes mean: where slots and
  records lie, that records tile the record area and stay below the directory. `PageSpec` is the
  directory as a value: a sequence of slots, each free or holding a record.
* **Hash tables** (`ChainedHash`). Linked buckets searched and relinked in place, standing for a map.
  The buffer pool's table and the table of open files are both this class.
* **Buffer pool** (`PoolSpec`, `PoolFree`, `PoolRefinement`, `PoolStatus`, `PoolOrder`, `PoolRing`,
  `BufMgr`). `BufMgrs.BufMgr` has the descriptor table with its doubly linked list and sentinel, the
  hash table, the frames and the disk. Each method is proved equal to a pure operation of
  `PoolSpec`. On those operations the run theorems are proved: the pool and the disk together behave
  like a plain map from pages to bytes, and victims are taken in the intended order. `PoolFree`
  joins the pool to the free lists of the files under it, so that a run may dispose of pages and
  have them handed out again.
* **Heap file** (`HeapSpec`, `HeapLayout`, `PoolClient`, `HeapClient`, `HeapSession`,
  `Interference`, `HeapFile`, `SharedFile`, `HeapBirth`, `HeapCreate`). `HeapFiles.HeapFile` keeps two
  pages pinned in a real `BufMgr`, and its contents are read from the bytes of the file's pages, whether
  these are in frames or on disk. `HeapSpec` is the heap file as a value: the directory with the slots of
  each page. `Interference` shows that clients of other files do not disturb an open heap file, and every
  method of `HeapFile` that touches the pool says that it disturbs none and takes no frame for good.
  `SharedFile` has two objects open on one file. `LinkedInsert` has the insertion of part 4.
* **Uses of heap files** (`Queries`, `RoundTrip`, `Together`, `Join`, `JoinFiles`, `SortSpec`, `SortRun`,
  `Sort`, `PageChain`, `OpenFiles`). The loops of select, delete, load and join run on `HeapFile` objects
  that share one buffer pool, up to three open at once. `RoundTrip` creates a file, fills it and scans it.
  External sort makes its run files through the table of open files and merges any number of scans that
  are open on one pool at the same time.
* **Where promises fail** (`Counterexamples`, `SortExample`). For each promise that the code breaks, an
  input at which it does.

A few points to keep in mind while reading:

* `BufMgr.Abs()` is the value of the pool, `HeapFile.Contents()` the value of the file, `Ahead()`
  the records a scan has still to see. A method that touches the pool says what these become.
* `touched` and `owed` are the pages whose frames a client has changed and not yet announced by
  unpinning them dirty. `Coherent` says that every other clean frame equals the disk.
* `Sole()` says that no one else has a page of the file pinned. It is what makes
  `BUFFEREXCEEDED` impossible for a scan that turns pages.

Where the code breaks a promise of its own, or its comments and tests, the model follows the code:

* `startScan` on the first page leaves the cursor where it is (`part5/part5/heapfile.C:197-207`), so a
  scan started there misses the records before the cursor. `HeapSpec.RewoundIff` says exactly when
  it sees the whole file; `Counterexamples.RestartedScanMisses` is a file where it does not.
* `deleteRecord` adds one to the record count of the header (`part5/part5/heapfile.C:364`).
  `HeapFiles.HeapFile.DeleteRecord` says so, wrap-around included.
* The nested-loops join hands its operator to the inner scan with the operands exchanged
  (`part5/part5/join.C:91`). `Joins.JoinMeansOperatorIff` says for which pairs that is harmless;
  `Counterexamples.LessThanJoinsGreater` is one for which it is not.
* `disposePage` removes a page from the pool before it learns that the page may not be disposed of
  (`part5/part5/buf.C:357-370`). `PoolRefinement.RefusedDispose` and `RefusedDisposeSafeIff` say when
  bytes are lost; in `Counterexamples.RefusedDisposeLoses` they are.
* `File::disposePage` does not check that a page is in use. `FileSpec.DisposeKeepsListIff` says that
  disposing keeps a free list exactly when the page is not on it already, and
  `Counterexamples.SecondDisposeCorrupts` disposes of a page twice.
* Nothing stops a client from reading a page it has given back and writing over its link.
  `FileSpec.WriteKeepsListIff` says which writes are harmless; `Counterexamples.StaleWriteCorrupts` is
  one that is not. The run theorems of the pool ask clients not to read such pages.
* `allocPage` takes the page from the file before it looks for a frame (`part5/part5/buf.C:377-390`); when
  there is none, the page stays allocated. `PoolRefinement.ExceededLeaksPage` says so.
* The insertion of part 5 never sets `nextPage`. `PageChain.Part5KeepsLinksIff` says when the page chain
  nevertheless survives; in `Counterexamples.AddedPageUnlinked` it does not.
* The insertion of part 4 keeps the page before a new one pinned, so it needs a frame to spare.
  `LinkedInserts.InsertLinked` says exactly when it fails.
* `closeFile` ignores what `flushFile` returns. `OpenFiles.LastCloseEmptiesIff` says when pages of a closed
  file stay in the pool; in `Counterexamples.PinnedPageOutlivesClose` one does.
* Comparing integers by subtraction goes wrong when the difference overflows.
  `Comparing.IntDiffExactIff` says exactly when, with `Comparing.IntDiffWrongExample` as an instance.
* `startScans` keeps a scan open on every run, and each pins two pages (`part5/part5/sort.C:280-284`). The
  sort therefore fails when there are more runs than half the frames. `Sorts.SortedFile.constructor` says
  exactly when; `SortExamples.FiftyOneRuns` is the program's own pool of 100 frames.
* `generateRun` creates and destroys the run file to see that it did not exist, and then opens it with an
  `InsertFileScan`, which does not create it as the comment says (`part5/part5/sort.C:236-243`).
  `Sorts.SortAsWritten` follows the code as far as it is defined: with good arguments the sort succeeds
  exactly when the source has no record; otherwise it returns FILEEXISTS, or `openFile` finds no run file.
  `SortExamples.FirstRunMissing` is an instance. The status UNIXERR in both is that of `openFile`: the
  constructor of `HeapFile` drops it and goes on through a deleted object
  (`part5/part5/heapfile.C:79-83`, `part5/part5/db.C:533-537`), so what follows is undefined.

All other results about the sort are on the intention of that comment instead: where the code opens a file
that it has just destroyed, the model has `createHeapFile` make it.

## Model

| member | source | states |
|---|---|---|
| PageSpec.EmptyMeansNoRecord | part5/part5/page.C:182-184 | a trimmed directory is empty exactly when no slot is live, so `slotCnt==0` may stand for "no record" |
| PageSpec.DeleteRemovesOne | part5/part5/page.C:124-179 | after a deletion every other RID holds the record it held, and the space regained is that of the record and of the trimmed directory entries |
| PageSpec.InsertAddsOne | part5/part5/page.C:58-102 | an insertion fills the least slot number not live, changes no other slot, and costs what the page checks for |
| PageSpec.InsertThenDelete | part5/part5/page.C:58-179 | deleting the record just inserted gives back the same directory |
| PageLayout.PageFields | part5/part5/page.h:20-47 | where the bytes of a page have the slot count, the pointers, each slot and its record |
| PageLayout.RecordsTile | part5/part5/page.h:38-45 | on a well-formed page every byte below `freePtr` belongs to exactly one record, and no record reaches the directory growing down |
| PageLayout.PlacedWF | part5/part5/page.C:89-95 | writing a record at `freePtr` and its slot keeps the page well-formed and adds exactly that record |
| PageLayout.FreedPage | part5/part5/page.C:130-165 | closing the gap and rewriting offsets frees one slot and leaves every other record with the same bytes |
| PageLayout.CutWF | part5/part5/page.C:166-176 | dropping the free slots at the end of the directory gives a well-formed page with the trimmed directory |
| PageLayout.OverwrittenWF | part5/part5/page.C:106-118 | overwriting the front of a record changes that record only |
| Pages.Page.Init | part5/part5/page.C:9-16 | an initialised page has no slots, whatever bytes the frame held |
| Pages.Page.SetNextPage | part5/part5/page.C:37-41 | the forward link is set and the slots stay as they were |
| Pages.Page.FindSlot | part5/part5/page.C:62-71 | the search stops at the least slot number that is not live |
| Pages.Page.InsertRecord | part5/part5/page.C:58-102 | NOSPACE exactly when the record, and a new slot if one is needed, exceed what live records leave over; otherwise the page has the record at the least free slot |
| Pages.Page.UpdateRecord | part5/part5/page.C:106-118 | overwrites the front of a live record in place; INVALIDSLOTNO otherwise |
| Pages.Page.RewriteOffsets | part5/part5/page.C:156-158 | exactly the offsets beyond the deleted record move down by its length |
| Pages.Page.TrimDirectory | part5/part5/page.C:166-176 | the do-while loop leaves the directory without its free tail |
| Pages.Page.DeleteRecord | part5/part5/page.C:124-179 | OK exactly for a live slot; the page then is the old one without that record, trimmed; otherwise nothing changes |
| Pages.Page.FirstRecord | part5/part5/page.C:182-193 | the least live slot, or NORECORDS exactly when there is none |
| Pages.Page.NextRecord | part5/part5/page.C:197-207 | the least live slot after the given one, or ENDOFPAGE exactly when there is none |
| Pages.Page.GetRecord | part5/part5/page.C:212-219 | the bytes of a live record; INVALIDSLOTNO for a free slot |
| FileSpec.AllocatePops | part5/part5/db.C:238-285 | allocating takes the head of the free list, or extends the file exactly when the list is empty |
| FileSpec.DisposePushes | part5/part5/db.C:292-330 | disposing of a page in use puts it at the head of the free list |
| FileSpec.ChainUnique | part5/part5/db.C:249-258 | a file has at most one free list |
| FileSpec.FreeListSafety | part5/part5/db.C:238-330 | over every run the chain on disk is finite, acyclic and ends at -1, free and held pages partition the file, reuse is last-in first-out, and a held page keeps its bytes |
| FileSpec.DoubleDisposeCorrupts | part5/part5/db.C:292-323 | disposing of a page on the free list leaves the file without any free list |
| FileSpec.DisposeKeepsListIff | part5/part5/db.C:292-323 | disposing keeps a free list exactly when the page is not on it |
| FileSpec.WriteKeepsListIff | part5/part5/db.C:254-258 | writing a page keeps the free list exactly when the page is not on it or keeps its link |
| Disks.EmptyFile | part5/part5/db.C:166-177 | a new file has an empty free list and no pages |
| FileSpec.HeaderFields | part5/part5/db.h:119-123 | where the header page of a file has the free list, the first page and the page count |
| FileSpec.AllocatedBytes | part5/part5/db.C:238-285 | the header fields that allocatePage changes, to what, and that a page extending the file consists of zeros |
| FileSpec.DisposedBytes | part5/part5/db.C:292-330 | the bytes of the page given back and of the header after disposePage |
| Disks.Disk.GetFirstPage | part5/part5/db.C:414-425 | the first page is 1 as soon as the file has any page, -1 before |
| Disks.Disk.AllocatePage | part5/part5/db.C:238-285 | the images after allocatePage, and the page number it returns |
| Disks.Disk.DisposePage | part5/part5/db.C:292-330 | the images after disposePage, and which page numbers it refuses |
| ChainedHash.HashTable.Lookup | part5/part5/bufHash.C:81-94 | the bucket walk finds a key exactly when the table holds it, and returns its value |
| ChainedHash.HashTable.Insert | part5/part5/bufHash.C:51-74 | a new key is added and no other entry changes; HASHTBLERROR exactly for a key that is there |
| ChainedHash.HashTable.Remove | part5/part5/bufHash.C:102-123 | the key is gone and no other entry changes; HASHTBLERROR exactly for a key that is not there |
| PoolSpec.InvRead | part5/part5/buf.C:188-245 | readPage keeps frame table, list and hash table in agreement |
| PoolSpec.InvUnPin | part5/part5/buf.C:248-299 | unPinPage keeps the three structures in agreement |
| PoolSpec.InvDispose | part5/part5/buf.C:340-371 | disposePage keeps the three structures in agreement |
| PoolSpec.InvAlloc | part5/part5/buf.C:374-402 | allocPage keeps the three structures in agreement, also when it finds no frame |
| PoolFree.HandsOut | part5/part5/db.C:249-268 | with sound free lists a file that is not full hands out a page that no frame holds, the one given back last if there is one |
| PoolFree.DisposeFree | part5/part5/buf.C:340-371 | disposing through the pool pushes the page on its file's free list, and no frame holds a free page |
| PoolFree.AllocFree | part5/part5/buf.C:374-402 | allocating through the pool, with any eviction, pops the list, and no frame holds a free page |
| PoolRefinement.RunKeepsInv | part5/part5/buf.C:128-402 | over every run of clients that read no page they gave back, whatever else they do, the list holds exactly the unpinned frames once each, the hash table maps a page to a frame exactly when the frame holds it, and every file keeps its free list |
| PoolRefinement.AllocAfterRun | part5/part5/buf.C:374-402 | after any such run allocPage hands out the page given back last or extends the file, fails exactly when every frame is pinned, and never finds the page in the hash table |
| PoolRefinement.ExceededLeaksPage | part5/part5/buf.C:377-383 | when no frame is left the page has been allocated, is on no free list and in no frame |
| PoolRefinement.ExceededIff | part5/part5/buf.C:133 | BUFFEREXCEEDED exactly when the page is not resident and every frame is pinned |
| PoolStatuses.ReadStatusIff | part5/part5/buf.C:188-245 | every status of readPage, said of the frames: which page is held and which frames are pinned |
| PoolStatuses.UnPinStatusIff | part5/part5/buf.C:254-258 | HASHNOTFOUND exactly when no frame holds the page, PAGENOTPINNED exactly when its frame has no pin, OK exactly when it has |
| PoolStatuses.FlushStatusIff | part5/part5/buf.C:302-337 | PAGEPINNED exactly when a frame holds a pinned page of the file, OK otherwise |
| PoolStatuses.DisposeStatusIff | part5/part5/buf.C:340-371 | HASHNOTFOUND exactly when no frame holds the page, PAGEPINNED exactly when its frame is pinned, BADPAGENO exactly for an unpinned first page |
| PoolStatuses.AllocStatusIff | part5/part5/buf.C:374-402 | BUFFEREXCEEDED exactly when every frame is pinned, HASHTBLERROR exactly when another frame than the victim holds the page handed out |
| PoolStatuses.ReadResident | part5/part5/buf.C:217-233 | reading a resident page adds one pin and changes nothing else |
| PoolStatuses.ReadAbsent | part5/part5/buf.C:196-213 | any other page goes into the victim's frame, pinned once and clean, with the bytes on disk; the victim is written back exactly when it was dirty, and all other frames stay |
| PoolStatuses.ReadFailed | part5/part5/buf.C:196-207 | a read that fails leaves everything as it was, or, for a page that is not there, has emptied the victim's frame, which stays the next victim |
| PoolStatuses.UnPinFrames | part5/part5/buf.C:259-295 | one pin less, dirty if it was or the caller says so, and with the last pin the frame goes to the front or the rear |
| PoolStatuses.FlushFrames | part5/part5/buf.C:302-337 | a flush clears exactly the frames of the file before the first pinned one, and writes no page that was not dirty |
| PoolStatuses.DisposeFrames | part5/part5/buf.C:340-371 | the frame is cleared and keeps its place on the list; the file is changed unless it refuses |
| PoolStatuses.AllocFrames | part5/part5/buf.C:374-402 | the new page goes into the victim's frame, pinned once and clean, with the bytes the frame held |
| PoolRefinement.EvictionLosesNothingIff | part5/part5/buf.C:128-173 | an eviction preserves what clients see exactly when the victim is dirty or equals the disk |
| PoolRefinement.ReadViews | part5/part5/buf.C:188-245 | readPage, with any eviction, changes no page of any file and returns the bytes clients last saw |
| PoolRefinement.UnPinViews | part5/part5/buf.C:248-299 | unpinning keeps every clean frame equal to the disk when changes are announced |
| PoolRefinement.AllocViews | part5/part5/buf.C:374-402 | allocPage changes no page but the one handed out, which holds stale bytes its client owes a dirty unpin for |
| PoolRefinement.DisposeViews | part5/part5/buf.C:340-371 | disposing changes no other page |
| PoolRefinement.RefusedDispose | part5/part5/buf.C:340-371 | BADPAGENO exactly for a resident unpinned first page, which then reads as on disk; a failing call changes nothing unless the page is resident, unpinned and its frame dirty |
| PoolRefinement.RefusedDisposeSafeIff | part5/part5/buf.C:357-370 | disposing of the first page is harmless, whatever its frame holds, exactly when the frame is not dirty |
| PoolRefinement.FlushEmpties | part5/part5/buf.C:302-337 | flushFile succeeds exactly when the file has no pinned page, and then no frame refers to the file |
| PoolRefinement.FlushMakesDurable | part5/part5/buf.C:302-337 | after flushFile every page of the file is on disk as clients saw it |
| PoolRefinement.CacheRefinement | part5/part5/buf.C:128-402 | over every run of obedient clients, disposals and reallocations included, pool plus disk behaves as a plain map from pages to bytes, and the free lists stay sound |
| PoolRefinement.ReadReturnsLastWritten | part5/part5/buf.C:188-245 | after any such run readPage returns the bytes last written to the page |
| PoolOrder.RunKeepsOrder | part5/part5/buf.C:133-145 | over every run the unpinned list stays in the intended replacement order |
| PoolOrder.VictimIsFirst | part5/part5/buf.C:263-290 | the next victim is an unloved frame, the latest first; else a never-used one, by number; else the loved one unpinned longest ago |
| PoolOrder.NewPoolOrdered | part5/part5/buf.C:35-54 | a new pool starts in that order |
| PoolRing.RingUnlinked | part5/part5/buf.C:223-226 | unlinking a frame leaves a circular doubly linked list of the others |
| PoolRing.RingRear | part5/part5/buf.C:178-182 | relinking at the rear gives a circular doubly linked list that starts with the frame |
| PoolRing.RingFront | part5/part5/buf.C:267-272 | relinking before the sentinel gives a circular doubly linked list that ends with the frame |
| PoolRing.EmptyShowsDisk | part5/part5/buf.C:22-58 | a new pool owes nothing, shows every page as on disk and holds no free page |
| BufMgrs.BufMgr.constructor | part5/part5/buf.C:22-58 | the new pool is empty, with all frames on the list in order of their numbers |
| BufMgrs.BufMgr.AllocBuf | part5/part5/buf.C:128-173 | takes the rear frame, written back if dirty and removed from the hash table; BUFFEREXCEEDED exactly when the list is empty |
| BufMgrs.BufMgr.ReleaseBuf | part5/part5/buf.C:176-186 | the frame goes back to the rear of the list |
| BufMgrs.BufMgr.ReadPage | part5/part5/buf.C:188-245 | status and new pool are those of the specified read, on hits, misses and failed reads |
| BufMgrs.BufMgr.UnPinPage | part5/part5/buf.C:248-299 | status and new pool are those of the specified unpin, for both re-insertion policies |
| BufMgrs.BufMgr.FlushFile | part5/part5/buf.C:302-337 | status and new pool are those of the specified flush, also when it stops at a pinned page |
| BufMgrs.BufMgr.DisposePage | part5/part5/buf.C:340-371 | status and new pool are those of the specified dispose |
| BufMgrs.BufMgr.AllocPage | part5/part5/buf.C:374-402 | status and new pool are those of the specified allocation |
| Comparing.IntDiffExactIff | part5/part5/heapfile.C:409-414 | the sign of the wrapped difference is right exactly when the difference fits in 32 bits; equality is always right |
| Comparing.IntDiffWrongExample | part5/part5/sort.C:26-28 | a pair of integers that is ordered the wrong way round |
| Comparing.RecCmpOrder | part5/part5/sort.C:20-53 | on keys whose differences fit, reccmp is antisymmetric and transitive |
| Comparing.ParmsAccepted | part5/part5/heapfile.C:214-221 | the offsets, lengths and types that startScan accepts, and the values that it can read |
| Comparing.TooShort | part5/part5/heapfile.C:398-404 | a record that ends before the attribute does never matches; without a filter every record matches |
| Comparing.MatchesInteger | part5/part5/heapfile.C:409-441 | what each of the six operators selects among integers: what it means when the difference fits in 32 bits, and the opposite order when it does not |
| Comparing.MatchesFloat | part5/part5/heapfile.C:416-441 | each of the six operators selects among floats what it means |
| Comparing.StrNCmpLexicographic | part5/part5/heapfile.C:424-428 | strncmp is the lexicographic order of the strings up to their first zero bytes |
| Comparing.MatchesString | part5/part5/heapfile.C:424-441 | each of the six operators selects among strings what it means in that order |
| HeapSpec.ScanStep | part5/part5/heapfile.C:289-331 | one step of a scan takes the next live slot of the page or goes on with the next page |
| HeapSpec.DeleteAtCursor | part5/part5/heapfile.C:352-368 | deleting the record under the cursor removes its entry and leaves what is ahead as it was |
| HeapSpec.DeleteKeepsInv | part5/part5/heapfile.C:352-368 | a deletion keeps the heap file sound, and every directory entry as it was: the space regained is not offered |
| HeapSpec.InsertFits | part5/part5/heapfile.C:471-503 | directory entries never promise more than the page has, so a record of at most 4076 bytes always fits where it is put, and the directory keeps that property |
| HeapSpec.TargetIsFirst | part5/part5/heapfile.C:471-500 | the page chosen is the first one from the current page on whose entry promises the room |
| HeapSpec.InsertGains | part5/part5/heapfile.C:467-509 | an insertion adds exactly one entry and leaves all others in their places and order |
| HeapSpec.InsertAppends | part5/part5/heapfile.C:467-509 | into a file without holes, from its last page, the record comes last in scan order |
| HeapSpec.InsertAllGains | part5/part5/heapfile.C:467-515 | any number of insertions from any page of any file add exactly the inserted records |
| HeapSpec.InsertAllAppends | part5/part5/heapfile.C:467-515 | a file without holes filled from its last page scans back what it held and then the inserted records in order |
| HeapSpec.UniformPages | part5/part5/heapfile.C:471-503 | n records of one length take max(1, ceil(n / floor(4080 / (length + 4)))) pages |
| HeapSpec.FreshFill | part5/part5/heapfile.C:467-515 | both of the above for a fresh file and any number of records |
| HeapSpec.RewoundIff | part5/part5/heapfile.C:197-207 | a scan started on the first page sees the whole file exactly when no record lies before its cursor |
| HeapSpec.EntryRecord | part5/part5/heapfile.C:151-159 | the RID that a scan returned names a live slot, and the record there is the one that the scan saw |
| HeapLayout.EditPage | part5/part5/heapfile.h:25-39 | changing the bytes of one listed page and its directory entry changes exactly that page of the heap file |
| HeapLayout.AddPage | part5/part5/heapfile.C:481-484 | entering a new page in the header bytes appends exactly that page to the heap file |
| HeapLayout.HeaderFormat | part5/part5/heapfile.h:25-39 | where the header page of a heap file has the record count, the page count and each directory entry |
| HeapLayout.MostEntries | part5/part5/heapfile.h:30 | a heap file holds far fewer records than its 32-bit count can tell apart |
| HeapClient.Turn | part5/part5/heapfile.C:295-302 | unpinning the current page and reading another changes no page of any file |
| HeapClient.TurnAlone | part5/part5/heapfile.C:295-299 | when no one else has pages of the file pinned there is always a frame for the next page |
| HeapClient.AllocTurn | part5/part5/heapfile.C:473-479 | the same for a page newly allocated |
| HeapSession.OpensIff | part5/part5/heapfile.C:86-97 | a heap file that nobody has open can be opened exactly when two frames are left, and takes them |
| HeapFiles.HeapFile.constructor | part5/part5/heapfile.C:68-105 | the status is exact; when it is OK the object shows the file as it was, stands on its first page before the first record, owes nothing, and a sole user has taken two frames |
| HeapFiles.HeapFile.StartScan | part5/part5/heapfile.C:183-230 | BADSCANPARM exactly for bad parameters; the first page becomes current, and the cursor is reset exactly when another page was |
| HeapFiles.HeapFile.ScanNext | part5/part5/heapfile.C:279-340 | the first entry ahead that satisfies the filter, or FILEEOF exactly when there is none; the file does not change, and a sole user never gets BUFFEREXCEEDED |
| HeapFiles.HeapFile.GetRecord | part5/part5/heapfile.C:346-349 | the record under the cursor, or INVALIDSLOTNO when it has been deleted |
| HeapFiles.HeapFile.GetRecordAt | part5/part5/heapfile.C:151-175 | an arbitrary record, with the page turned when it is another: the record of that RID, INVALIDSLOTNO exactly when there is none, BUFFEREXCEEDED exactly when the page cannot be read; no page changes |
| SharedFiles.OpenTwin | part5/part5/sort.C:245-247 | a second object on a file that is being scanned needs one frame more at most, and the scan stands where it stood |
| SharedFiles.FetchTwin | part5/part5/sort.C:254-259 | fetching any record through the second object always succeeds with one frame to spare, and disturbs neither the scan nor any other file |
| SharedFiles.CloseTwin | part5/part5/sort.C:264 | closing the second object leaves the first with all it had |
| HeapFiles.HeapFile.DeleteRecord | part5/part5/heapfile.C:352-368 | the file loses exactly the record under the cursor, the scan keeps what is ahead, the three statuses are exact; the record count goes up by one, so that a right one becomes wrong |
| HeapFiles.HeapFile.InsertRecord | part5/part5/heapfile.C:467-515 | file, position and file size become those of the specified insertion, the cursor is on the new record, the status is OK, a right record count stays right, and no client of another file is disturbed |
| HeapFiles.HeapFile.GetRecCnt | part5/part5/heapfile.C:141-144 | the record count of the header page, which is the number of records as long as it is right |
| HeapFiles.HeapFile.Close | part5/part5/heapfile.C:109-131 | every change has been announced to the pool, no page changes, and a sole user leaves no page pinned |
| Interference.RunElsewhere | part5/part5/buf.C:128-402 | whatever obedient clients do with other files, with any evictions, an open heap file keeps its pinned frames and all its bytes, and stays alone if it was |
| HeapFiles.HeapFile.OthersRan | part5/part5/heapfile.C:279-340 | after any such run a scan stands where it stood and has ahead what it had ahead |
| Interference.StepLeaves | part5/part5/buf.C:128-402 | a polite call on one file leaves every other file, open or closed, as its clients have it |
| HeapFiles.HeapFile.Undisturbed | part5/part5/heapfile.C:279-340 | whatever is done through an object for another file, a scan and an insertion scan stand where they stood |
| Queries.Select | part5/part5/select.C:103-120 | repeated scanNext returns every matching record ahead exactly once, in directory and slot order, and then FILEEOF |
| Queries.DeleteMatching | part5/part5/delete.C:51-57 | deleting during a scan visits each matching record exactly once and leaves exactly the others, as they were and in their places |
| Queries.Load | part5/part5/load.C:51-61 | from whatever page the insertion scan stands on, the file becomes the one that the insertions make and gains exactly the loaded records; they are appended to a file without holes loaded from its last page |
| Queries.LoadFile | part5/part5/load.C:51-66 | the same for a file opened and closed; the unix file has exactly the pages that were added, a right record count stays right, all frames are given back and no other file changes |
| Queries.LoadThenScan | part3/testfile.C:69-123 | a fresh file filled, closed, opened again and scanned returns exactly the inserted byte strings in insertion order, through any evictions |
| RoundTrips.CreateFillScan | part3/testfile.C:59-128 | a file created, filled and scanned returns the inserted records in order, and its size is what the insertions call for |
| RoundTrips.CreateFill | part3/testfile.C:59-95 | a file created and filled is closed, holds the inserted records in order and has their number as its record count, and no other file changes |
| RoundTrips.TestFileSize | part3/testfile.C:99 | with 10000 records of 72 bytes that file has 782336 bytes |
| Together.SelectInto | part5/part5/select.C:79-123 | with both files open on one pool, the result gains the projection of every matching record, in scan order, and the relation does not change |
| Comparing.MemCmpLexicographic | part5/part5/sort.C:39-41 | strings compare lexicographically, byte by byte |
| SortSpec.LeExactIff | part5/part5/sort.C:20-53 | reccmp orders two records by the number or string at the offset, as the attribute type means, exactly when no integer difference overflows |
| SortSpec.KeyAccepted | part5/part5/sort.C:98-107 | the offsets, lengths and types that the constructor accepts |
| SortSpec.FieldBytes | part5/part5/sort.C:162-165 | the key copied from a record consists of the bytes at the offset |
| SortSpec.SortableIff | part5/part5/sort.C:24-29 | records are sortable exactly when they have the key and no difference of two integer keys overflows |
| SortSpec.SortedInKeyOrder | part5/part5/sort.C:20-53 | sortable records in the order of reccmp are in the order that the attribute type means, read off their own bytes |
| SortSpec.LeOrder | part5/part5/sort.C:20-53 | on sortable records the comparison is a total order |
| SortSpec.QSort | part5/part5/sort.C:202-207 | the items are permuted, and sorted when the comparison is an order on them |
| SortRuns.RunNamesApart | part5/part5/sort.C:224-226 | the names of the runs differ from each other and from that of the source |
| SortRuns.RunNameIs | part5/part5/sort.C:224-226 | the names are those of the source followed by .sort. and the decimal number of the run, counted from 1 |
| SortRuns.FillBuffer | part5/part5/sort.C:148-165 | the buffer gets the keys and RIDs of the next records of the source, all that are left or as many as it holds |
| SortRuns.GenerateRun | part5/part5/sort.C:194-266 | FILEEXISTS exactly when the name is taken; otherwise the run file holds exactly the records of the batch, in key order when the keys of the source are comparable, is closed, and the scan of the source stands where it stood |
| SortRuns.SplitSource | part5/part5/sort.C:147-175 | FILEEXISTS exactly when the name of a run is taken; otherwise every record of the source is in exactly one of ceil(n / maxItems) run files, which all stay as they were written |
| SortRuns.MakeRuns | part5/part5/sort.C:129-179 | the same with the source opened and closed, and as many frames left as before |
| SortRuns.SmallRunsFit | part5/part5/sort.C:255-261 | batches of at most 502 records fit in their run files, whatever the records |
| SortRuns.UniformRunsFit | part5/part5/sort.C:255-261 | records of one length fit whenever a full batch takes fewer than 504 pages |
| Sorts.StartScans | part5/part5/sort.C:275-292 | any number of run files are opened together exactly when there are twice as many frames, and each scan has its whole run ahead; otherwise no frame is left |
| Sorts.SortedFile.constructor | part5/part5/sort.C:91-122 | the status is exact: BADSORTPARM, INSUFMEM, FILEEXISTS for a run name that is taken, BUFFEREXCEEDED when the runs need more frames than there are; on OK the open runs hold exactly the records of the source, in key order when keys are comparable; the frames left are exact too: two fewer after FILEEXISTS, none after BUFFEREXCEEDED |
| Sorts.SortedFile.Next | part5/part5/sort.C:300-355 | returns one of the records left, the least when keys are comparable, and takes it away; FILEEOF exactly when none is left; it never fails, however many scans share the pool |
| Sorts.SortThenDrain | part5/part5/sort.C:91-355 | on one pool, with all run files created, filled, closed, opened and scanned in it: whenever the status is OK, calling next until FILEEOF yields a permutation of the source, in the order of its keys when no difference of integer keys overflows |
| OpenFiles.DB.OpenTested | part5/part5/sort.C:236-243 | creating a file under a free name, destroying it and opening it returns UNIXERR and changes nothing |
| Sorts.SortAsWritten | part5/part5/sort.C:91-243 | as the code is written, the status is OK exactly for good arguments and a source without records; FILEEXISTS for any other source whose first run name is taken; else UNIXERR from opening the run file, where the code's defined behaviour ends |
| SortExamples.FiftyOneRuns | part5/part5/sort.C:280-284 | a file of up to 502 records sorted two at a time over 100 frames: sorted when it has at most 100 records, BUFFEREXCEEDED when it has more |
| SortExamples.FirstRunMissing | part5/part5/sort.C:236-243 | the same file sorted as the code is written: its first run cannot be opened, whatever the number of records |
| Joins.FillData | part5/part5/join.C:112-119 | the buffer ends up holding the bytes of each projected attribute, in order |
| Joins.ProjectCopies | part5/part5/join.C:112-119 | each attribute of the result record has the bytes of its relation at its offset, after those of the attributes before it |
| Joins.EqualKeysJoin | part5/part5/join.C:91-96 | with = a pair joins exactly when the attributes are equal, overflow or not |
| Joins.JoinsIntegers | part5/part5/join.C:91-96 | which pairs of integers join under each of the six operators, overflow included |
| Joins.JoinsFloats | part5/part5/join.C:91-96 | which pairs of floats join under each of the six operators |
| Joins.JoinMeansOperatorIff | part5/part5/join.C:91-96 | a pair is joined as "outer op inner" means exactly for = and <>, for equal attributes, or when their difference overflows |
| JoinsOnFiles.NestedLoops | part5/part5/join.C:76-133 | with three files on one pool, the inner one opened anew for each outer record, the result gains exactly the projections of all joining pairs with multiplicity, and a result file without holes gains them at its end in outer-major order |
| OpenFiles.CountsAreBalances | part5/part5/db.C:511-567 | over any run a name is in the table exactly while opened more often than closed, and its open count is the difference |
| OpenFiles.LastCloseDurable | part5/part5/db.C:212-231 | when the last close finds no page pinned, every page is on disk as clients saw it and nothing in the pool refers to the file |
| OpenFiles.LastCloseEmptiesIff | part5/part5/db.C:221-224 | the last close empties the pool of the file exactly when no page of it was pinned |
| OpenFiles.DB.OpenFile | part5/part5/db.C:511-543 | statuses are exact, and the open counts change by one open of that name |
| OpenFiles.DB.CloseFile | part5/part5/db.C:549-567 | the open counts change by one close of that name, and the last close flushes |
| OpenFiles.DB.CreateFile | part5/part5/db.C:477-488 | statuses are exact; the new file holds just its header page |
| OpenFiles.DB.DestroyFile | part5/part5/db.C:493-504 | statuses are exact; an open file is never destroyed |
| OpenFiles.DB.TestName | part5/part5/sort.C:236-239 | FILEEXISTS exactly for a name that is taken; otherwise nothing is left of the file created and destroyed |
| OpenFiles.ListsCreated | part5/part5/db.C:159-184 | a new file has no free page, and all files keep their free lists |
| HeapCreation.CreateHeapFile | part5/part5/heapfile.C:4-64 | statuses are exact; the new file is a heap file with one empty page and record count 0, three pages in all, closed and on disk; all other files are as their clients have them, and all frames are given back |
| PageChain.LinkedIffPath | part4/heapfile.C:473-495 | the links agree with the directory exactly when following them from the first page visits the directory in order and ends at -1 |
| PageChain.ChainAgreesWithDirectory | part4/heapfile.C:467-515 | after any number of successive insertion scans on a new file the page chain agrees with the directory |
| PageChain.Part5KeepsLinksIff | part5/part5/heapfile.C:475-487 | the insertion of part 5 keeps the chain exactly when it adds no page |
| PageChain.LoadSame | part4/heapfile.C:467-515 | any number of insertions of part 4 do what those of part 5 do, but for the links |
| PageChain.LoadLinks | part4/heapfile.C:467-515 | if the links agreed with the directory before them they do so afterwards |
| LinkedInserts.InsertLinked | part4/heapfile.C:467-517 | file, position and file size become those of the linked insertion; BUFFEREXCEEDED exactly when a page must be added and no frame is left; if the links agreed with the directory, following them still visits its pages in order; no client of another file is disturbed |
| LinkedInserts.LoadLinked | part4/heapfile.C:467-517 | a load on real pages, with one frame to spare: every insertion succeeds, the page chain visits the directory in order if it did so before, and the file gains exactly the loaded records |
| LinkedInserts.TurnToLinked | part4/heapfile.C:479-484 | the page before gets its link while the new page is pinned beside it, and no other page changes |
| Counterexamples.RestartedScanMisses | part5/part5/heapfile.C:197-207 | a scan of a one-record file started again after scanNext sees nothing |
| Counterexamples.LessThanJoinsGreater | part5/part5/join.C:91 | asked for outer < inner, the join pairs 2 with 1 |
| Counterexamples.SecondDisposeCorrupts | part5/part5/db.C:292-323 | page 2 disposed of twice leaves the file without a free list |
| Counterexamples.StaleWriteCorrupts | part5/part5/db.C:254-258 | zeros written to a page given back leave the file without a free list |
| Counterexamples.RefusedDisposeLoses | part5/part5/buf.C:357-370 | a dirty first page loses its changes to a disposePage that fails |
| Counterexamples.PinnedPageOutlivesClose | part5/part5/db.C:212-231 | a page pinned at the last close stays in the pool |
| Counterexamples.AddedPageUnlinked | part5/part5/heapfile.C:475-487 | a page that part 5 adds is not linked |

## Left out

- Reads and writes of unix files do not fail; in particular a failed write-back during eviction (`part5/part5/buf.C:165-166`) does not occur.
- A File object is identified by its name, so the dangling handle that a last close with pinned pages leaves in the pool is a name here.
- PoolSpec.InvAlloc: asks that the link of the first free page be in range, as it is in every run of PoolRefinement.AllocAfterRun; behind a link that was overwritten the code reads a page that is not there, or hands out page 0.
- PoolRefinement.AllocViews: asks the same.
- BufMgrs.BufMgr.AllocPage: asks the same.
- HeapFiles.HeapFile.constructor: needs a file that is a heap file already. When a read fails the code prints a message and goes on, with no frame at all through a pointer that was never set; here the status is BUFFEREXCEEDED. The call of openFile is OpenFiles.DB.OpenFile.
- HeapFiles.HeapFile.GetRecordAt: asks for a slot inside the directory of a page of the file; the code reads whatever lies there.
- SharedFiles.FetchTwin: the second object only reads, as in generateRun.
- HeapFiles.HeapFile.InsertRecord: asks for records of 1 to 4076 bytes, a directory that is not full and a sole user; without them the code loops, reads past the directory or returns with its page unpinned. The flag of the current page is raised when the new page is initialised, a few statements earlier than in the code.
- LinkedInserts.InsertLinked: asks for the same; when it fails the object has lost its current page, as in the code, and only the pool is promised to be sound.
- HeapFiles.HeapFile.ScanNext: a full directory of 504 entries is excluded, because the code reads the entry after the last.
- HeapFiles.HeapFile.GetRecord: a cursor before the first record, or on a slot that was trimmed, is excluded; the code reads whatever lies there.
- HeapFiles.HeapFile.Close: does not call closeFile; OpenFiles.DB.CloseFile models that call.
- HeapFiles.HeapFile.OthersRan: the calls are those of a pool client; for calls made through another HeapFile object there is HeapFiles.HeapFile.Undisturbed, and for two objects on one file SharedFiles.
- Pages.Page.InsertRecord: asks for at least one byte; a record of no bytes cannot be told from others at the same offset by the test of `part5/part5/page.C:130`.
- Pages.Page.GetRecord: asks for a slot number inside the directory; the code reads whatever lies there.
- Pages.Page.UpdateRecord: asks for no more bytes than the record has; the code does not check.
- Sorts.SortedFile.constructor: for good arguments asks for a source that nobody has open, with every record long enough for the key and fewer than 504 pages; for five frames unless the source is empty, since the source, the run file and the second object on the source may need as many at once (four are enough for a source of one data page); and for batches that fit in a run file, as SortRuns.SmallRunsFit and SortRuns.UniformRunsFit grant. Positions marked with setMark and the destructor are not modelled.
- SortExamples.FirstRunMissing: the status UNIXERR stands for the same.
- SortExamples.FiftyOneRuns: the status BUFFEREXCEEDED stands for undefined behaviour, since the open that fails finds no frame at all and the code goes on through a pointer that was never set; so it is for Sorts.StartScans when the number of frames is even.
- SortRuns.GenerateRun: has createHeapFile make the run file, as the comment at `part5/part5/sort.C:241` intends; Sorts.SortAsWritten does without. The names of run files lack the NUL that the code puts at their end.
- Sorts.SortThenDrain: asks for the same as the constructor.
- Sorts.SortAsWritten: the status UNIXERR stands for undefined behaviour, which begins when the constructor of HeapFile goes on after openFile has failed. Asks for two frames, which the scan of the source takes; HeapSession.OpensIff says what happens without them.
- JoinsOnFiles.NestedLoops: numeric attributes of two different relations and a result file of its own; string attributes overflow a one-byte buffer in the code. Opening the inner relation leaves out its call of openFile.
- Queries.Select: collects the records; Together.SelectInto is the loop that inserts their projections.
- Queries.Load: takes the records as a sequence instead of reading them from a unix file.
- SortSpec.QSort: an insertion sort stands in for the library routine; callers know only its contract.
- OpenFiles.DB.DestroyFile: asks that no frame hold a page of a closed file, as none does when its last close found no page pinned; otherwise the code leaves frames of a file that is gone.
- Hash functions are arbitrary; buckets are found by the remainder of the hash.
- Floating-point numbers are reals given by an arbitrary function of the four bytes; NaN is excluded.
- Mark and reset of scans, HeapFile::getRecord on a scan object, HeapFileScan::updateRecord, and Page::getNextPage.
- The BADBUFFER branches of the buffer manager, which no reachable state takes, as the invariant shows.
- The catalogs, the parser and interpreter, printing and help, partitioning, and the joins that the repository leaves as stubs.
- The first 50 bytes of the header page, which hold a file name nobody reads.
