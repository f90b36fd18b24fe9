/** The heap file of heapfile.C over the buffer manager. */
module HeapFiles {
  import opened Bytes
  import opened StatusCodes
  import opened PageSpec
  import opened PageLayout
  import opened Pages
  import opened FileSpec
  import opened Disks
  import opened PoolSpec
  import opened PoolFree
  import opened PoolRefinement
  import opened PoolClient
  import opened BufMgrs
  import opened HeapSpec
  import opened HeapLayout
  import opened HeapClient
  import opened HeapSession
  import opened Interference
  import opened Comparing
  import ChainedHash

  /** The frame that holds page k. */
  ghost predicate FrameHolds(bm: BufMgr, k: Key, page: Page)
    requires bm.Wired()
    reads bm, bm.bufTable, bm.hashTable, bm.hashTable.ht, bm.hashTable.Repr, bm.disk, bm.mems
  {
    k in bm.Abs().index && 0 <= bm.Abs().index[k] < |bm.bufPool| && page == bm.bufPool[bm.Abs().index[k]]
  }

  /** The header page of a heap file is the first page of the database file. */
  method FirstPageOf(bm: BufMgr, f: FileRef, ghost owed: set<Key>) returns (headerPageNo: int)
    requires bm.Valid() && IsHeapFile(bm.Abs(), f, owed)
    ensures headerPageNo == HEADER
  {
    hide ChainedHash.HashTable.Valid, BufMgr.Wired, Inv, IsHeapFile, AfterRead, ReadStatus, IntAt;
    OpeningHeader(bm.Abs(), f, owed);
    FirstIs(bm.Abs(), f, owed);
    FileFacts(bm.Abs(), f);
    var status;
    status, headerPageNo := bm.disk.GetFirstPage(f);
  }

  /** The first of the two reads of the constructor: the header page, and what it names. */
  method ReadHeader(bm: BufMgr, f: FileRef, ghost owed: set<Key>) returns (status: Status, header: Page, n: int)
    requires bm.Valid() && IsHeapFile(bm.Abs(), f, owed)
    modifies bm, bm.bufTable, bm.hashTable, bm.hashTable.ht, bm.hashTable.Repr, bm.disk, bm.mems
    ensures fresh(bm.hashTable.Repr - old(bm.hashTable.Repr)) && bm.Valid()
    ensures status == ReadStatus(old(bm.Abs()), Key(f, HEADER)) && bm.Abs() == HeaderRead(old(bm.Abs()), f)
    ensures status == OK ==> n == old(FirstNo(bm.Abs(), f, owed)) && FrameHolds(bm, Key(f, HEADER), header)
  {
    hide ChainedHash.HashTable.Valid, Inv, Anchored, BufMgr.Wired, BufMgr.Abs, ViewOf, IsHeapFile, FirstNo, AfterRead;
    hide ReadStatus;
    OpeningHeader(bm.Abs(), f, owed);
    var headerPageNo := FirstPageOf(bm, f, owed);
    var index;
    status, index := bm.ReadPage(f, headerPageNo);
    if status != OK {
      header := new Page();
      return status, header, 0;
    }
    bm.FrameOfPage(Key(f, HEADER));
    header := bm.bufPool[index];
    n := header.Int(PAGES);
  }

  /** The two reads of the constructor, as far as they find frames. */
  method ReadBoth(bm: BufMgr, f: FileRef, ghost owed: set<Key>)
    returns (status: Status, header: Page, n: int, first: Page)
    requires bm.Valid() && IsHeapFile(bm.Abs(), f, owed)
    modifies bm, bm.bufTable, bm.hashTable, bm.hashTable.ht, bm.hashTable.Repr, bm.disk, bm.mems
    ensures fresh(bm.hashTable.Repr - old(bm.hashTable.Repr)) && bm.Valid()
    ensures status == old(OpenStatus(bm.Abs(), f, owed))
    ensures status == OK ==> n == old(FirstNo(bm.Abs(), f, owed)) && bm.Abs() == BothRead(old(bm.Abs()), f, n)
    ensures status == OK ==> FrameHolds(bm, Key(f, HEADER), header) && FrameHolds(bm, Key(f, n), first)
    ensures status != OK && old(Closed(bm.Abs(), f)) ==> bm.Abs().upl == []
  {
    hide ChainedHash.HashTable.Valid, Inv, Anchored, BufMgr.Wired, BufMgr.Abs, ViewOf, IsHeapFile, FirstNo, AfterRead;
    hide ReadStatus;
    ghost var p := bm.Abs();
    OpeningHeader(p, f, owed);
    if OpenStatus(p, f, owed) != OK && Closed(p, f) {
      OpenFails(p, f, owed);
    }
    status, header, n := ReadHeader(bm, f, owed);
    first := header;
    if status != OK {
      return;
    }
    var index;
    status, index := bm.ReadPage(f, n);
    if status == OK {
      Opening(p, f, owed);
      bm.FrameOfPage(Key(f, n));
      first := bm.bufPool[index];
    }
  }

  lemma OpeningFacts(bm: BufMgr, f: FileRef, owed: set<Key>) returns (p: Pool)
    requires bm.Valid() && IsHeapFile(bm.Abs(), f, owed)
    ensures bm.Wired() && p == bm.Abs() && Inv(p) && f in p.disk && HeapOK(ViewOf(p, f)) && HeapOf(ViewOf(p, f)) != []
    ensures OpenStatus(p, f, owed) == OK ==> var n := FirstNo(p, f, owed); var r := BothRead(p, f, n);
      && n == HeapOf(ViewOf(p, f))[0].no && Anchored(r, f, owed, false, n, false) && LeavesOthers(p, owed, r, owed, f)
      && Inv(r) && f in r.disk && |r.disk[f]| == |p.disk[f]| && ViewOf(r, f) == ViewOf(p, f)
      && (Closed(p, f) ==> Alone(r, f, n) && |r.upl| == |p.upl| - 2)
    ensures Closed(p, f) ==> OpenStatus(p, f, owed) == if |p.upl| >= 2 then OK else BUFFEREXCEEDED
    ensures Openable(p, f, owed) ==> OpenStatus(p, f, owed) == OK
  {
    hide ChainedHash.HashTable.Valid, Inv, Anchored, BufMgr.Wired, BufMgr.Abs, ViewOf, BothRead, Alone, Closed;
    hide Openable, IsHeapFile, FirstNo, HeapOK, HeapOf, LeavesOthers, OpenStatus;
    p := bm.Abs();
    FirstIs(p, f, owed);
    if OpenStatus(p, f, owed) == OK {
      Opening(p, f, owed);
      OpenLeaves(p, f, owed, FirstNo(p, f, owed));
    }
    if Closed(p, f) {
      OpensIff(p, f, owed);
      if OpenStatus(p, f, owed) == OK {
        OpeningAlone(p, f, owed);
      }
    }
    if Openable(p, f, owed) {
      OpensWithTwo(p, f, owed);
    }
  }

  /** HeapFile with the fields of HeapFileScan and InsertFileScan, which inherit from it. */
  class HeapFile {
    const bm: BufMgr
    const filePtr: FileRef
    var headerPage: Page
    var hdrDirtyFlag: bool
    var curPage: Page
    var curPageNo: int
    var curIdx: int
    var curDirtyFlag: bool
    var curRec: RID
    var filter: Condition
    const float: seq<byte> -> real    // reads a float attribute
    const returnStatus: Status        // what the constructor returns
    ghost var touched: set<Key>       // pages of the pool changed and not yet announced

    /** The pool is sound and this file holds its two pages pinned. */
    ghost predicate Open()
      reads `headerPage, `hdrDirtyFlag, `curPage, `curPageNo, `curDirtyFlag, `touched
      reads bm, bm.bufTable, bm.hashTable, bm.hashTable.ht, bm.hashTable.Repr, bm.disk, bm.mems
    {
      && bm.Valid()
      && Anchored(bm.Abs(), filePtr, touched, hdrDirtyFlag, curPageNo, curDirtyFlag)
      && FrameHolds(bm, Key(filePtr, HEADER), headerPage) && FrameHolds(bm, Key(filePtr, curPageNo), curPage)
    }

    /** The bytes of the file's pages. */
    ghost function View(): FileView
      reads `headerPage, `hdrDirtyFlag, `curPage, `curPageNo, `curDirtyFlag, `touched
      reads bm, bm.bufTable, bm.hashTable, bm.hashTable.ht, bm.hashTable.Repr, bm.disk, bm.mems
    {
      if Open() then ViewOf(bm.Abs(), filePtr) else map[]
    }

    /** The pool under the file. */
    ghost function PoolNow(): Pool
      reads `headerPage, `hdrDirtyFlag, `curPage, `curPageNo, `curDirtyFlag, `touched
      reads bm, bm.bufTable, bm.hashTable, bm.hashTable.ht, bm.hashTable.Repr, bm.disk, bm.mems
    {
      if Open() then bm.Abs() else Pool([], [], [], map[], map[])
    }

    /** Since then, what was done through this object has disturbed no client of another file; and,
        no one else having a page of this file pinned, it has neither taken a frame nor left one. */
    twostate predicate Spares()
      reads `headerPage, `hdrDirtyFlag, `curPage, `curPageNo, `curDirtyFlag, `touched
      reads bm, bm.bufTable, bm.hashTable, bm.hashTable.ht, bm.hashTable.Repr, bm.disk, bm.mems
    {
      && LeavesOthers(old(PoolNow()), old(touched), PoolNow(), touched, filePtr)
      && (old(Sole()) ==> |PoolNow().upl| == |old(PoolNow()).upl|)
    }

    /** How many pages the file has on disk, page 0 included. */
    ghost function FileSize(): nat
      reads `headerPage, `hdrDirtyFlag, `curPage, `curPageNo, `curDirtyFlag, `touched
      reads bm, bm.bufTable, bm.hashTable, bm.hashTable.ht, bm.hashTable.Repr, bm.disk, bm.mems
    {
      if Open() then |bm.Abs().disk[filePtr]| else 0
    }

    /** The record count in the header page. */
    ghost function RecordCount(): int
      reads `headerPage, `hdrDirtyFlag, `curPage, `curPageNo, `curDirtyFlag, `touched
      reads bm, bm.bufTable, bm.hashTable, bm.hashTable.ht, bm.hashTable.Repr, bm.disk, bm.mems
    {
      CountIn(View())
    }

    /** The record count is the number of records. */
    ghost predicate CountRight()
      reads this, bm, bm.bufTable, bm.hashTable, bm.hashTable.ht, bm.hashTable.Repr, bm.disk, bm.mems
    {
      Valid() && RightCount(View())
    }

    lemma CountIsRight()
      requires Valid()
      ensures CountRight() <==> RightCount(View())
      ensures CountRight() <==> RecordCount() == |AllEntries(Contents())|
      ensures |AllEntries(Contents())| < 0x7fff_ffff
    {
      hide ChainedHash.HashTable.Valid, BufMgr.Wired, BufMgr.Abs, Inv, HeapFile.Open, HeapFile.View, AllEntries;
      MostEntries(Contents());
    }

    /** The view tells the size. */
    lemma FileEnd()
      requires Open()
      ensures PagesUpTo(View(), FileSize()) && 2 <= FileSize()
    {
      hide ChainedHash.HashTable.Valid, Inv, Anchored, BufMgr.Wired, BufMgr.Abs;
      PinnedPages();
    }

    /** The file is open, and no one else has a page of it pinned. */
    ghost predicate Sole()
      reads `headerPage, `hdrDirtyFlag, `curPage, `curPageNo, `curDirtyFlag, `touched
      reads bm, bm.bufTable, bm.hashTable, bm.hashTable.ht, bm.hashTable.Repr, bm.disk, bm.mems
    {
      Open() && Alone(bm.Abs(), filePtr, curPageNo)
    }

    lemma PoolSound()
      requires Open()
      ensures bm.Valid() && bm.Wired() && Inv(bm.Abs()) && PoolNow() == bm.Abs()
    {
    }

    ghost predicate Valid()
      reads this, bm, bm.bufTable, bm.hashTable, bm.hashTable.ht, bm.hashTable.Repr, bm.disk, bm.mems
    {
      Open() && Positioned(View(), curIdx, curPageNo, curRec) && ConditionOK(filter)
    }

    /** The heap file as a value. */
    ghost function Contents(): Heap
      reads this, bm, bm.bufTable, bm.hashTable, bm.hashTable.ht, bm.hashTable.Repr, bm.disk, bm.mems
    {
      if Valid() then HeapOf(View()) else []
    }

    /** What the scan has still to see. */
    ghost function Ahead(): seq<Entry>
      reads this, bm, bm.bufTable, bm.hashTable, bm.hashTable.ht, bm.hashTable.Repr, bm.disk, bm.mems
    {
      if Valid() then EntriesFrom(Contents(), curIdx, curRec.slotNo + 1) else []
    }

    /** The file as an insertion scan sees it: contents, the page it stands on, and the number the
        next page added will get. */
    ghost function Insertion(): Inserting
      reads this, bm, bm.bufTable, bm.hashTable, bm.hashTable.ht, bm.hashTable.Repr, bm.disk, bm.mems
    {
      Inserting(Contents(), if Valid() then curIdx else 0, FileSize())
    }

    /** The constructor, once the file is open: reads the header page and the first page of the
        directory, and returns the status of these reads.  `owed` are the changes that other clients
        of the pool have yet to announce. */
    constructor (bm: BufMgr, f: FileRef, float: seq<byte> -> real, ghost owed: set<Key>)
      requires bm.Valid() && IsHeapFile(bm.Abs(), f, owed)
      modifies bm, bm.bufTable, bm.hashTable, bm.hashTable.ht, bm.hashTable.Repr, bm.disk, bm.mems
      ensures fresh(bm.hashTable.Repr - old(bm.hashTable.Repr)) && bm.Valid()
      ensures this.bm == bm && filePtr == f && this.float == float && touched == owed
      ensures returnStatus == old(OpenStatus(bm.Abs(), f, owed))
      ensures old(Closed(bm.Abs(), f)) ==> returnStatus == if |old(bm.Abs()).upl| >= 2 then OK else BUFFEREXCEEDED
      ensures returnStatus != OK && old(Closed(bm.Abs(), f)) ==> bm.Abs().upl == []
      ensures old(Openable(bm.Abs(), f, owed)) ==> returnStatus == OK
      ensures returnStatus == OK ==> Valid() && View() == old(ViewOf(bm.Abs(), f))
      ensures !hdrDirtyFlag && !curDirtyFlag && curIdx == 0 && curRec == NULLRID && filter == NoFilter
      ensures returnStatus == OK ==> FileSize() == |old(bm.Abs()).disk[f]|
      ensures returnStatus == OK ==>
        curPageNo == old(FirstNo(bm.Abs(), f, owed)) && PoolNow() == BothRead(old(bm.Abs()), f, curPageNo)
      ensures returnStatus == OK && old(Closed(bm.Abs(), f)) ==>
        Sole() && |PoolNow().upl| == |old(bm.Abs()).upl| - 2
      ensures returnStatus == OK ==> LeavesOthers(old(bm.Abs()), owed, PoolNow(), touched, f)
    {
      hide ChainedHash.HashTable.Valid, Inv, Anchored, BufMgr.Valid, BufMgr.Wired, BufMgr.Abs, ViewOf, BothRead;
      hide Openable, IsHeapFile, FirstNo, Alone, Closed, OpenStatus;
      hide HeapFile.Open, HeapFile.View, HeapFile.Sole, HeapInv, Described, HeapOf, HeapFile.PoolNow, LeavesOthers;
      ghost var p := OpeningFacts(bm, f, owed);
      var status, header, n, first := ReadBoth(bm, f, owed);
      this.bm, this.filePtr, this.float := bm, f, float;
      headerPage, curPage, returnStatus := header, first, status;
      hdrDirtyFlag, curDirtyFlag := false, false;
      curPageNo, curIdx, curRec, filter := n, 0, NULLRID, NoFilter;
      touched := owed;
      new;
      if returnStatus == OK {
        Reopened();
      }
    }

    /** The pinned frames hold what the file's pages look like. */
    lemma PinnedPages()
      requires Open()
      ensures HEADER in View() && curPageNo in View() && headerPage.Sized() && curPage.Sized()
      ensures headerPage.mem[..] == View()[HEADER] && curPage.mem[..] == View()[curPageNo]
      ensures headerPage.mem != curPage.mem && curPageNo != HEADER && {headerPage.mem, curPage.mem} <= bm.mems
      ensures |View()[HEADER]| == PAGESIZE && bm.Valid() && filePtr in bm.Abs().disk && Inv(bm.Abs())
    {
      hide ChainedHash.HashTable.Valid, Inv, Anchored, BufMgr.Wired, BufMgr.Abs;
      var p := bm.Abs();
      AnchoredPages(p, filePtr, touched, hdrDirtyFlag, curPageNo, curDirtyFlag);
      bm.FrameOfPage(Key(filePtr, HEADER));
      bm.FrameOfPage(Key(filePtr, curPageNo));
      bm.FramesApart(p.index[Key(filePtr, HEADER)], p.index[Key(filePtr, curPageNo)]);
    }

    lemma HeaderCount()
      requires Open()
      ensures headerPage.mem.Length == PAGESIZE && RecordCount() == IntAt(headerPage.mem[..], RECCNT)
    {
      hide ChainedHash.HashTable.Valid, Inv, Anchored, BufMgr.Wired, BufMgr.Abs, HeapFile.Open, HeapFile.View;
      PinnedPages();
    }

    /** HeapFile::getRecCnt. */
    method GetRecCnt() returns (n: int)
      requires Valid()
      ensures n == RecordCount() && (CountRight() ==> n == |AllEntries(Contents())|)
    {
      hide ChainedHash.HashTable.Valid, Inv, Anchored, BufMgr.Wired, BufMgr.Abs, HeapFile.Open, HeapFile.View;
      hide HeapFile.CountRight, HeapFile.RecordCount, AllEntries, HeapOf, HeapInv;
      CountIsRight();
      HeaderCount();
      n := headerPage.Int(RECCNT);
    }

    lemma OwnFrames()
      requires Valid()
      ensures {headerPage.mem, curPage.mem} <= bm.mems
    {
      hide ChainedHash.HashTable.Valid, Inv, Anchored, BufMgr.Wired, BufMgr.Abs, HeapFile.Open;
      PinnedPages();
    }

    /** Unpins the current page and reads page n in its place. */
    method UnPinAndRead(n: int) returns (status: Status, index: int)
      requires Open()
      modifies bm, bm.bufTable, bm.hashTable, bm.hashTable.ht, bm.hashTable.Repr, bm.disk, bm.mems
      ensures fresh(bm.hashTable.Repr - old(bm.hashTable.Repr)) && bm.Valid()
      ensures bm.Abs() == TurnedTo(old(bm.Abs()), filePtr, curPageNo, curDirtyFlag, n)
      ensures var q := AfterUnPin(old(bm.Abs()), Key(filePtr, curPageNo), curDirtyFlag, false);
        Inv(q) && status == ReadStatus(q, Key(filePtr, n))
      ensures status == OK ==> Key(filePtr, n) in bm.Abs().index && index == bm.Abs().index[Key(filePtr, n)]
    {
      hide ChainedHash.HashTable.Valid, Inv, Anchored, BufMgr.Wired, BufMgr.Abs, AfterRead, AfterUnPin, ReadStatus;
      InvUnPin(bm.Abs(), Key(filePtr, curPageNo), curDirtyFlag, false);
      status := bm.UnPinPage(filePtr, curPageNo, curDirtyFlag, false);
      status, index := bm.ReadPage(filePtr, n);
    }

    /** A pinned page becomes the current one; `t` are the changes owed. */
    method Adopt(pageNo: int, page: Page, ghost t: set<Key>)
      requires bm.Valid() && Anchored(bm.Abs(), filePtr, t, hdrDirtyFlag, pageNo, curDirtyFlag)
      requires FrameHolds(bm, Key(filePtr, HEADER), headerPage) && FrameHolds(bm, Key(filePtr, pageNo), page)
      modifies this`curPage, this`curPageNo, this`touched
      ensures Open() && View() == ViewOf(bm.Abs(), filePtr) && FileSize() == |bm.Abs().disk[filePtr]|
      ensures PoolNow() == bm.Abs()
      ensures Alone(bm.Abs(), filePtr, pageNo) ==> Sole()
      ensures curPageNo == pageNo && curPage == page && touched == t && bm.Abs() == old(bm.Abs())
    {
      hide ChainedHash.HashTable.Valid, Inv, Anchored, BufMgr.Wired, BufMgr.Abs, Alone, ViewOf, BufMgr.Valid;
      hide HeapFile.Open, HeapFile.View, HeapFile.Sole, HeapFile.FileSize, HeapFile.PoolNow;
      curPage, curPageNo := page, pageNo;
      touched := t;
      Reopened();
    }

    lemma SwapCount(n: int)
      requires Open() && n != HEADER && PageExists(bm.Abs().disk, Key(filePtr, n))
      ensures Inv(bm.Abs()) && Inv(AfterUnPin(bm.Abs(), Key(filePtr, curPageNo), curDirtyFlag, false))
      ensures Sole()
        && ReadStatus(AfterUnPin(bm.Abs(), Key(filePtr, curPageNo), curDirtyFlag, false), Key(filePtr, n)) == OK
        ==> |TurnedTo(bm.Abs(), filePtr, curPageNo, curDirtyFlag, n).upl| == |bm.Abs().upl|
    {
      hide ChainedHash.HashTable.Valid, Inv, Anchored, BufMgr.Wired, BufMgr.Abs, TurnedTo, AfterUnPin, ReadStatus;
      hide Alone, PageExists;
      InvUnPin(bm.Abs(), Key(filePtr, curPageNo), curDirtyFlag, false);
      var q := AfterUnPin(bm.Abs(), Key(filePtr, curPageNo), curDirtyFlag, false);
      if Sole() && ReadStatus(q, Key(filePtr, n)) == OK {
        TurnKeepsCount(bm.Abs(), filePtr, curPageNo, curDirtyFlag, n);
      }
    }

    method Swap(n: int) returns (status: Status)
      requires Open() && n != HEADER && PageExists(bm.Abs().disk, Key(filePtr, n))
      modifies this`curPage, this`curPageNo, this`touched
      modifies bm, bm.bufTable, bm.hashTable, bm.hashTable.ht, bm.hashTable.Repr, bm.disk, bm.mems
      ensures fresh(bm.hashTable.Repr - old(bm.hashTable.Repr))
      ensures bm.Valid() && status in {OK, BUFFEREXCEEDED}
      ensures status == OK ==> Open() && curPageNo == n && View() == old(View()) && HeaderOnly(touched, filePtr)
      ensures bm.Abs() == TurnedTo(old(bm.Abs()), filePtr, old(curPageNo), curDirtyFlag, n)
      ensures status ==
        ReadStatus(AfterUnPin(old(bm.Abs()), Key(filePtr, old(curPageNo)), curDirtyFlag, false), Key(filePtr, n))
      ensures status == OK ==> Spares() && touched == old(Announced(touched, Key(filePtr, curPageNo), curDirtyFlag))
      ensures status == OK ==> PoolNow() == bm.Abs()
      ensures status == OK && Alone(bm.Abs(), filePtr, n) ==> Sole()
    {
      hide ChainedHash.HashTable.Valid, Inv, Anchored, BufMgr.Wired, BufMgr.Abs, TurnedTo, AfterUnPin, ReadStatus;
      hide Announced, ViewOf, PageExists, LeavesOthers, HeapFile.Sole, Alone;
      ghost var p := bm.Abs();
      Turn(p, filePtr, touched, hdrDirtyFlag, curPageNo, curDirtyFlag, n);
      TurnLeaves(p, filePtr, touched, hdrDirtyFlag, curPageNo, curDirtyFlag, n);
      TurnView(p, filePtr, touched, hdrDirtyFlag, curPageNo, curDirtyFlag, n);
      SwapCount(n);
      var index;
      status, index := UnPinAndRead(n);
      if status == OK {
        bm.FrameOfPage(Key(filePtr, n));
        Adopt(n, bm.bufPool[index], Announced(touched, Key(filePtr, curPageNo), curDirtyFlag));
      }
    }

    /** The page of entry idx, as the header page in its frame names it. */
    lemma EntryNamed(idx: int)
      requires Valid() && 0 <= idx < |Contents()|
      ensures Inv(bm.Abs()) && headerPage.mem.Length == PAGESIZE && idx < DIRCNT
      ensures headerPage.Int(PAGES + 8 * idx) == Contents()[idx].no != HEADER
      ensures PageExists(bm.Abs().disk, Key(filePtr, Contents()[idx].no))
    {
      hide ChainedHash.HashTable.Valid, Inv, Anchored, BufMgr.Wired, BufMgr.Abs, ViewOf, IntOf;
      PinnedPages();
      EntryExists(bm.Abs(), filePtr, idx);
    }

    /** The cursor before the first record of the current page, which is entry idx. */
    method StandBefore(idx: int)
      requires Open() && Positioned(View(), idx, curPageNo, NULLRID) && ConditionOK(filter)
      modifies `curIdx, `curRec
      ensures Valid() && curIdx == idx && curRec == NULLRID
      ensures View() == old(View()) && PoolNow() == old(PoolNow()) && (old(Sole()) ==> Sole())
    {
      hide ChainedHash.HashTable.Valid, Inv, Anchored, BufMgr.Wired, BufMgr.Abs, Alone, BufMgr.Valid, Positioned;
      hide HeapFile.Open, HeapFile.View, HeapFile.Sole, HeapFile.PoolNow;
      curIdx := idx;
      curRec := NULLRID;
    }

    /** Leaves the current page for the page of entry idx of the directory and stands before
        its first record. */
    method TurnTo(idx: int) returns (status: Status)
      requires Valid() && 0 <= idx < |Contents()|
      modifies this`curPage, this`curPageNo, this`touched, this`curIdx, this`curRec
      modifies bm, bm.bufTable, bm.hashTable, bm.hashTable.ht, bm.hashTable.Repr, bm.disk, bm.mems
      ensures fresh(bm.hashTable.Repr - old(bm.hashTable.Repr)) && bm.Valid()
      ensures status in {OK, BUFFEREXCEEDED}
      ensures status == OK ==> Valid() && View() == old(View()) && curIdx == idx && curRec == NULLRID
      ensures status == OK ==> HeaderOnly(touched, filePtr)
      ensures old(Sole()) && idx != old(curIdx) ==> status == OK && Sole()
      ensures status == OK ==> Spares()
      ensures status == OK && !curDirtyFlag ==> touched == old(touched)
    {
      hide HeapFile.PoolNow, LeavesOthers;
      hide ChainedHash.HashTable.Valid, Inv, Anchored, BufMgr.Wired, BufMgr.Abs, HeapFile.View, ViewOf, TurnedTo;
      hide AfterUnPin, HeapOK, PageExists;
      hide HeapFile.Open, BufMgr.Valid, Alone, ReadStatus, HeapInv, Described, IntAt, HeapFile.FileSize;
      PoolSound();
      EntryNamed(idx);
      var n := headerPage.Int(PAGES + 8 * idx);
      AloneTurns(idx);
      status := Swap(n);
      if status == OK {
        StandBefore(idx);
      }
    }

    lemma AloneTurns(idx: int)
      requires Valid() && 0 <= idx < |Contents()|
      ensures Inv(bm.Abs()) && Inv(AfterUnPin(bm.Abs(), Key(filePtr, curPageNo), curDirtyFlag, false))
      ensures Alone(bm.Abs(), filePtr, curPageNo) && idx != curIdx ==>
        var n := Contents()[idx].no;
        && ReadStatus(AfterUnPin(bm.Abs(), Key(filePtr, curPageNo), curDirtyFlag, false), Key(filePtr, n)) == OK
        && Alone(TurnedTo(bm.Abs(), filePtr, curPageNo, curDirtyFlag, n), filePtr, n)
    {
      hide ChainedHash.HashTable.Valid, Inv, Anchored, BufMgr.Wired, BufMgr.Abs, ViewOf, TurnedTo, AfterUnPin, Alone;
      hide PageExists;
      EntryNamed(idx);
      InvUnPin(bm.Abs(), Key(filePtr, curPageNo), curDirtyFlag, false);
      if Alone(bm.Abs(), filePtr, curPageNo) && idx != curIdx {
        EntriesApart(View(), idx, curIdx);
        HeapAt(View(), idx);
        HeapAt(View(), curIdx);
        TurnAlone(bm.Abs(), filePtr, touched, hdrDirtyFlag, curPageNo, curDirtyFlag, Contents()[idx].no);
      }
    }

    /** The current page, as the frame holds it. */
    lemma Current()
      requires Valid()
      ensures 0 <= curIdx < |Contents()| && Contents()[curIdx].no == curPageNo
      ensures curPage.Sized() && WF(curPage.mem[..])
      ensures Slots(curPage.mem[..]) == Contents()[curIdx].slots && CurPage(curPage.mem[..]) == curPageNo
      ensures curRec != NULLRID ==> 0 <= curRec.slotNo && curRec.pageNo == curPageNo
      ensures curRec.slotNo >= -1 && Open() && ConditionOK(filter) && 1 <= curPageNo
    {
      hide ChainedHash.HashTable.Valid, Inv, Anchored, BufMgr.Wired, BufMgr.Abs, ViewOf, WF, Slots, HeapFile.Open;
      PinnedPages();
      EntryExists(bm.Abs(), filePtr, curIdx);
    }

    lemma CursorInside()
      requires Valid()
      ensures 0 <= curIdx < |Contents()| && Open() && bm.Valid()
    {
      hide ChainedHash.HashTable.Valid, Inv, Anchored, BufMgr.Wired, BufMgr.Abs, BufMgr.Valid, FrameHolds;
    }

    /** The directory entry after the current one is -1 exactly on the last page. */
    lemma LastEntry()
      requires Valid() && |Contents()| < DIRCNT
      ensures headerPage.mem.Length == PAGESIZE && curIdx + 1 < DIRCNT
      ensures headerPage.Int(PAGES + 8 * (curIdx + 1)) == -1 <==> curIdx + 1 == |Contents()|
    {
      hide ChainedHash.HashTable.Valid, Inv, Anchored, BufMgr.Wired, BufMgr.Abs, ViewOf, WF, Slots, HeapFile.Open;
      hide IntOf, HeapInv;
      PinnedPages();
      assert headerPage.Int(PAGES + 8 * (curIdx + 1)) == EntryPage(View()[HEADER], curIdx + 1);
      if curIdx + 1 < |Contents()| {
        HeapAt(View(), curIdx + 1);
      } else {
        assert Described(View());
      }
    }

    /** Moves curRec to the next record of the current page, if there is one. */
    method NextOnPage() returns (status: Status)
      requires Valid()
      modifies this`curRec
      ensures Valid()
      ensures var s := Contents()[curIdx].slots; var k := old(curRec).slotNo + 1;
        if k <= |s| && NextLive(s, k) < |s| then status == OK && curRec == RID(curPageNo, NextLive(s, k))
        else status in {NORECORDS, ENDOFPAGE} && curRec == old(curRec)
    {
      hide ChainedHash.HashTable.Valid, BufMgr.Valid, BufMgr.Wired, BufMgr.Abs, Inv, HeapOK, HeapFile.Open;
      hide HeapFile.View;
      hide WF, Sound, Slots, PageLayout.CurPage, HeapInv, HeapOf, Described;
      Current();
      ghost var m := curPage.mem[..];
      var tmpRid;
      if curRec.slotNo == -1 {
        status, tmpRid := curPage.FirstRecord();
      } else {
        status, tmpRid := curPage.NextRecord(curRec);
      }
      assert curPage.mem[..] == m && Contents() == old(Contents());
      if status == OK {
        curRec := tmpRid;
      }
    }

    /** The record under the cursor. */
    ghost predicate AtRecord()
      reads this, bm, bm.bufTable, bm.hashTable, bm.hashTable.ht, bm.hashTable.Repr, bm.disk, bm.mems
    {
      Valid() && curRec != NULLRID && LiveAt(Contents()[curIdx].slots, curRec.slotNo)
    }

    ghost function CurrentEntry(): Entry
      requires AtRecord()
      reads this, bm, bm.bufTable, bm.hashTable, bm.hashTable.ht, bm.hashTable.Repr, bm.disk, bm.mems
    {
      Entry(curRec, Contents()[curIdx].slots[curRec.slotNo].rec)
    }

    /** HeapFileScan::getRecord: the current record, or INVALIDSLOTNO once it has been deleted, as
        long as its slot has not been trimmed. */
    method GetRecord() returns (status: Status, rec: Rec)
      requires AtRecord() || (Valid() && curRec != NULLRID && curRec.slotNo < |Contents()[curIdx].slots|)
      ensures AtRecord() ==> status == OK && rec == CurrentEntry().rec
      ensures !AtRecord() ==> status == INVALIDSLOTNO
    {
      hide ChainedHash.HashTable.Valid, BufMgr.Valid, BufMgr.Wired, BufMgr.Abs, Inv, HeapOK, HeapFile.Open;
      hide HeapFile.View;
      hide WF, Sound, Slots, PageLayout.CurPage;
      Current();
      status, rec := curPage.GetRecord(curRec);
    }

    /** nextOnPage as the scan sees it: the first of the entries ahead, or none on this page. */
    method NextEntry() returns (status: Status)
      requires Valid()
      modifies this`curRec
      ensures Valid() && View() == old(View()) && Contents() == old(Contents())
      ensures status == OK ==>
        AtRecord() && old(curRec).slotNo < curRec.slotNo < |Contents()[curIdx].slots|
          && old(Ahead()) == [CurrentEntry()] + Ahead()
      ensures status != OK ==> curRec == old(curRec) && old(Ahead()) == EntriesFrom(Contents(), curIdx + 1, 0)
    {
      hide ChainedHash.HashTable.Valid, BufMgr.Valid, BufMgr.Wired, BufMgr.Abs, Inv, HeapOK, HeapFile.Open;
      hide HeapFile.View;
      hide EntriesFrom, NextLive, WF, Sound, Slots, PageLayout.CurPage;
      Current();
      ScanStep(Contents(), curIdx, curRec.slotNo + 1);
      status := NextOnPage();
    }

    /** Past the last record of a page: on to the next page, or the end. */
    method NextPageOrEnd() returns (status: Status)
      requires Valid() && |Contents()| < DIRCNT
      modifies this`curPage, this`curPageNo, this`touched, this`curIdx, this`curRec
      modifies bm, bm.bufTable, bm.hashTable, bm.hashTable.ht, bm.hashTable.Repr, bm.disk, bm.mems
      ensures fresh(bm.hashTable.Repr - old(bm.hashTable.Repr)) && bm.Valid()
      ensures status in {OK, FILEEOF, BUFFEREXCEEDED}
      ensures status != BUFFEREXCEEDED ==> Valid() && View() == old(View()) && Contents() == old(Contents())
      ensures old(Sole()) ==> status != BUFFEREXCEEDED && Sole()
      ensures status == FILEEOF ==> curIdx == old(curIdx) && curIdx + 1 == |Contents()| && curRec == old(curRec)
      ensures status == OK ==> curIdx == old(curIdx) + 1 < |Contents()| && curRec == NULLRID
      ensures status != BUFFEREXCEEDED ==> Spares()
      ensures status != BUFFEREXCEEDED && !curDirtyFlag ==> touched == old(touched)
    {
      hide HeapFile.PoolNow, LeavesOthers;
      hide ChainedHash.HashTable.Valid, BufMgr.Valid, BufMgr.Wired, BufMgr.Abs, Inv, HeapOK, HeapFile.Open;
      hide HeapFile.View, HeapFile.Sole;
      hide WF, Sound, Slots, PageLayout.CurPage;
      PoolSound();
      LastEntry();
      CursorInside();
      if headerPage.Int(PAGES + 8 * (curIdx + 1)) == -1 {
        LeavesSelf(PoolNow(), touched, filePtr);
        return FILEEOF;
      }
      status := TurnTo(curIdx + 1);
    }

    /** The first entry of the directory names the current page when the scan stands there. */
    lemma FirstEntry()
      requires Valid()
      ensures headerPage.mem.Length == PAGESIZE && 0 < |Contents()|
      ensures headerPage.Int(PAGES) == curPageNo <==> curIdx == 0
    {
      hide ChainedHash.HashTable.Valid, Inv, Anchored, BufMgr.Wired, BufMgr.Abs, ViewOf, WF, Slots, HeapFile.Open;
      hide IntOf, HeapInv;
      PinnedPages();
      EntryNamed(0);
      HeapAt(View(), curIdx);
      if curIdx != 0 {
        EntriesApart(View(), 0, curIdx);
      }
    }

    /** A page just turned to, and not changed since, is not dirty. */
    method Lower()
      requires Open() && HeaderOnly(touched, filePtr)
      modifies `curDirtyFlag
      ensures Open() && View() == old(View()) && (old(Sole()) ==> Sole())
      ensures PoolNow() == old(PoolNow()) && !curDirtyFlag
    {
      hide ChainedHash.HashTable.Valid, BufMgr.Wired, BufMgr.Abs, Inv, Anchored, ViewOf;
      LowerFlag(bm.Abs(), filePtr, touched, hdrDirtyFlag, curPageNo, curDirtyFlag);
      curDirtyFlag := false;
    }

    /** Makes the first page of the file the current one.  If it is already, the cursor stays
        where it is. */
    method ToFirstPage() returns (status: Status)
      requires Valid()
      modifies this`curPage, this`curPageNo, this`touched, this`curIdx, this`curRec, this`curDirtyFlag
      modifies bm, bm.bufTable, bm.hashTable, bm.hashTable.ht, bm.hashTable.Repr, bm.disk, bm.mems
      ensures fresh(bm.hashTable.Repr - old(bm.hashTable.Repr)) && bm.Valid() && status in {OK, BUFFEREXCEEDED}
      ensures status == OK ==> Valid() && View() == old(View()) && curIdx == 0
      ensures status == OK ==> curRec == if old(curIdx) != 0 then NULLRID else old(curRec)
      ensures old(Sole()) ==> status == OK && Sole()
      ensures status == OK ==> Spares()
      ensures status == OK && !old(curDirtyFlag) ==> !curDirtyFlag && touched == old(touched)
      ensures status == OK ==> curDirtyFlag == (old(curDirtyFlag) && old(curIdx) == 0)
    {
      hide HeapFile.PoolNow, LeavesOthers;
      hide ChainedHash.HashTable.Valid, BufMgr.Valid, BufMgr.Wired, BufMgr.Abs, Inv, HeapOK, HeapFile.View;
      hide HeapFile.Contents, HeapFile.Sole;
      hide WF, Sound, Slots, PageLayout.CurPage, Anchored, HeapFile.Open;
      FirstEntry();
      PoolSound();
      status := OK;
      LeavesSelf(PoolNow(), touched, filePtr);
      if curPageNo != headerPage.Int(PAGES) {
        status := TurnTo(0);
        if status == OK {
          Lower();
        }
      }
    }

    /** HeapFileScan::startScan. */
    method StartScan(c: Condition) returns (status: Status)
      requires Valid() && Readable(c)
      modifies this`curPage, this`curPageNo, this`touched, this`curIdx, this`curRec, this`curDirtyFlag, this`filter
      modifies bm, bm.bufTable, bm.hashTable, bm.hashTable.ht, bm.hashTable.Repr, bm.disk, bm.mems
      ensures fresh(bm.hashTable.Repr - old(bm.hashTable.Repr)) && bm.Valid()
      ensures status == BUFFEREXCEEDED || status == (if ParmsOK(c) then OK else BADSCANPARM)
      ensures status != BUFFEREXCEEDED ==> Valid() && View() == old(View()) && curIdx == 0
      ensures status != BUFFEREXCEEDED ==> curRec == if old(curIdx) != 0 then NULLRID else old(curRec)
      ensures old(Sole()) ==> status != BUFFEREXCEEDED && Sole()
      ensures filter == if status == OK then c else old(filter)
      ensures status != BUFFEREXCEEDED ==> curDirtyFlag == (old(curDirtyFlag) && old(curIdx) == 0)
      ensures status != BUFFEREXCEEDED ==> Spares()
      ensures status != BUFFEREXCEEDED && !old(curDirtyFlag) ==> !curDirtyFlag && touched == old(touched)
    {
      hide HeapFile.PoolNow, LeavesOthers;
      hide ChainedHash.HashTable.Valid, BufMgr.Valid, Inv, HeapFile.Open, HeapFile.View, HeapFile.Sole, Positioned;
      status := ToFirstPage();
      if status != OK {
        return;
      }
      if c.NoFilter? {
        filter := c;
        return OK;
      }
      if c.offset < 0 || c.length < 1 || ((c.attr == INTEGER || c.attr == FLOAT) && c.length != 4) {
        return BADSCANPARM;
      }
      filter := c;
      return OK;
    }

    /** What the scan is looking for. */
    ghost function Wanted(): Rec -> bool
      reads `filter
    {
      Matcher(filter, float)
    }

    /** The next record of the page, if there is one, tried against the filter. */
    method TryRecord() returns (status: Status, found: bool)
      requires Valid()
      modifies this`curRec
      ensures Valid() && View() == old(View()) && Contents() == old(Contents())
      ensures status != OK ==> !found && curRec == old(curRec) && old(Ahead()) == EntriesFrom(Contents(), curIdx + 1, 0)
      ensures status == OK ==> old(curRec).slotNo < curRec.slotNo < |Contents()[curIdx].slots|
      ensures status == OK && found ==> AtRecord() && DropTo(old(Ahead()), Wanted()) == [CurrentEntry()] + Ahead()
      ensures status == OK && !found ==> DropTo(old(Ahead()), Wanted()) == DropTo(Ahead(), Wanted())
    {
      hide ChainedHash.HashTable.Valid, BufMgr.Valid, BufMgr.Wired, BufMgr.Abs, Inv;
      hide HeapFile.Valid, HeapFile.Open, HeapFile.View, HeapFile.Contents, HeapFile.Ahead, HeapFile.AtRecord;
      hide HeapFile.CurrentEntry;
      hide EntriesFrom, MatchRec, DropTo, WF, Sound, Slots, PageLayout.CurPage;
      Current();
      status := NextEntry();
      found := false;
      if status == OK {
        var rec;
        status, rec := GetRecord();
        DropToStep(CurrentEntry(), Ahead(), Wanted());
        found := MatchRec(filter, float, rec);
      }
    }

    /** One round of the loop of scanNext: a record tried, or a page left. */
    method Round() returns (status: Status, found: bool)
      requires Valid() && |Contents()| < DIRCNT
      modifies this`curPage, this`curPageNo, this`touched, this`curIdx, this`curRec
      modifies bm, bm.bufTable, bm.hashTable, bm.hashTable.ht, bm.hashTable.Repr, bm.disk, bm.mems
      ensures fresh(bm.hashTable.Repr - old(bm.hashTable.Repr)) && bm.Valid()
      ensures status in {OK, FILEEOF, BUFFEREXCEEDED}
      ensures status != BUFFEREXCEEDED ==> Valid() && View() == old(View()) && Contents() == old(Contents())
      ensures old(Sole()) ==> status != BUFFEREXCEEDED && Sole()
      ensures status == FILEEOF ==> DropTo(old(Ahead()), Wanted()) == [] && Ahead() == []
      ensures status == OK && found ==> AtRecord() && DropTo(old(Ahead()), Wanted()) == [CurrentEntry()] + Ahead()
      ensures status == OK && !found ==> DropTo(old(Ahead()), Wanted()) == DropTo(Ahead(), Wanted())
      ensures status == OK ==>
        curIdx > old(curIdx) ||
          (curIdx == old(curIdx) && old(curRec).slotNo < curRec.slotNo < |Contents()[curIdx].slots|)
      ensures status != BUFFEREXCEEDED ==> Spares()
      ensures status != BUFFEREXCEEDED && !curDirtyFlag ==> touched == old(touched)
    {
      hide HeapFile.PoolNow, LeavesOthers;
      hide ChainedHash.HashTable.Valid, BufMgr.Valid, BufMgr.Wired, BufMgr.Abs, Inv;
      hide HeapFile.Valid, HeapFile.Open, HeapFile.View, HeapFile.Contents, HeapFile.Sole, HeapFile.AtRecord;
      hide HeapFile.CurrentEntry;
      hide EntriesFrom, MatchRec, DropTo, WF, Sound, Slots, PageLayout.CurPage;
      CursorInside();
      LeavesSelf(PoolNow(), touched, filePtr);
      status, found := TryRecord();
      if status != OK {
        status := NextPageOrEnd();
        EndOfEntries(old(Contents()));
      }
    }

    /** HeapFileScan::scanNext: the first entry ahead that satisfies the filter. */
    method ScanNext() returns (status: Status, outRid: RID)
      requires Valid() && |Contents()| < DIRCNT
      modifies this`curPage, this`curPageNo, this`touched, this`curIdx, this`curRec
      modifies bm, bm.bufTable, bm.hashTable, bm.hashTable.ht, bm.hashTable.Repr, bm.disk, bm.mems
      ensures fresh(bm.hashTable.Repr - old(bm.hashTable.Repr)) && bm.Valid()
      ensures status in {OK, FILEEOF, BUFFEREXCEEDED}
      ensures status != BUFFEREXCEEDED ==> Valid() && View() == old(View()) && Contents() == old(Contents())
      ensures old(Sole()) ==> status != BUFFEREXCEEDED && Sole()
      ensures status == FILEEOF ==> DropTo(old(Ahead()), Wanted()) == [] && Ahead() == []
      ensures status == OK ==>
        AtRecord() && outRid == curRec && DropTo(old(Ahead()), Wanted()) == [CurrentEntry()] + Ahead()
      ensures status != BUFFEREXCEEDED ==> Spares()
      ensures status != BUFFEREXCEEDED && !curDirtyFlag ==> touched == old(touched)
    {
      hide HeapFile.PoolNow, LeavesOthers;
      hide ChainedHash.HashTable.Valid, BufMgr.Valid, BufMgr.Wired, BufMgr.Abs, Inv;
      hide HeapFile.Valid, HeapFile.Open, HeapFile.View, HeapFile.Contents, HeapFile.Ahead, HeapFile.Sole;
      hide HeapFile.AtRecord, HeapFile.CurrentEntry;
      hide DropTo, HeapFile.Wanted, WF, Sound, Slots, PageLayout.CurPage;
      CursorInside();
      ghost var h := Contents();
      LeavesSelf(PoolNow(), touched, filePtr);
      while true
        invariant Valid() && View() == old(View()) && Contents() == h == old(Contents())
        invariant fresh(bm.hashTable.Repr - old(bm.hashTable.Repr)) && bm.Valid()
        invariant 0 <= curIdx < |h|
        invariant DropTo(Ahead(), Wanted()) == DropTo(old(Ahead()), old(Wanted()))
        invariant (old(Sole()) ==> Sole()) && (!curDirtyFlag ==> touched == old(touched))
        invariant Spares()
        decreases |h| - curIdx, |h[curIdx].slots| - curRec.slotNo
      {
        var found;
        ghost var q, t := PoolNow(), touched;
        status, found := Round();
        if status != BUFFEREXCEEDED {
          LeavesTrans(old(PoolNow()), old(touched), q, t, PoolNow(), touched, filePtr);
        }
        if status != OK {
          return status, NULLRID;
        }
        if found {
          return OK, curRec;
        }
        CursorInside();
      }
    }

    // ----- Any record of the file -----

    /** The page that holds slot `rid`, which exists. */
    lemma PageOfRid(rid: RID)
      requires Open() && HeapOK(View()) && SlotThere(HeapOf(View()), rid)
      ensures PageExists(bm.Abs().disk, Key(filePtr, rid.pageNo)) && rid.pageNo != HEADER
      ensures curPageNo == rid.pageNo ==> curPage.Sized() && WF(curPage.mem[..])
      ensures curPageNo == rid.pageNo ==>
        Slots(curPage.mem[..]) == HeapOf(View())[PageIndex(HeapOf(View()), rid.pageNo, 0)].slots
    {
      hide ChainedHash.HashTable.Valid, Inv, Anchored, BufMgr.Wired, BufMgr.Abs, ViewOf, WF, Slots, HeapFile.Open;
      hide HeapInv, HeapOf;
      PinnedPages();
      EntryExists(bm.Abs(), filePtr, PageIndex(HeapOf(View()), rid.pageNo, 0));
    }

    /** The record in a slot of the current page. */
    method RecordHere(rid: RID, ghost h: Heap) returns (status: Status, rec: Rec)
      requires Open() && HeapOK(View()) && HeapOf(View()) == h && SlotThere(h, rid) && rid.pageNo == curPageNo
      ensures status == if LiveThere(h, rid) then OK else INVALIDSLOTNO
      ensures status == OK ==> rec == RecordAt(h, rid)
    {
      hide ChainedHash.HashTable.Valid, BufMgr.Valid, BufMgr.Wired, BufMgr.Abs, Inv, HeapInv, HeapOf, HeapFile.Open;
      hide HeapFile.View, WF, Sound, Slots, Described;
      PageOfRid(rid);
      status, rec := curPage.GetRecord(rid);
    }

    /** The page of slot `rid` read in place of the current one. */
    method TurnToPageOf(rid: RID) returns (status: Status)
      requires Open() && HeapOK(View()) && SlotThere(HeapOf(View()), rid)
      modifies this`curPage, this`curPageNo, this`touched, this`curDirtyFlag, this`curRec
      modifies bm, bm.bufTable, bm.hashTable, bm.hashTable.ht, bm.hashTable.Repr, bm.disk, bm.mems
      ensures fresh(bm.hashTable.Repr - old(bm.hashTable.Repr)) && bm.Valid()
      ensures bm.Abs() == TurnedTo(old(bm.Abs()), filePtr, old(curPageNo), old(curDirtyFlag), rid.pageNo)
      ensures status in {OK, BUFFEREXCEEDED}
      ensures status ==
        ReadStatus(AfterUnPin(old(bm.Abs()), Key(filePtr, old(curPageNo)), old(curDirtyFlag), false),
          Key(filePtr, rid.pageNo))
      ensures status == OK ==> Open() && View() == old(View()) && curPageNo == rid.pageNo && Spares()
      ensures status == OK ==> PoolNow() == bm.Abs() && !curDirtyFlag && curRec == rid
      ensures status == OK && !old(curDirtyFlag) ==> touched == old(touched)
    {
      hide ChainedHash.HashTable.Valid, BufMgr.Valid, BufMgr.Wired, BufMgr.Abs, Inv, HeapInv, HeapOf, HeapFile.Open;
      hide HeapFile.View, HeapFile.Sole, HeapFile.PoolNow, LeavesOthers, Anchored, ViewOf, TurnedTo, AfterUnPin;
      hide ReadStatus, WF, Sound, Slots, PageExists, Described;
      PageOfRid(rid);
      status := Swap(rid.pageNo);
      if status == OK {
        Lower();
        PoolSound();
        curRec := rid;
      }
    }

    /** HeapFile::getRecord: if the page of the record is not the current one, the current one is
        unpinned and the other read in its place. */
    method GetRecordAt(rid: RID) returns (status: Status, rec: Rec)
      requires Open() && HeapOK(View()) && SlotThere(HeapOf(View()), rid)
      modifies this`curPage, this`curPageNo, this`touched, this`curDirtyFlag, this`curRec
      modifies bm, bm.bufTable, bm.hashTable, bm.hashTable.ht, bm.hashTable.Repr, bm.disk, bm.mems
      ensures fresh(bm.hashTable.Repr - old(bm.hashTable.Repr)) && bm.Valid()
      ensures bm.Abs() == if rid.pageNo == old(curPageNo) then old(bm.Abs())
        else TurnedTo(old(bm.Abs()), filePtr, old(curPageNo), old(curDirtyFlag), rid.pageNo)
      ensures var q := AfterUnPin(old(bm.Abs()), Key(filePtr, old(curPageNo)), old(curDirtyFlag), false);
        if rid.pageNo != old(curPageNo) && ReadStatus(q, Key(filePtr, rid.pageNo)) != OK then status == BUFFEREXCEEDED
        else status == if LiveThere(old(HeapOf(View())), rid) then OK else INVALIDSLOTNO
      ensures status == OK ==> rec == RecordAt(old(HeapOf(View())), rid)
      ensures status != BUFFEREXCEEDED ==> Open() && View() == old(View()) && curPageNo == rid.pageNo && Spares()
      ensures status != BUFFEREXCEEDED ==> PoolNow() == bm.Abs()
      ensures status != BUFFEREXCEEDED && !old(curDirtyFlag) ==> touched == old(touched)
      ensures status != BUFFEREXCEEDED ==>
        if rid.pageNo == old(curPageNo) then curRec == old(curRec) && curDirtyFlag == old(curDirtyFlag)
        else curRec == rid && !curDirtyFlag
    {
      hide ChainedHash.HashTable.Valid, BufMgr.Valid, BufMgr.Wired, BufMgr.Abs, Inv, HeapInv, HeapOf, HeapFile.Open;
      hide HeapFile.View, HeapFile.Sole, HeapFile.PoolNow, LeavesOthers, Anchored, ViewOf, TurnedTo, AfterUnPin;
      hide ReadStatus, SlotThere, LiveThere, RecordAt, Described;
      PoolSound();
      LeavesSelf(PoolNow(), touched, filePtr);
      if rid.pageNo != curPageNo {
        status := TurnToPageOf(rid);
        if status != OK {
          return status, [];
        }
      }
      status, rec := RecordHere(rid, HeapOf(View()));
    }

    // ----- Changing the file -----

    /** The page of the file that the client works on: the header page or the current one. */
    ghost function Held(header: bool): Page
      reads `headerPage, `curPage
    {
      if header then headerPage else curPage
    }

    /** Of the pool, only the bytes of one of the two pinned pages have changed. */
    twostate predicate OnlyBytesOf(header: bool)
      reads this, bm, bm.bufTable, bm.hashTable, bm.hashTable.ht, bm.hashTable.Repr, bm.disk
      reads set i | 0 <= i < |bm.bufPool| :: bm.bufPool[i].mem
    {
      && curPage == old(curPage) && headerPage == old(headerPage) && curPageNo == old(curPageNo)
      && unchanged(bm) && unchanged(bm.bufTable) && unchanged(bm.hashTable) && unchanged(bm.hashTable.ht)
      && unchanged(bm.hashTable.Repr) && unchanged(bm.disk)
      && forall j :: 0 <= j < |bm.bufPool| && bm.bufPool[j].mem != Held(header).mem ==> unchanged(bm.bufPool[j].mem)
    }

    /** The client has changed one of its two pinned pages, raised the flag and noted it. */
    twostate lemma Edited(header: bool)
      requires old(Open()) && OnlyBytesOf(header)
      requires if header then hdrDirtyFlag else curDirtyFlag
      requires old(hdrDirtyFlag) ==> hdrDirtyFlag
      requires old(curDirtyFlag) ==> curDirtyFlag
      requires touched == old(touched) + {Key(filePtr, if header then HEADER else curPageNo)}
      requires Held(header).mem.Length == PAGESIZE
      ensures Open() && View() == old(View())[if header then HEADER else curPageNo := Held(header).mem[..]]
      ensures old(Sole()) ==> Sole()
      ensures Spares()
    {
      hide ChainedHash.HashTable.Valid, Inv, Anchored, BufMgr.Wired, BufMgr.Abs, ViewOf, Written, LeavesOthers;
      ghost var p := old(bm.Abs());
      var n := if header then HEADER else curPageNo;
      var i := p.index[Key(filePtr, n)];
      RaiseFlags(p, filePtr, old(touched), old(hdrDirtyFlag), curPageNo, old(curDirtyFlag), hdrDirtyFlag, curDirtyFlag);
      WritePinned(p, filePtr, old(touched), hdrDirtyFlag, curPageNo, curDirtyFlag, n, Held(header).mem[..]);
      WriteOwnLeaves(p, filePtr, old(touched), old(hdrDirtyFlag), curPageNo, old(curDirtyFlag), n,
        Held(header).mem[..]);
      WrittenParts(p, i, Held(header).mem[..]);
      bm.FrameChanged(i);
    }

    /** While this object was left alone, obedient clients have used the pool for other files.
        The scan stands where it stood, and has ahead what it had ahead. */
    twostate lemma OthersRan(free: FreePages, es: seq<Event>)
      requires old(Valid()) && bm.Valid() && old(Inv(bm.Abs())) && old(ObeysRun(bm.Abs(), touched, free, es))
      requires old(ListsOK(bm.Abs(), free))
      requires forall i :: 0 <= i < |es| ==> Elsewhere(es[i], filePtr)
      requires bm.Abs() == old(Run(bm.Abs(), es)) && touched == old(RunTouched(bm.Abs(), touched, es))
      requires headerPage == old(headerPage) && curPage == old(curPage) && curPageNo == old(curPageNo)
      requires curIdx == old(curIdx)
      requires hdrDirtyFlag == old(hdrDirtyFlag) && curDirtyFlag == old(curDirtyFlag) && curRec == old(curRec)
      requires filter == old(filter)
      ensures Valid() && View() == old(View()) && Contents() == old(Contents()) && Ahead() == old(Ahead())
      ensures old(Sole()) ==> Sole()
    {
      hide ChainedHash.HashTable.Valid, Inv, BufMgr.Wired, BufMgr.Abs, ViewOf, HeapOK, HeapOf, EntriesFrom, Run;
      hide RunTouched, ObeysRun, ListsOK, Elsewhere, Coherent;
      RunElsewhere(old(bm.Abs()), filePtr, old(touched), free, hdrDirtyFlag, curPageNo, curDirtyFlag, es);
      SameUsers(old(bm.Abs()), bm.Abs(), filePtr);
    }

    /** While this object was left alone, the pool went on through an object for another file.  The
        scan stands where it stood, and sees and may insert what it did. */
    twostate lemma Undisturbed(f: FileRef)
      requires old(Valid()) && bm.Valid() && f != filePtr
      requires LeavesOthers(old(bm.Abs()), old(touched), bm.Abs(), touched, f)
      requires headerPage == old(headerPage) && curPage == old(curPage) && curPageNo == old(curPageNo)
      requires curIdx == old(curIdx)
      requires hdrDirtyFlag == old(hdrDirtyFlag) && curDirtyFlag == old(curDirtyFlag) && curRec == old(curRec)
      requires filter == old(filter)
      ensures Valid() && View() == old(View()) && Contents() == old(Contents()) && Ahead() == old(Ahead())
      ensures Insertion() == old(Insertion()) && (old(Sole()) ==> Sole())
      ensures old(AtRecord()) ==> AtRecord() && CurrentEntry() == old(CurrentEntry())
    {
      hide ChainedHash.HashTable.Valid, Inv, BufMgr.Wired, BufMgr.Abs, ViewOf, HeapOK, HeapOf, EntriesFrom, Coherent;
      hide Anchored, Alone;
      assert SameTo(old(bm.Abs()), bm.Abs(), touched, filePtr, hdrDirtyFlag, curPageNo, curDirtyFlag);
      SameUsers(old(bm.Abs()), bm.Abs(), filePtr);
      SameViewSize(old(bm.Abs()), bm.Abs(), filePtr);
    }

    /** While this object was left alone, its file has stayed where and what it was. */
    twostate lemma StillOpen()
      requires old(Open()) && bm.Valid()
      requires SeesSame(old(bm.Abs()), bm.Abs(), touched, filePtr, hdrDirtyFlag, curPageNo, curDirtyFlag)
      requires headerPage == old(headerPage) && curPage == old(curPage) && curPageNo == old(curPageNo)
      requires hdrDirtyFlag == old(hdrDirtyFlag) && curDirtyFlag == old(curDirtyFlag)
      ensures Open() && View() == old(View()) && PoolNow() == bm.Abs() && old(PoolNow() == bm.Abs())
      ensures FileSize() == old(FileSize())
    {
      hide ChainedHash.HashTable.Valid, Inv, BufMgr.Wired, BufMgr.Abs, ViewOf, Coherent, Anchored;
      OpenInv();
      SameViewSize(old(bm.Abs()), bm.Abs(), filePtr);
    }

    lemma OpenInv()
      requires bm.Valid() && Anchored(bm.Abs(), filePtr, touched, hdrDirtyFlag, curPageNo, curDirtyFlag)
      ensures Inv(bm.Abs()) && filePtr in bm.Abs().disk && bm.Wired()
    {
    }

    /** The scan stands where it stood, and has ahead what it had ahead. */
    twostate lemma StillPositioned()
      requires old(Valid()) && Open() && View() == old(View()) && FileSize() == old(FileSize())
      requires curIdx == old(curIdx) && curPageNo == old(curPageNo) && curRec == old(curRec) && filter == old(filter)
      ensures Valid() && Contents() == old(Contents()) && Ahead() == old(Ahead()) && Insertion() == old(Insertion())
      ensures old(AtRecord()) ==> AtRecord() && CurrentEntry() == old(CurrentEntry())
    {
      hide ChainedHash.HashTable.Valid, Inv, BufMgr.Wired, BufMgr.Abs, HeapFile.Open, HeapFile.View, HeapFile.FileSize;
      hide HeapOK, HeapOf, EntriesFrom;
    }

    /** A call that was refused has changed nothing. */
    twostate lemma Refused()
      requires old(Open()) && OnlyBytesOf(false) && curPage.mem[..] == old(curPage.mem[..])
      requires hdrDirtyFlag == old(hdrDirtyFlag) && curDirtyFlag == old(curDirtyFlag) && touched == old(touched)
      ensures Open() && View() == old(View())
      ensures old(Sole()) ==> Sole()
      ensures Spares()
    {
      hide ChainedHash.HashTable.Valid, Inv, Anchored, ViewOf, LeavesOthers;
      ghost var p := old(bm.Abs());
      var i := p.index[Key(filePtr, curPageNo)];
      LeavesSelf(p, touched, filePtr);
      bm.FrameChanged(i);
      assert p.mem[i] == curPage.mem[..];
      assert p.mem[i := p.mem[i]] == p.mem;
    }

    /** Page::deleteRecord on the current page, which is marked dirty. */
    method DeleteOnPage() returns (status: Status)
      requires Valid() && curRec != NULLRID
      modifies curPage.mem, `curDirtyFlag, `touched
      ensures status == OK ==> Erased(old(curPage.mem[..]), curPage.mem[..], curRec.slotNo)
      ensures status in {OK, INVALIDSLOTNO} && Open() && (old(Sole()) ==> Sole())
      ensures status == OK ==> View() == old(View())[curPageNo := curPage.mem[..]]
      ensures status != OK ==> View() == old(View()) && !old(AtRecord())
      ensures Spares()
      ensures RecordCount() == old(RecordCount())
    {
      hide CountIn;
      hide HeapFile.PoolNow, LeavesOthers;
      hide ChainedHash.HashTable.Valid, BufMgr.Valid, BufMgr.Wired, BufMgr.Abs, Inv, HeapOK, HeapFile.Open;
      hide HeapFile.View, HeapFile.Sole;
      hide WF, Sound, Slots, PageLayout.CurPage, PageLayout.NextPage;
      Current();
      CurrentNo();
      status := curPage.DeleteRecord(curRec);
      if status == OK {
        curDirtyFlag := true;
        touched := touched + {Key(filePtr, curPageNo)};
        Edited(false);
        CountElsewhere(old(View()), curPageNo, curPage.mem[..]);
      } else {
        Refused();
      }
    }

    /** Adds one to the record count of the header page, which wraps around as a C int. */
    method CountRecord()
      requires Open()
      modifies headerPage.mem, `hdrDirtyFlag, `touched
      ensures Open() && View() == old(View())[HEADER := headerPage.mem[..]] && hdrDirtyFlag
      ensures |old(headerPage.mem[..])| == PAGESIZE && Counted(old(headerPage.mem[..]), headerPage.mem[..])
      ensures old(Sole()) ==> Sole()
      ensures Spares()
      ensures RecordCount() == Wrap32(old(RecordCount()) + 1)
    {
      hide HeapFile.PoolNow, LeavesOthers;
      hide ChainedHash.HashTable.Valid, BufMgr.Valid, BufMgr.Wired, BufMgr.Abs, Inv, HeapFile.Open, HeapFile.View;
      hide HeapFile.Sole, PutInt;
      PinnedPages();
      HeaderCount();
      ghost var n := Wrap32(headerPage.Int(RECCNT) + 1);
      headerPage.SetInt(RECCNT, Wrap32(headerPage.Int(RECCNT) + 1));
      assert CountedTo(old(headerPage.mem[..]), headerPage.mem[..], n);
      hdrDirtyFlag := true;
      touched := touched + {Key(filePtr, HEADER)};
      Edited(true);
    }

    /** HeapFileScan::deleteRecord: the record under the cursor leaves the file, and the scan
        goes on as it would have.  The code adds one to the record count. */
    method DeleteRecord() returns (status: Status)
      requires Valid()
      modifies curPage.mem, headerPage.mem, `curDirtyFlag, `hdrDirtyFlag, `touched
      ensures status == if curRec == NULLRID then BADPAGENO else if old(AtRecord()) then OK else INVALIDSLOTNO
      ensures Valid() && (old(Sole()) ==> Sole())
      ensures status != OK ==> View() == old(View())
      ensures status == OK ==> Contents() == DeletedAt(old(Contents()), curIdx, curRec.slotNo)
      ensures status == OK ==> Ahead() == old(Ahead())
      ensures RecordCount() == if status == OK then Wrap32(old(RecordCount()) + 1) else old(RecordCount())
      ensures Spares()
      ensures status == OK && old(CountRight()) ==> !CountRight()
    {
      hide AllEntries;
      hide CountIn, Wrap32;
      hide HeapFile.PoolNow, LeavesOthers;
      hide ChainedHash.HashTable.Valid, BufMgr.Valid, BufMgr.Wired, BufMgr.Abs, Inv, HeapFile.Open, HeapFile.View;
      hide HeapFile.Sole;
      hide HeapInv, Described, HeapOf, HeapOK, Positioned, Counted, EntriesFrom, DeletedAt, WF, Sound, Slots, Deleted;
      Current();
      PinnedPages();
      ghost var v := View();
      if curRec.pageNo != curPageNo {
        LeavesSelf(PoolNow(), touched, filePtr);
        return BADPAGENO;
      }
      DeleteCounts(Contents(), curIdx, curRec.slotNo);
      status := DeleteOnPage();
      if status != OK {
        return;
      }
      ghost var q, t := PoolNow(), touched;
      CountRecord();
      LeavesTrans(old(PoolNow()), old(touched), q, t, PoolNow(), touched, filePtr);
      DeletedView(v, curIdx, curPageNo, curRec, curPage.mem[..], headerPage.mem[..]);
    }

    // ----- Inserting -----

    /** The free space that the directory promises for the current page. */
    lemma CurrentSpace()
      requires Valid()
      ensures headerPage.mem.Length == PAGESIZE && 0 <= curIdx < DIRCNT
      ensures headerPage.Int(PAGES + 4 + 8 * curIdx) == Contents()[curIdx].space
    {
      hide ChainedHash.HashTable.Valid, Inv, Anchored, BufMgr.Wired, BufMgr.Abs, ViewOf, WF, Slots, HeapFile.Open;
      hide IntOf, HeapInv;
      PinnedPages();
      HeapAt(View(), curIdx);
    }

    /** Unpins the current page and allocates a page in its place. */
    method UnPinAndAlloc() returns (status: Status, pageNo: int, index: int)
      requires Open() && Sole() && FileSize() < MAXPAGES
      modifies bm, bm.bufTable, bm.hashTable, bm.hashTable.ht, bm.hashTable.Repr, bm.disk, bm.mems
      ensures fresh(bm.hashTable.Repr - old(bm.hashTable.Repr)) && bm.Valid() && bm.Wired()
      ensures bm.Abs() == TurnedToNew(old(bm.Abs()), filePtr, curPageNo, curDirtyFlag)
      ensures status == OK && pageNo == old(FileSize())
      ensures Key(filePtr, pageNo) in bm.Abs().index && index == bm.Abs().index[Key(filePtr, pageNo)]
    {
      hide ChainedHash.HashTable.Valid, Inv, Anchored, BufMgr.Wired, Alone, AfterUnPin, AfterAlloc, AllocStatus;
      hide CanAllocate, Announced;
      AllocReady(bm.Abs(), filePtr, touched, hdrDirtyFlag, curPageNo, curDirtyFlag);
      status := bm.UnPinPage(filePtr, curPageNo, curDirtyFlag, false);
      status, pageNo, index := bm.AllocPage(filePtr);
    }

    /** What makes an open file. */
    lemma Reopened()
      requires bm.Valid() && Anchored(bm.Abs(), filePtr, touched, hdrDirtyFlag, curPageNo, curDirtyFlag)
      requires FrameHolds(bm, Key(filePtr, HEADER), headerPage) && FrameHolds(bm, Key(filePtr, curPageNo), curPage)
      ensures Open() && View() == ViewOf(bm.Abs(), filePtr) && FileSize() == |bm.Abs().disk[filePtr]|
      ensures PoolNow() == bm.Abs()
      ensures Alone(bm.Abs(), filePtr, curPageNo) ==> Sole()
    {
    }

    /** Makes a page just allocated the current one.  It counts as dirty from the start, since
        its bytes are stale. */
    method TurnToNew() returns (status: Status)
      requires Open() && Sole() && FileSize() < MAXPAGES
      modifies this`curPage, this`curPageNo, this`curDirtyFlag, this`touched
      modifies bm, bm.bufTable, bm.hashTable, bm.hashTable.ht, bm.hashTable.Repr, bm.disk, bm.mems
      ensures fresh(bm.hashTable.Repr - old(bm.hashTable.Repr))
      ensures status == OK && Open() && Sole() && curDirtyFlag
      ensures curPageNo == old(FileSize()) && curPageNo !in old(View())
      ensures curPageNo in View() && View() == old(View())[curPageNo := View()[curPageNo]]
      ensures FileSize() == curPageNo + 1
      ensures Spares()
      ensures RecordCount() == old(RecordCount())
    {
      hide HeapFile.PoolNow, LeavesOthers;
      hide ChainedHash.HashTable.Valid, Inv, Anchored, BufMgr.Wired, BufMgr.Abs, Alone, TurnedToNew, Announced, ViewOf;
      hide BufMgr.Valid;
      hide HeapFile.Open, HeapFile.View, HeapFile.Sole;
      ghost var p := TurnFacts();
      var pageNo, index;
      status, pageNo, index := UnPinAndAlloc();
      bm.FrameOfPage(Key(filePtr, pageNo));
      ghost var t := Announced(touched, Key(filePtr, curPageNo), curDirtyFlag) + {Key(filePtr, pageNo)};
      curDirtyFlag := true;
      Adopt(pageNo, bm.bufPool[index], t);
      CurrentNo();
      CountElsewhere(old(View()), pageNo, View()[pageNo]);
    }

    lemma TurnFacts() returns (p: Pool)
      requires Open() && Sole() && FileSize() < MAXPAGES
      ensures bm.Wired() && p == bm.Abs() && Inv(p) && filePtr in p.disk && View() == ViewOf(p, filePtr)
      ensures var r := TurnedToNew(p, filePtr, curPageNo, curDirtyFlag); var no := |p.disk[filePtr]|;
        && Anchored(r, filePtr, Announced(touched, Key(filePtr, curPageNo), curDirtyFlag) + {Key(filePtr, no)},
             hdrDirtyFlag, no, true)
        && Alone(r, filePtr, no) && |r.disk[filePtr]| == no + 1
        && Inv(r) && filePtr in r.disk && no in ViewOf(r, filePtr) && no !in View()
        && ViewOf(r, filePtr) == View()[no := ViewOf(r, filePtr)[no]]
        && Pinned(r, Key(filePtr, HEADER)) && 0 <= r.index[Key(filePtr, HEADER)] < |bm.bufPool|
        && |r.upl| == |p.upl| && headerPage == bm.bufPool[r.index[Key(filePtr, HEADER)]]
      ensures PoolNow() == p && LeavesOthers(p, touched, TurnedToNew(p, filePtr, curPageNo, curDirtyFlag),
        Announced(touched, Key(filePtr, curPageNo), curDirtyFlag) + {Key(filePtr, |p.disk[filePtr]|)}, filePtr)
    {
      hide ChainedHash.HashTable.Valid, Inv, Anchored, BufMgr.Wired, BufMgr.Abs, Alone, TurnedToNew, Announced, ViewOf;
      hide LeavesOthers;
      p := bm.Abs();
      PinnedPages();
      AllocTurn(p, filePtr, touched, hdrDirtyFlag, curPageNo, curDirtyFlag);
      NewKeepsCount(p, filePtr, touched, hdrDirtyFlag, curPageNo, curDirtyFlag);
      NewLeaves(p, filePtr, touched, hdrDirtyFlag, curPageNo, curDirtyFlag);
      AllocTurnView(p, filePtr, touched, hdrDirtyFlag, curPageNo, curDirtyFlag);
    }

    /** Page::init on the current page. */
    method InitPage()
      requires Open() && curDirtyFlag && curPageNo <= MAXPAGES
      modifies curPage.mem, `touched
      ensures Open() && (old(Sole()) ==> Sole()) && View() == old(View())[curPageNo := curPage.mem[..]]
      ensures Blank(curPage.mem[..], curPageNo)
      ensures Spares()
      ensures RecordCount() == old(RecordCount())
    {
      hide HeapFile.PoolNow, LeavesOthers;
      hide ChainedHash.HashTable.Valid, BufMgr.Valid, BufMgr.Wired, BufMgr.Abs, Inv, HeapFile.Open, HeapFile.View;
      hide HeapFile.Sole;
      hide WF, Sound, Slots;
      PinnedPages();
      CurrentNo();
      curPage.Init(curPageNo);
      touched := touched + {Key(filePtr, curPageNo)};
      Edited(false);
      CountElsewhere(old(View()), curPageNo, curPage.mem[..]);
    }

    lemma CurrentNo()
      requires Open()
      ensures 2 <= curPageNo
    {
      hide ChainedHash.HashTable.Valid, Inv, Anchored, BufMgr.Wired, BufMgr.Abs;
      PinnedPages();
    }

    /** Enters the current page, the new one, at the end of the directory. */
    method EnterPage()
      requires Open() && curPageNo <= MAXPAGES && Blank(curPage.mem[..], curPageNo)
      requires |headerPage.mem[..]| == PAGESIZE && 0 <= curIdx == PageCnt(headerPage.mem[..]) < DIRCNT
      modifies headerPage.mem, `hdrDirtyFlag, `touched
      ensures Open() && (old(Sole()) ==> Sole()) && View() == old(View())[HEADER := headerPage.mem[..]]
      ensures OneMoreEntry(old(headerPage.mem[..]), headerPage.mem[..], curPageNo, REGION)
      ensures Spares()
      ensures RecordCount() == old(RecordCount())
    {
      hide CountIn;
      hide HeapFile.PoolNow, LeavesOthers;
      hide ChainedHash.HashTable.Valid, BufMgr.Valid, BufMgr.Wired, BufMgr.Abs, Inv, HeapFile.Open, HeapFile.View;
      hide HeapFile.Sole;
      hide WF, Sound, Slots, PutInt, IntOf, OneMoreEntry;
      PinnedPages();
      HeaderCount();
      CurrentNo();
      BlankRoom(curPage.mem[..], curPageNo);
      PutEntry(headerPage.mem[..], curPageNo, REGION);
      headerPage.SetInt(PAGECNT, headerPage.Int(PAGECNT) + 1);
      headerPage.SetInt(PAGES + 8 * curIdx, curPageNo);
      var freeSpace := curPage.GetFreeSpace();
      headerPage.SetInt(PAGES + 4 + 8 * curIdx, freeSpace);
      hdrDirtyFlag := true;
      touched := touched + {Key(filePtr, HEADER)};
      Edited(true);
      CountInHeader(old(View()), headerPage.mem[..]);
    }

    /** The new page initialised, and entered in the directory. */
    method StartPage()
      requires Open() && curDirtyFlag && curPageNo <= MAXPAGES
      requires HEADER in View() && 0 <= curIdx < DIRCNT && |View()[HEADER]| == PAGESIZE
      requires PageCnt(View()[HEADER]) == curIdx
      modifies curPage.mem, headerPage.mem, `hdrDirtyFlag, `touched
      ensures Open() && (old(Sole()) ==> Sole())
      ensures View() == old(View())[curPageNo := curPage.mem[..]][HEADER := headerPage.mem[..]]
      ensures OneMoreEntry(old(View()[HEADER]), headerPage.mem[..], curPageNo, REGION)
      ensures Blank(curPage.mem[..], curPageNo)
      ensures Spares()
      ensures RecordCount() == old(RecordCount())
    {
      hide HeapFile.PoolNow, LeavesOthers;
      hide ChainedHash.HashTable.Valid, BufMgr.Valid, BufMgr.Wired, BufMgr.Abs, Inv, HeapFile.Open, HeapFile.View;
      hide HeapFile.Sole;
      hide OneMoreEntry, Blank, IntAt;
      PinnedPages();
      InitPage();
      ghost var q, t := PoolNow(), touched;
      EnterPage();
      LeavesTrans(old(PoolNow()), old(touched), q, t, PoolNow(), touched, filePtr);
    }

    /** The new page initialised and entered in the directory, `v` being the file without it. */
    method EnterNew(ghost v: FileView)
      requires Open() && Sole() && curDirtyFlag && HeapOK(v) && curIdx + 1 == |HeapOf(v)| < DIRCNT
      requires ConditionOK(filter)
      requires curPageNo !in v && curPageNo in View() && View() == v[curPageNo := View()[curPageNo]]
      requires HEADER in v && FileSize() == curPageNo + 1 <= MAXPAGES + 1
      modifies `touched, `curIdx, `curRec, `hdrDirtyFlag, bm.mems
      ensures Valid() && Sole() && curIdx == old(curIdx) + 1 && FileSize() == old(FileSize())
      ensures Contents() == HeapOf(v) + [NewPage(curPageNo)]
      ensures Spares()
      ensures RecordCount() == old(RecordCount())
    {
      hide ChainedHash.HashTable.Valid, BufMgr.Valid, BufMgr.Wired, BufMgr.Abs, Inv, Positioned, HeapOK, HeapOf;
      hide HeapInv, Described, IntAt;
      hide HeapFile.Open, HeapFile.View, HeapFile.Sole, HeapFile.FileSize, OneMoreEntry, Blank, LiveBytes, FrameHolds;
      hide HeapFile.PoolNow, LeavesOthers;
      FileEnd();
      curRec := NULLRID;
      curIdx := curIdx + 1;
      PinnedPages();
      CurrentNo();
      ghost var size := FileSize();
      HeapSize(v);
      StartPage();
      FileEnd();
      SameEnd(View(), size, FileSize());
      AddedView(v, curPageNo, curPage.mem[..], headerPage.mem[..]);
      assert View() == v[curPageNo := curPage.mem[..]][HEADER := headerPage.mem[..]];
    }

    /** The part of insertRecord that adds a page to the file. */
    method AppendPage() returns (status: Status)
      requires Valid() && Sole() && curIdx + 1 == |Contents()| < DIRCNT && FileSize() < MAXPAGES
      modifies this`curPage, this`curPageNo, this`curDirtyFlag, this`touched, this`curIdx, this`curRec
      modifies this`hdrDirtyFlag
      modifies bm, bm.bufTable, bm.hashTable, bm.hashTable.ht, bm.hashTable.Repr, bm.disk, bm.mems
      ensures fresh(bm.hashTable.Repr - old(bm.hashTable.Repr))
      ensures status == OK && Valid() && Sole() && curIdx == old(|Contents()|) && FileSize() == old(FileSize()) + 1
      ensures Contents() == old(Contents()) + [NewPage(old(FileSize()))]
      ensures Spares()
      ensures RecordCount() == old(RecordCount())
    {
      hide ChainedHash.HashTable.Valid, BufMgr.Valid, BufMgr.Wired, BufMgr.Abs, Inv, HeapFile.Open, HeapFile.View;
      hide HeapFile.Sole;
      hide Positioned, HeapOK, HeapOf, HeapInv, Described, IntAt, HeapFile.FileSize, HeapFile.PoolNow, LeavesOthers;
      ghost var v := View();
      DirectoryEnd();
      status := TurnToNew();
      ghost var q, t := PoolNow(), touched;
      EnterNew(v);
      LeavesTrans(old(PoolNow()), old(touched), q, t, PoolNow(), touched, filePtr);
    }

    lemma DirectoryEnd()
      requires Valid()
      ensures HEADER in View() && |View()[HEADER]| == PAGESIZE && PageCnt(View()[HEADER]) == |Contents()|
      ensures HeapOK(View()) && Contents() == HeapOf(View()) && 0 <= curIdx && ConditionOK(filter)
    {
    }

    /** Page::insertRecord on the current page, which has the room; the page is marked dirty. */
    method InsertOnPage(rec: Rec) returns (status: Status, rid: RID)
      requires Valid() && 1 <= |rec|
      requires InsertCost(Contents()[curIdx].slots, rec) <= Room(Contents()[curIdx].slots)
      modifies curPage.mem, `curDirtyFlag, `touched
      ensures status == OK && rid == RID(curPageNo, LeastFree(old(Contents())[curIdx].slots))
      ensures Open() && (old(Sole()) ==> Sole()) && View() == old(View())[curPageNo := curPage.mem[..]]
      ensures Extended(old(curPage.mem[..]), curPage.mem[..], rec)
      ensures Spares()
      ensures RecordCount() == old(RecordCount())
    {
      hide HeapFile.PoolNow, LeavesOthers;
      hide ChainedHash.HashTable.Valid, BufMgr.Valid, BufMgr.Wired, BufMgr.Abs, Inv, HeapFile.Open, HeapFile.View;
      hide HeapFile.Sole;
      hide WF, Sound, Slots, Inserted, InsertCost, LeastFree, Room, HeapInv;
      Current();
      CurrentNo();
      status, rid := curPage.InsertRecord(rec);
      curDirtyFlag := true;
      touched := touched + {Key(filePtr, curPageNo)};
      Edited(false);
      CountElsewhere(old(View()), curPageNo, curPage.mem[..]);
    }

    /** Brings the directory entry of the current page and the record count up to date. */
    method Settle(freeSpace: int)
      requires Open() && 0 <= curIdx < DIRCNT && 0 <= freeSpace <= REGION
      modifies headerPage.mem, `hdrDirtyFlag, `touched
      ensures Settled(old(headerPage.mem[..]), headerPage.mem[..], curIdx, freeSpace)
      ensures Open() && (old(Sole()) ==> Sole()) && View() == old(View())[HEADER := headerPage.mem[..]]
      ensures Spares()
      ensures RecordCount() == Wrap32(old(RecordCount()) + 1)
    {
      hide HeapFile.PoolNow, LeavesOthers;
      hide ChainedHash.HashTable.Valid, BufMgr.Valid, BufMgr.Wired, BufMgr.Abs, Inv, HeapFile.Open, HeapFile.View;
      hide HeapFile.Sole;
      hide PutInt, IntOf, Settled, CountIn;
      PinnedPages();
      HeaderCount();
      headerPage.SetInt(PAGES + 4 + 8 * curIdx, freeSpace);
      ghost var h := headerPage.mem[..];
      headerPage.SetInt(RECCNT, Wrap32(headerPage.Int(RECCNT) + 1));
      SettledCount(old(headerPage.mem[..]), h, headerPage.mem[..], curIdx, freeSpace);
      hdrDirtyFlag := true;
      touched := touched + {Key(filePtr, HEADER)};
      Edited(true);
      CountInHeader(old(View()), headerPage.mem[..]);
    }

    /** The cursor on record `rid` of the current page. */
    method Land(rid: RID)
      requires Open() && Positioned(View(), curIdx, curPageNo, rid) && ConditionOK(filter)
      modifies `curRec
      ensures Valid() && curRec == rid
      ensures View() == old(View()) && PoolNow() == old(PoolNow()) && FileSize() == old(FileSize())
      ensures old(Sole()) ==> Sole()
    {
      hide ChainedHash.HashTable.Valid, Inv, Anchored, BufMgr.Wired, BufMgr.Abs, Alone, BufMgr.Valid, Positioned;
      hide HeapFile.Open, HeapFile.View, HeapFile.Sole, HeapFile.PoolNow, HeapFile.FileSize;
      curRec := rid;
    }

    /** The record put on the current page, and the directory brought up to date. */
    method InsertAndSettle(rec: Rec) returns (status: Status, rid: RID)
      requires Valid() && 1 <= |rec|
      requires InsertCost(Contents()[curIdx].slots, rec) <= Room(Contents()[curIdx].slots)
      modifies curPage.mem, headerPage.mem, `curDirtyFlag, `hdrDirtyFlag, `touched
      ensures status == OK && rid == RID(curPageNo, LeastFree(old(Contents())[curIdx].slots))
      ensures Open() && (old(Sole()) ==> Sole())
      ensures View() == old(View())[curPageNo := curPage.mem[..]][HEADER := headerPage.mem[..]]
      ensures Extended(old(curPage.mem[..]), curPage.mem[..], rec) && 0 <= curIdx < DIRCNT
      ensures Settled(old(headerPage.mem[..]), headerPage.mem[..], curIdx,
        Room(Inserted(old(Contents())[curIdx].slots, rec)))
      ensures Spares()
      ensures RecordCount() == Wrap32(old(RecordCount()) + 1)
    {
      hide HeapFile.PoolNow, LeavesOthers;
      hide ChainedHash.HashTable.Valid, BufMgr.Valid, BufMgr.Wired, BufMgr.Abs, Inv, HeapFile.Open, HeapFile.View;
      hide HeapFile.Sole;
      hide WF, Sound, Slots, Inserted, InsertCost, LeastFree, Room, Settled, HeapOK, Described, HeapOf, PutOn;
      hide HeapFile.Valid, HeapFile.Contents, HeapFile.RecordCount, Positioned;
      Current();
      CurrentSpace();
      PinnedPages();
      status, rid := InsertOnPage(rec);
      Bounds(curPage.mem[..]);
      var freeSpace := curPage.GetFreeSpace();
      ghost var q, t := PoolNow(), touched;
      Settle(freeSpace);
      LeavesTrans(old(PoolNow()), old(touched), q, t, PoolNow(), touched, filePtr);
    }

    /** Where the scan stands, as the view of its file shows it. */
    lemma StandsOn()
      requires Valid()
      ensures Open() && ConditionOK(filter) && 0 <= curIdx < DIRCNT && PagesUpTo(View(), FileSize()) && 2 <= FileSize()
      ensures Positioned(View(), curIdx, curPageNo, curRec) && Contents() == HeapOf(View())
      ensures curPageNo in View() && View()[curPageNo] == curPage.mem[..]
      ensures HEADER in View() && View()[HEADER] == headerPage.mem[..]
    {
      hide ChainedHash.HashTable.Valid, BufMgr.Wired, BufMgr.Abs, Inv, HeapFile.Open, HeapFile.View, HeapFile.FileSize;
      hide HeapOK, Described, HeapOf, Positioned;
      CurrentSpace();
      PinnedPages();
      FileEnd();
    }

    /** The part of insertRecord that puts the record on the page found for it. */
    method InsertHere(rec: Rec) returns (status: Status, outRid: RID)
      requires Valid() && 1 <= |rec|
      requires InsertCost(Contents()[curIdx].slots, rec) <= Room(Contents()[curIdx].slots)
      modifies curPage.mem, headerPage.mem, `curDirtyFlag, `hdrDirtyFlag, `touched, `curRec
      ensures status == OK && Valid() && (old(Sole()) ==> Sole())
      ensures outRid == curRec == RID(curPageNo, LeastFree(old(Contents())[curIdx].slots))
      ensures Contents() == old(Contents())[curIdx := PutOn(old(Contents())[curIdx], rec)]
      ensures FileSize() == old(FileSize())
      ensures Spares()
      ensures RecordCount() == Wrap32(old(RecordCount()) + 1)
    {
      hide HeapFile.PoolNow, LeavesOthers;
      hide ChainedHash.HashTable.Valid, BufMgr.Valid, BufMgr.Wired, BufMgr.Abs, Inv, HeapFile.Open, HeapFile.View;
      hide HeapFile.Sole;
      hide WF, Sound, Slots, Inserted, InsertCost, LeastFree, Room, Settled, HeapOK, Described, HeapOf, PutOn;
      hide HeapFile.FileSize;
      StandsOn();
      ghost var v := View();
      status, outRid := InsertAndSettle(rec);
      InsertedView(v, curIdx, curPageNo, outRid, curPage.mem[..], headerPage.mem[..], rec);
      Land(outRid);
      FileEnd();
      SameEnd(View(), FileSize(), old(FileSize()));
    }

    /** One round of the loop of insertRecord: on to the next page of the directory, or to a page
        added after the last. */
    method WalkOn() returns (status: Status, added: bool)
      requires Valid() && Sole() && |Contents()| < DIRCNT && FileSize() < MAXPAGES
      modifies this`curPage, this`curPageNo, this`curDirtyFlag, this`touched, this`curIdx, this`curRec
      modifies this`hdrDirtyFlag
      modifies bm, bm.bufTable, bm.hashTable, bm.hashTable.ht, bm.hashTable.Repr, bm.disk, bm.mems
      ensures fresh(bm.hashTable.Repr - old(bm.hashTable.Repr))
      ensures status == OK && Valid() && Sole() && curIdx == old(curIdx) + 1 && (added <==> curIdx == old(|Contents()|))
      ensures Contents() == if added then old(Contents()) + [NewPage(old(FileSize()))] else old(Contents())
      ensures FileSize() == old(FileSize()) + if added then 1 else 0
      ensures Spares()
      ensures RecordCount() == old(RecordCount())
    {
      hide HeapFile.PoolNow, LeavesOthers;
      hide ChainedHash.HashTable.Valid, BufMgr.Valid, BufMgr.Wired, BufMgr.Abs, Inv, HeapFile.Open, HeapFile.View;
      hide HeapFile.Sole;
      hide HeapOK, Described, HeapOf, HeapInv, HeapFile.FileSize;
      CursorInside();
      PoolSound();
      LastEntry();
      FileEnd();
      added := headerPage.Int(PAGES + 8 * (curIdx + 1)) == -1;
      if added {
        status := AppendPage();
      } else {
        status := TurnTo(curIdx + 1);
        FileEnd();
        SameEnd(View(), FileSize(), old(FileSize()));
      }
    }

    /** The loop test of insertRecord: does the directory promise room on the current page? */
    method HasRoom(length: nat) returns (fits: bool)
      requires Valid()
      ensures 0 <= curIdx < |Contents()| && (fits <==> Contents()[curIdx].space >= length + SLOTSIZE)
    {
      hide ChainedHash.HashTable.Valid, BufMgr.Valid, BufMgr.Wired, BufMgr.Abs, Inv, HeapFile.Open, HeapFile.View;
      hide HeapFile.Contents, HeapFile.Valid;
      CursorInside();
      CurrentSpace();
      fits := headerPage.Int(PAGES + 4 + 8 * curIdx) >= length + SLOTSIZE;
    }

    /** The loop of insertRecord: walks the directory to the first page with the room, and adds
        a page if there is none. */
    method FindPage(length: nat) returns (status: Status)
      requires Valid() && Sole() && |Contents()| < DIRCNT && FileSize() < MAXPAGES && length <= MAXREC
      modifies this`curPage, this`curPageNo, this`curDirtyFlag, this`touched, this`curIdx, this`curRec
      modifies this`hdrDirtyFlag
      modifies bm, bm.bufTable, bm.hashTable, bm.hashTable.ht, bm.hashTable.Repr, bm.disk, bm.mems
      ensures fresh(bm.hashTable.Repr - old(bm.hashTable.Repr))
      ensures status == OK && Valid() && Sole()
      ensures curIdx == old(Target(Contents(), curIdx, length))
      ensures Contents() ==
        if curIdx < old(|Contents()|) then old(Contents()) else old(Contents()) + [NewPage(old(FileSize()))]
      ensures FileSize() == old(FileSize()) + if curIdx < old(|Contents()|) then 0 else 1
      ensures Spares()
      ensures RecordCount() == old(RecordCount())
    {
      hide HeapFile.PoolNow, LeavesOthers;
      hide ChainedHash.HashTable.Valid, BufMgr.Valid, BufMgr.Wired, BufMgr.Abs, Inv, HeapFile.Open, HeapFile.View;
      hide HeapFile.Sole;
      hide HeapFile.FileSize, HeapFile.Contents, HeapFile.Valid, Target, Slots, WF, Sound, PageLayout.CurPage;
      CursorInside();
      ghost var h := Contents();
      status := OK;
      LeavesSelf(PoolNow(), touched, filePtr);
      while true
        invariant fresh(bm.hashTable.Repr - old(bm.hashTable.Repr))
        invariant status == OK && Valid() && Sole() && Contents() == h && FileSize() == old(FileSize())
        invariant 0 <= curIdx < |h| && Target(h, curIdx, length) == old(Target(h, curIdx, length))
        invariant Spares() && RecordCount() == old(RecordCount())
        decreases |h| - curIdx
      {
        TargetStep(h, curIdx, length);
        var fits := HasRoom(length);
        if fits {
          break;
        }
        var added;
        ghost var q, t := PoolNow(), touched;
        status, added := WalkOn();
        LeavesTrans(old(PoolNow()), old(touched), q, t, PoolNow(), touched, filePtr);
        CursorInside();
        if added {
          break;
        }
      }
    }

    /** The page that extends the file is not in the directory yet. */
    lemma NewNumber()
      requires Valid()
      ensures HeapInv(Contents()) && forall j :: 0 <= j < |Contents()| ==> Contents()[j].no != FileSize()
    {
      hide ChainedHash.HashTable.Valid, Inv, Anchored, BufMgr.Wired, BufMgr.Abs, HeapFile.Open, HeapFile.FileSize;
      hide IntAt;
      FileEnd();
      forall j | 0 <= j < |Contents()|
        ensures Contents()[j].no != FileSize()
      {
        HeapAt(View(), j);
      }
    }

    /** The record just put on the current page is under the cursor. */
    lemma OnRecord(h: Heap, rec: Rec)
      requires Valid() && 0 <= curIdx < |h| && Contents() == h[curIdx := PutOn(h[curIdx], rec)]
      requires curRec == RID(curPageNo, LeastFree(h[curIdx].slots))
      ensures AtRecord() && CurrentEntry() == Entry(curRec, rec)
    {
      hide ChainedHash.HashTable.Valid, BufMgr.Valid, BufMgr.Wired, BufMgr.Abs, Inv, HeapFile.Open, HeapFile.View;
      hide HeapFile.Sole;
      hide HeapFile.Contents, HeapFile.Valid, Room, Inserted, LeastFree;
      RecordIsThere(h[curIdx].slots, rec);
    }

    /** The same, the record being under the cursor afterwards. */
    method InsertFound(rec: Rec) returns (status: Status, outRid: RID)
      requires Valid() && 1 <= |rec| && 0 <= curIdx < |Contents()|
      requires InsertCost(Contents()[curIdx].slots, rec) <= Room(Contents()[curIdx].slots)
      modifies bm.mems, `curDirtyFlag, `hdrDirtyFlag, `touched, `curRec
      ensures status == OK && Valid() && (old(Sole()) ==> Sole())
      ensures AtRecord() && CurrentEntry() == Entry(outRid, rec)
      ensures Contents() == old(Contents())[curIdx := PutOn(old(Contents())[curIdx], rec)]
      ensures FileSize() == old(FileSize())
      ensures Spares()
      ensures RecordCount() == Wrap32(old(RecordCount()) + 1)
    {
      hide HeapFile.PoolNow, LeavesOthers;
      hide ChainedHash.HashTable.Valid, BufMgr.Valid, BufMgr.Wired, BufMgr.Abs, Inv, HeapFile.Open, HeapFile.View;
      hide HeapFile.Sole, HeapFile.FileSize, HeapFile.Contents, HeapFile.Valid, HeapFile.AtRecord;
      hide HeapFile.CurrentEntry;
      hide Room, PutOn, InsertCost, LeastFree;
      OwnFrames();
      ghost var h := Contents();
      status, outRid := InsertHere(rec);
      OnRecord(h, rec);
    }

    /** InsertFileScan::insertRecord: the record goes on the first page from the current one on
        that has the room, or on a page added to the file.  It never fails for want of space. */
    method InsertRecord(rec: Rec) returns (status: Status, outRid: RID)
      requires Valid() && Sole() && |Contents()| < DIRCNT && FileSize() < MAXPAGES && 1 <= |rec| <= MAXREC
      modifies this`curPage, this`curPageNo, this`curDirtyFlag, this`touched, this`curIdx, this`curRec
      modifies this`hdrDirtyFlag
      modifies bm, bm.bufTable, bm.hashTable, bm.hashTable.ht, bm.hashTable.Repr, bm.disk, bm.mems
      ensures fresh(bm.hashTable.Repr - old(bm.hashTable.Repr))
      ensures status == OK && Valid() && Sole()
      ensures old(Insertion()).at <= |old(Insertion()).file| && Insertion() == InsertOne(old(Insertion()), rec)
      ensures AtRecord() && CurrentEntry() == Entry(outRid, rec)
      ensures Spares()
      ensures RecordCount() == Wrap32(old(RecordCount()) + 1)
      ensures old(CountRight()) ==> CountRight()
    {
      hide AllEntries, InsertingOK;
      hide InsertOne, PutOn, HeapFile.AtRecord, HeapFile.CurrentEntry;
      hide HeapFile.PoolNow, LeavesOthers;
      hide ChainedHash.HashTable.Valid, BufMgr.Valid, BufMgr.Wired, BufMgr.Abs, Inv, HeapFile.Open, HeapFile.View;
      hide HeapFile.Sole;
      hide HeapFile.FileSize, HeapFile.Contents, HeapFile.Valid, Target, Slots, WF, Sound, PageLayout.CurPage, Room;
      hide Inserted, LeastFree, HeapInv, InsertCost;
      CursorInside();
      NewNumber();
      InsertionSound();
      InsertCounts(Insertion(), rec);
      CountIsRight();
      InsertFits(Contents(), curIdx, rec, FileSize());
      InsertedOn(Inserting(Contents(), curIdx, FileSize()), rec);
      status := FindPage(|rec|);
      CursorInside();
      ghost var q, t := PoolNow(), touched;
      status, outRid := InsertFound(rec);
      CountIsRight();
      LeavesTrans(old(PoolNow()), old(touched), q, t, PoolNow(), touched, filePtr);
    }

    /** An open heap file is fit for insertions. */
    lemma InsertionSound()
      requires Valid()
      ensures InsertingOK(Insertion()) && Insertion() == Inserting(Contents(), curIdx, FileSize())
      ensures 0 <= curIdx < |Contents()|
    {
      hide ChainedHash.HashTable.Valid, Inv, Anchored, BufMgr.Wired, BufMgr.Abs, HeapFile.Open, HeapFile.FileSize;
      hide HeapFile.View, IntAt, HeapInv;
      CursorInside();
      NewNumber();
      forall j | 0 <= j < |Contents()|
        ensures Contents()[j].no < FileSize()
      {
        EntryBelow(j);
      }
    }

    lemma EntryBelow(j: nat)
      requires Valid() && j < |Contents()|
      ensures Contents()[j].no < FileSize()
    {
      hide ChainedHash.HashTable.Valid, Inv, Anchored, BufMgr.Wired, BufMgr.Abs, HeapFile.Open, HeapFile.FileSize;
      hide IntAt, HeapInv;
      FileEnd();
      HeapAt(View(), j);
    }

    /** The destructor, up to closing the file: unpins both pages.  Every change made through
        this object has then been announced to the pool. */
    method Close() returns (status: Status)
      requires Valid()
      modifies `touched
      modifies bm, bm.bufTable, bm.hashTable, bm.hashTable.ht, bm.hashTable.Repr, bm.disk, bm.mems
      ensures fresh(bm.hashTable.Repr - old(bm.hashTable.Repr))
      ensures status == OK && bm.Valid()
      ensures var p := bm.Abs();
        Inv(p) && filePtr in p.disk && Coherent(p, touched) && NoneOf(touched, filePtr)
          && ViewOf(p, filePtr) == old(View()) && |p.disk[filePtr]| == old(FileSize())
      ensures old(Sole()) ==> Closed(bm.Abs(), filePtr) && Openable(bm.Abs(), filePtr, touched)
      ensures LeavesOthers(old(PoolNow()), old(touched), bm.Abs(), touched, filePtr)
      ensures old(Sole()) ==> |bm.Abs().upl| == |old(PoolNow()).upl| + 2
    {
      hide ChainedHash.HashTable.Valid, Inv, Coherent, Anchored, BufMgr.Wired, BufMgr.Abs, ViewOf, AfterUnPin;
      hide UnPinStatus, Announced, Alone, Closed, NoneOf, Openable, LeavesOthers, HeapInv, HeapOf;
      ghost var p := bm.Abs();
      CloseLeaves(p, filePtr, touched, hdrDirtyFlag, curPageNo, curDirtyFlag);
      Closing(p, filePtr, touched, hdrDirtyFlag, curPageNo, curDirtyFlag);
      if Sole() {
        ClosingAlone(p, filePtr, touched, hdrDirtyFlag, curPageNo, curDirtyFlag);
        Reopenable(p, filePtr, touched, hdrDirtyFlag, curPageNo, curDirtyFlag);
      }
      status := bm.UnPinPage(filePtr, curPageNo, curDirtyFlag, false);
      status := bm.UnPinPage(filePtr, HEADER, hdrDirtyFlag, false);
      touched := BothAnnounced(touched, filePtr, curPageNo, curDirtyFlag, hdrDirtyFlag);
    }
  }

  lemma SettledCount(h: seq<byte>, g: seq<byte>, h': seq<byte>, i: nat, space: int)
    requires |h| == PAGESIZE && i < DIRCNT && 0 <= space <= REGION
    requires g == PutInt(h, PAGES + 4 + 8 * i, space) && h' == PutInt(g, RECCNT, Wrap32(IntAt(g, RECCNT) + 1))
    ensures Settled(h, h', i, space) && IntAt(h', RECCNT) == Wrap32(IntAt(h, RECCNT) + 1)
  {
    hide IntOf, PutInt, Settled;
    assert CountedTo(g, h', Wrap32(IntAt(g, RECCNT) + 1));
    SettledEntry(h, g, h', i, space);
  }

  /** An insertion makes one entry more, a deletion one entry less. */
  lemma InsertCounts(s: Inserting, r: Rec)
    requires InsertingOK(s) && |r| <= MAXREC
    ensures |AllEntries(InsertOne(s, r).file)| == |AllEntries(s.file)| + 1
  {
    hide AllEntries, InsertOne, HeapInv;
    InsertOneGains(s, r);
    assert |Sum(AllEntries(InsertOne(s, r).file))| == |Sum(AllEntries(s.file))| + 1;
  }

  lemma DeleteCounts(h: Heap, i: nat, k: int)
    requires i < |h|
    ensures LiveAt(h[i].slots, k) ==> |AllEntries(DeletedAt(h, i, k))| == |AllEntries(h)| - 1
    ensures Wrap32(|AllEntries(h)| + 1) != |AllEntries(h)| - 1
  {
    hide AllEntries, DeletedAt, EntriesFrom;
    if LiveAt(h[i].slots, k) {
      DeleteAtCursor(h, i, k);
    }
  }

  lemma CountInHeader(v: FileView, b: Image)
    requires |b| == PAGESIZE
    ensures CountIn(v[HEADER := b]) == IntAt(b, RECCNT)
  {
  }

  lemma CountElsewhere(v: FileView, n: int, b: Image)
    requires n != HEADER
    ensures CountIn(v[n := b]) == CountIn(v)
  {
  }

  ghost predicate PagesUpTo(v: FileView, n: int) { forall k :: k in v <==> 1 <= k < n }

  lemma HeapSize(v: FileView)
    requires HeapOK(v)
    ensures HEADER in v && |v[HEADER]| == PAGESIZE && PageCnt(v[HEADER]) == |HeapOf(v)| && HeapOf(v) != []
  {
  }

  lemma SameEnd(v: FileView, m: int, n: int)
    requires PagesUpTo(v, m) && PagesUpTo(v, n) && 1 <= m && 1 <= n
    ensures m == n
  {
    assert m !in v && n !in v;
  }

  lemma SameViewSize(p: Pool, q: Pool, f: FileRef)
    requires Inv(p) && Inv(q) && f in p.disk && f in q.disk && ViewOf(p, f) == ViewOf(q, f)
    ensures |p.disk[f]| == |q.disk[f]|
  {
    hide Inv, PoolRefinement.View;
    FileFacts(p, f);
    FileFacts(q, f);
    SameEnd(ViewOf(p, f), |p.disk[f]|, |q.disk[f]|);
  }

  lemma RecordIsThere(s: seq<Slot>, r: Rec)
    ensures LiveAt(Inserted(s, r), LeastFree(s)) && Inserted(s, r)[LeastFree(s)] == Live(r)
    ensures RID(0, LeastFree(s)).slotNo >= 0
  {
  }

  lemma EndOfEntries(h: Heap)
    ensures EntriesFrom(h, |h|, 0) == [] && forall p :: DropTo([], p) == []
  {
  }
}
