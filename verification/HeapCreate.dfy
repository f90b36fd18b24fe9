/** createHeapFile (heapfile.C). */
module HeapCreation {
  import opened Bytes
  import opened StatusCodes
  import opened PageSpec
  import opened PageLayout
  import opened Pages
  import opened FileSpec
  import opened Disks
  import opened PoolSpec
  import opened PoolRefinement
  import opened PoolClient
  import opened BufMgrs
  import opened HeapSpec
  import opened HeapLayout
  import opened HeapClient
  import opened HeapSession
  import opened Interference
  import opened HeapBirth
  import opened HeapFiles
  import opened OpenFiles
  import opened PoolOrder
  import PoolRing
  import ChainedHash

  /** A header page with an empty directory. */
  ghost predicate NoEntries(h: seq<byte>) {
    && |h| == PAGESIZE && PageCnt(h) == 0 && IntAt(h, RECCNT) == 0
    && forall k :: 0 <= k < DIRCNT ==> EntryPage(h, k) == -1
  }

  /** The part of createHeapFile that initialises the header page. */
  method InitHeader(page: Page)
    requires page.Sized()
    modifies page.mem
    ensures NoEntries(page.mem[..])
  {
    hide IntOf, PutInt;
    page.SetInt(RECCNT, 0);
    page.SetInt(PAGECNT, 0);
    for i := 0 to DIRCNT
      invariant PageCnt(page.mem[..]) == 0 && IntAt(page.mem[..], RECCNT) == 0
      invariant forall k :: 0 <= k < i ==> EntryPage(page.mem[..], k) == -1
    {
      ghost var h := page.mem[..];
      page.SetInt(PAGES + 8 * i, -1);
      page.SetInt(PAGES + 4 + 8 * i, -1);
      ClearedEntry(h, i);
    }
  }

  lemma ClearedEntry(h: seq<byte>, i: nat)
    requires |h| == PAGESIZE && i < DIRCNT
    ensures var g := PutInt(PutInt(h, PAGES + 8 * i, -1), PAGES + 4 + 8 * i, -1);
      && PageCnt(g) == PageCnt(h) && IntAt(g, RECCNT) == IntAt(h, RECCNT)
      && forall k :: 0 <= k < DIRCNT ==> EntryPage(g, k) == if k == i then -1 else EntryPage(h, k)
  {
    hide IntOf, PutInt;
    var f := PutInt(h, PAGES + 8 * i, -1);
    var g := PutInt(f, PAGES + 4 + 8 * i, -1);
    assert PageCnt(f) == PageCnt(h) && IntAt(f, RECCNT) == IntAt(h, RECCNT);
    forall k | 0 <= k < DIRCNT
      ensures EntryPage(g, k) == EntryPage(f, k) == if k == i then -1 else EntryPage(h, k)
    {
    }
  }

  /** One page more for the file in the making. */
  method NewHeld(bm: BufMgr, f: FileRef, ghost owed: set<Key>, ghost held: FileView) returns (no: int, page: Page)
    requires bm.Valid() && Building(bm.Abs(), f, owed, held) && bm.Abs().upl != [] && |bm.Abs().disk[f]| < MAXPAGES
    modifies bm, bm.bufTable, bm.hashTable, bm.hashTable.ht, bm.hashTable.Repr, bm.disk
    ensures fresh(bm.hashTable.Repr - old(bm.hashTable.Repr)) && bm.Valid()
    ensures no == |old(bm.Abs()).disk[f]| && no !in held && Building(bm.Abs(), f, owed, held[no := page.mem[..]])
    ensures FrameHolds(bm, Key(f, no), page) && page.Sized() && page.mem in bm.mems
    ensures |bm.Abs().upl| == |old(bm.Abs()).upl| - 1 && |bm.Abs().disk[f]| == no + 1
    ensures forall n :: n in held ==> StaysPinned(old(bm.Abs()), bm.Abs(), Key(f, n))
    ensures LeavesOthers(old(bm.Abs()), Owing(owed, f, held), bm.Abs(), Owing(owed, f, held[no := page.mem[..]]), f)
  {
    hide LeavesOthers;
    hide ChainedHash.HashTable.Valid, BufMgr.Wired, Inv, Coherent, AfterAlloc, AllocStatus, CanAllocate, IntAt, ViewOf;
    hide Building;
    ghost var p := bm.Abs();
    BuildingParts(p, f, owed, held);
    BuildingAlloc(p, f, owed, held);
    var status, index;
    status, no, index := bm.AllocPage(f);
    bm.FrameOfPage(Key(f, no));
    page := bm.bufPool[index];
    AllocLeaves(p, f, owed, held, page.mem[..]);
    HeldFrame(bm.Abs(), f, owed, held[no := ViewOf(bm.Abs(), f)[no]], no);
  }

  lemma BuildingParts(p: Pool, f: FileRef, owed: set<Key>, held: FileView)
    requires Building(p, f, owed, held)
    ensures Inv(p) && f in p.disk
  {
  }

  lemma HeldFrame(p: Pool, f: FileRef, owed: set<Key>, held: FileView, n: int)
    requires Building(p, f, owed, held) && n in held
    ensures Pinned(p, Key(f, n)) && 0 <= p.index[Key(f, n)] < |p.mem| && p.mem[p.index[Key(f, n)]] == held[n]
  {
    hide Coherent;
    assert Pins(p, Key(f, n)) == 1;
    ViewOfResident(p, Key(f, n));
  }

  /** The header page of the new file initialised. */
  method MakeHeader(bm: BufMgr, f: FileRef, ghost owed: set<Key>, ghost held: FileView, n: int, page: Page)
    requires bm.Valid() && Building(bm.Abs(), f, owed, held) && n in held && FrameHolds(bm, Key(f, n), page)
    requires page.mem in bm.mems && page.Sized()
    modifies page.mem
    ensures bm.Valid() && Building(bm.Abs(), f, owed, held[n := page.mem[..]]) && NoEntries(page.mem[..])
    ensures bm.Abs().index == old(bm.Abs()).index && bm.Abs().upl == old(bm.Abs()).upl
    ensures bm.Abs().disk == old(bm.Abs()).disk
    ensures LeavesOthers(old(bm.Abs()), Owing(owed, f, held), bm.Abs(), Owing(owed, f, held[n := page.mem[..]]), f)
  {
    hide LeavesOthers;
    hide ChainedHash.HashTable.Valid, BufMgr.Wired, BufMgr.Abs, Inv, Building, NoEntries;
    ghost var i := bm.Abs().index[Key(f, n)];
    InitHeader(page);
    bm.FrameChanged(i);
    BuildingWrite(old(bm.Abs()), f, owed, held, n, page.mem[..]);
    BuildingParts(bm.Abs(), f, owed, held[n := page.mem[..]]);
  }

  /** The first data page of the new file initialised. */
  method MakeData(bm: BufMgr, f: FileRef, ghost owed: set<Key>, ghost held: FileView, n: int, page: Page)
    requires bm.Valid() && Building(bm.Abs(), f, owed, held) && n in held && FrameHolds(bm, Key(f, n), page)
    requires page.mem in bm.mems && page.Sized() && 1 <= n <= MAXPAGES
    modifies page.mem
    ensures bm.Valid() && Building(bm.Abs(), f, owed, held[n := page.mem[..]]) && Blank(page.mem[..], n)
    ensures bm.Abs().index == old(bm.Abs()).index && bm.Abs().upl == old(bm.Abs()).upl
    ensures bm.Abs().disk == old(bm.Abs()).disk
    ensures LeavesOthers(old(bm.Abs()), Owing(owed, f, held), bm.Abs(), Owing(owed, f, held[n := page.mem[..]]), f)
  {
    hide LeavesOthers;
    hide ChainedHash.HashTable.Valid, BufMgr.Wired, BufMgr.Abs, Inv, Building, WF, Slots, Sound;
    ghost var i := bm.Abs().index[Key(f, n)];
    page.Init(n);
    bm.FrameChanged(i);
    BuildingWrite(old(bm.Abs()), f, owed, held, n, page.mem[..]);
    BuildingParts(bm.Abs(), f, owed, held[n := page.mem[..]]);
  }

  /** The data page entered in the directory as its only page. */
  method EnterFirst(bm: BufMgr, f: FileRef, ghost owed: set<Key>, ghost held: FileView, n: int, header: Page, no: int,
      first: Page)
    requires bm.Valid() && Building(bm.Abs(), f, owed, held) && n in held && FrameHolds(bm, Key(f, n), header)
    requires header.mem in bm.mems && header.Sized() && NoEntries(header.mem[..])
    requires first.mem != header.mem && first.Sized() && Blank(first.mem[..], no) && 1 <= no <= MAXPAGES
    modifies header.mem
    ensures bm.Valid() && Building(bm.Abs(), f, owed, held[n := header.mem[..]])
    ensures OneMoreEntry(old(header.mem[..]), header.mem[..], no, REGION)
    ensures IntAt(header.mem[..], RECCNT) == old(IntAt(header.mem[..], RECCNT))
    ensures bm.Abs().index == old(bm.Abs()).index && bm.Abs().upl == old(bm.Abs()).upl
    ensures bm.Abs().disk == old(bm.Abs()).disk
    ensures LeavesOthers(old(bm.Abs()), Owing(owed, f, held), bm.Abs(), Owing(owed, f, held[n := header.mem[..]]), f)
  {
    hide LeavesOthers;
    hide ChainedHash.HashTable.Valid, BufMgr.Wired, BufMgr.Abs, Inv, Building, WF, Slots, Sound, PutInt, IntOf;
    hide OneMoreEntry;
    ghost var i := bm.Abs().index[Key(f, n)];
    BlankRoom(first.mem[..], no);
    PutEntry(header.mem[..], no, REGION);
    header.SetInt(PAGECNT, 1);
    header.SetInt(PAGES, no);
    var freeSpace := first.GetFreeSpace();
    header.SetInt(PAGES + 4, freeSpace);
    bm.FrameChanged(i);
    BuildingWrite(old(bm.Abs()), f, owed, held, n, header.mem[..]);
    BuildingParts(bm.Abs(), f, owed, held[n := header.mem[..]]);
  }

  // ----- The whole of createHeapFile -----

  lemma FlushedFile(p: Pool, f: FileRef, i: nat)
    requires Inv(p) && i < |p.frames| && p.frames[i].valid && p.frames[i].pinCnt == 0 && f in p.disk
    ensures Inv(Flushed(p, i)) && SameFile(p, Flushed(p, i), f)
  {
    InvFlushed(p, i);
    assert FrameOK(p, i) && FileOK(p.disk[f]);
  }

  lemma {:induction false} FlushKeepsFile(p: Pool, f: FileRef, i: nat)
    requires Inv(p) && i <= |p.frames| && f in p.disk
    ensures SameFile(p, AfterFlush(p, f, i), f)
    decreases |p.frames| - i
  {
    hide Inv, Flushed, IntAt;
    FileFacts(p, f);
    if i < |p.frames| {
      FrameFields(p, i);
      if p.frames[i].file != f {
        FlushKeepsFile(p, f, i + 1);
      } else if p.frames[i].valid && p.frames[i].pinCnt <= 0 {
        FlushedFile(p, f, i);
        FlushKeepsFile(Flushed(p, i), f, i + 1);
      }
    }
  }

  /** A closed heap file may be flushed: nothing is seen to change, and all of it is on disk. */
  lemma FlushedOpenable(p: Pool, f: FileRef, owed: set<Key>)
    requires Openable(p, f, owed) && Closed(p, f)
    ensures var q := AfterFlush(p, f, 0);
      && Openable(q, f, owed) && Closed(q, f) && ViewOf(q, f) == ViewOf(p, f) && |q.disk[f]| == |p.disk[f]|
      && OnDisk(q.disk, f, ViewOf(p, f))
  {
    hide Coherent, AfterFlush, FlushStatus, View, SameViews, HeapOK, IntAt;
    LastCloseDurable(p, f, owed);
    FlushKeepsFile(p, f, 0);
    AfterFlushList(p, f, 0);
    SameViewOf(p, AfterFlush(p, f, 0), f);
  }

  /** The file on disk has the pages of v. */
  ghost predicate OnDisk(disk: map<FileRef, FileSpec.Pages>, f: FileRef, v: FileView) {
    f in disk && (forall n :: n in v <==> 1 <= n < |disk[f]|) && forall n :: n in v ==> disk[f][n] == v[n]
  }

  /** The header page allocated and initialised. */
  method StartHeader(bm: BufMgr, f: FileRef, ghost owed: set<Key>) returns (hdrPage: Page)
    requires bm.Valid() && Building(bm.Abs(), f, owed, map[]) && |bm.Abs().upl| >= 1 && |bm.Abs().disk[f]| == 1
    modifies bm, bm.bufTable, bm.hashTable, bm.hashTable.ht, bm.hashTable.Repr, bm.disk, bm.mems
    ensures fresh(bm.hashTable.Repr - old(bm.hashTable.Repr)) && bm.Valid()
    ensures Building(bm.Abs(), f, owed, map[HEADER := hdrPage.mem[..]]) && NoEntries(hdrPage.mem[..])
    ensures FrameHolds(bm, Key(f, HEADER), hdrPage) && hdrPage.mem in bm.mems && hdrPage.Sized()
    ensures |bm.Abs().upl| == |old(bm.Abs()).upl| - 1 && |bm.Abs().disk[f]| == 2
    ensures LeavesOthers(old(bm.Abs()), owed, bm.Abs(), Owing(owed, f, map[HEADER := hdrPage.mem[..]]), f)
  {
    hide LeavesOthers, Owing;
    hide ChainedHash.HashTable.Valid, BufMgr.Wired, BufMgr.Abs, Inv, Building, NoEntries;
    NothingOwed(f, owed);
    var no;
    no, hdrPage := NewHeld(bm, f, owed, map[]);
    ghost var p1, v1 := bm.Abs(), map[HEADER := hdrPage.mem[..]];
    MakeHeader(bm, f, owed, v1, no, hdrPage);
    LeavesTrans(old(bm.Abs()), owed, p1, Owing(owed, f, v1), bm.Abs(), Owing(owed, f, v1[no := hdrPage.mem[..]]), f);
    assert map[HEADER := old(hdrPage.mem[..])][HEADER := hdrPage.mem[..]] == map[HEADER := hdrPage.mem[..]];
  }

  lemma NothingOwed(f: FileRef, owed: set<Key>)
    ensures Owing(owed, f, map[]) == owed
  {
  }

  /** Two pages of the file are in two frames. */
  lemma TwoFrames(bm: BufMgr, f: FileRef, a: int, b: int, x: Page, y: Page)
    requires bm.Valid() && FrameHolds(bm, Key(f, a), x) && FrameHolds(bm, Key(f, b), y) && a != b
    ensures x.mem != y.mem
  {
    hide ChainedHash.HashTable.Valid, BufMgr.Wired, BufMgr.Abs;
    assert IndexedOK(bm.Abs(), Key(f, a)) && IndexedOK(bm.Abs(), Key(f, b));
    bm.FramesApart(bm.Abs().index[Key(f, a)], bm.Abs().index[Key(f, b)]);
  }

  /** The first data page allocated, the header page still in hand. */
  method AddFirst(bm: BufMgr, f: FileRef, ghost owed: set<Key>, hdrPage: Page) returns (no: int, newPage: Page)
    requires bm.Valid() && Building(bm.Abs(), f, owed, map[HEADER := hdrPage.mem[..]])
    requires FrameHolds(bm, Key(f, HEADER), hdrPage)
    requires |bm.Abs().upl| >= 1 && |bm.Abs().disk[f]| == 2
    modifies bm, bm.bufTable, bm.hashTable, bm.hashTable.ht, bm.hashTable.Repr, bm.disk
    ensures fresh(bm.hashTable.Repr - old(bm.hashTable.Repr)) && bm.Valid()
    ensures no == 2 && Building(bm.Abs(), f, owed, map[HEADER := hdrPage.mem[..], 2 := newPage.mem[..]])
    ensures FrameHolds(bm, Key(f, HEADER), hdrPage) && FrameHolds(bm, Key(f, 2), newPage)
    ensures newPage.Sized() && newPage.mem in bm.mems && newPage.mem != hdrPage.mem
    ensures |bm.Abs().upl| == |old(bm.Abs()).upl| - 1 && |bm.Abs().disk[f]| == 3
    ensures LeavesOthers(old(bm.Abs()), Owing(owed, f, map[HEADER := hdrPage.mem[..]]), bm.Abs(),
      Owing(owed, f, map[HEADER := hdrPage.mem[..], 2 := newPage.mem[..]]), f)
  {
    hide LeavesOthers, Owing;
    hide ChainedHash.HashTable.Valid, BufMgr.Wired, BufMgr.Abs, Inv, Building;
    ghost var held := map[HEADER := hdrPage.mem[..]];
    HeldFrame(bm.Abs(), f, owed, held, HEADER);
    no, newPage := NewHeld(bm, f, owed, held);
    assert StaysPinned(old(bm.Abs()), bm.Abs(), Key(f, HEADER));
    TwoFrames(bm, f, HEADER, 2, hdrPage, newPage);
    assert held[2 := newPage.mem[..]] == map[HEADER := hdrPage.mem[..], 2 := newPage.mem[..]];
  }

  /** Both pages written. */
  method WritePages(bm: BufMgr, f: FileRef, ghost owed: set<Key>, hdrPage: Page, newPage: Page)
    requires bm.Valid() && Building(bm.Abs(), f, owed, map[HEADER := hdrPage.mem[..], 2 := newPage.mem[..]])
    requires FrameHolds(bm, Key(f, HEADER), hdrPage) && FrameHolds(bm, Key(f, 2), newPage) && newPage.mem != hdrPage.mem
    requires newPage.Sized() && newPage.mem in bm.mems && hdrPage.Sized() && hdrPage.mem in bm.mems
    requires NoEntries(hdrPage.mem[..])
    modifies hdrPage.mem, newPage.mem
    ensures bm.Valid() && Building(bm.Abs(), f, owed, map[HEADER := hdrPage.mem[..], 2 := newPage.mem[..]])
    ensures Blank(newPage.mem[..], 2) && OneMoreEntry(old(hdrPage.mem[..]), hdrPage.mem[..], 2, REGION)
    ensures IntAt(hdrPage.mem[..], RECCNT) == old(IntAt(hdrPage.mem[..], RECCNT))
    ensures bm.Abs().index == old(bm.Abs()).index && bm.Abs().upl == old(bm.Abs()).upl
    ensures bm.Abs().disk == old(bm.Abs()).disk
    ensures LeavesOthers(
      old(bm.Abs()), Owing(owed, f, map[HEADER := old(hdrPage.mem[..]), 2 := old(newPage.mem[..])]),
      bm.Abs(), Owing(owed, f, map[HEADER := hdrPage.mem[..], 2 := newPage.mem[..]]), f)
  {
    hide LeavesOthers, Owing;
    hide ChainedHash.HashTable.Valid, BufMgr.Wired, BufMgr.Abs, Inv, Building, NoEntries, OneMoreEntry;
    hide Blank;
    ghost var h := hdrPage.mem[..];
    MakeData(bm, f, owed, map[HEADER := h, 2 := newPage.mem[..]], 2, newPage);
    ghost var m := newPage.mem[..];
    assert map[HEADER := h, 2 := old(newPage.mem[..])][2 := m] == map[HEADER := h, 2 := m];
    ghost var p1 := bm.Abs();
    EnterFirst(bm, f, owed, map[HEADER := h, 2 := m], HEADER, hdrPage, 2, newPage);
    assert map[HEADER := h, 2 := m][HEADER := hdrPage.mem[..]] == map[HEADER := hdrPage.mem[..], 2 := m];
    LeavesTrans(old(bm.Abs()), Owing(owed, f, map[HEADER := h, 2 := old(newPage.mem[..])]),
      p1, Owing(owed, f, map[HEADER := h, 2 := m]),
      bm.Abs(), Owing(owed, f, map[HEADER := hdrPage.mem[..], 2 := m]), f);
  }

  lemma DirectoryOfOne(h: seq<byte>, h': seq<byte>)
    requires NoEntries(h) && OneMoreEntry(h, h', 2, REGION)
    ensures |h'| == PAGESIZE && PageCnt(h') == 1 && EntryPage(h', 0) == 2 && EntrySpace(h', 0) == REGION
    ensures IntAt(h, RECCNT) == 0 && forall k :: 1 <= k < DIRCNT ==> EntryPage(h', k) == -1
  {
    hide IntAt;
  }

  /** Both pages unpinned dirty, the header page first. */
  method UnPinBoth(bm: BufMgr, f: FileRef, ghost owed: set<Key>, ghost v: FileView)
    requires bm.Valid() && Building(bm.Abs(), f, owed, v) && v.Keys == {HEADER, 2} && HeapOK(v)
    modifies bm, bm.bufTable
    ensures bm.Valid() && Openable(bm.Abs(), f, owed) && Closed(bm.Abs(), f) && ViewOf(bm.Abs(), f) == v
    ensures |bm.Abs().disk[f]| == 3
    ensures LeavesOthers(old(bm.Abs()), Owing(owed, f, v), bm.Abs(), owed, f)
    ensures |bm.Abs().upl| == |old(bm.Abs()).upl| + 2
  {
    hide LeavesOthers, Owing;
    hide ChainedHash.HashTable.Valid, BufMgr.Wired, BufMgr.Abs, Inv, Coherent, AfterUnPin, UnPinStatus, HeapOK, Closed;
    hide Building, IntAt, NoneOf;
    BuildingDone(bm.Abs(), f, owed, v, HEADER, 2);
    DoneLeaves(bm.Abs(), f, owed, v, HEADER, 2);
    BuildingOwes(bm.Abs(), f, owed, v);
    var status := bm.UnPinPage(f, HEADER, true, false);
    status := bm.UnPinPage(f, 2, true, false);
    LastOfView(bm.Abs(), f, 2);
  }

  lemma LastOfView(p: Pool, f: FileRef, last: int)
    requires Inv(p) && f in p.disk && last in ViewOf(p, f) && last + 1 !in ViewOf(p, f)
    ensures |p.disk[f]| == last + 1
  {
  }

  lemma BuildingOwes(p: Pool, f: FileRef, owed: set<Key>, held: FileView)
    requires Building(p, f, owed, held)
    ensures NoneOf(owed, f)
  {
  }

  /** The two pages of the new file allocated, the header page initialised. */
  method TwoPages(bm: BufMgr, f: FileRef, ghost owed: set<Key>) returns (hdrPage: Page, newPage: Page)
    requires bm.Valid() && Building(bm.Abs(), f, owed, map[]) && |bm.Abs().upl| >= 2 && |bm.Abs().disk[f]| == 1
    modifies bm, bm.bufTable, bm.hashTable, bm.hashTable.ht, bm.hashTable.Repr, bm.disk, bm.mems
    ensures fresh(bm.hashTable.Repr - old(bm.hashTable.Repr)) && bm.Valid()
    ensures Building(bm.Abs(), f, owed, map[HEADER := hdrPage.mem[..], 2 := newPage.mem[..]])
    ensures NoEntries(hdrPage.mem[..])
    ensures FrameHolds(bm, Key(f, HEADER), hdrPage) && hdrPage.mem in bm.mems && hdrPage.Sized()
    ensures FrameHolds(bm, Key(f, 2), newPage) && newPage.mem in bm.mems && newPage.Sized()
    ensures newPage.mem != hdrPage.mem
    ensures |bm.Abs().upl| == |old(bm.Abs()).upl| - 2 && |bm.Abs().disk[f]| == 3
    ensures LeavesOthers(old(bm.Abs()), owed,
      bm.Abs(), Owing(owed, f, map[HEADER := hdrPage.mem[..], 2 := newPage.mem[..]]), f)
  {
    hide LeavesOthers, Owing;
    hide ChainedHash.HashTable.Valid, BufMgr.Wired, BufMgr.Abs, Inv, Coherent, Building, NoEntries, EmptyHeader;
    hdrPage := StartHeader(bm, f, owed);
    ghost var p1 := bm.Abs();
    ghost var h := hdrPage.mem[..];
    var newPageNo;
    newPageNo, newPage := AddFirst(bm, f, owed, hdrPage);
    LeavesTrans(old(bm.Abs()), owed, p1, Owing(owed, f, map[HEADER := h]),
      bm.Abs(), Owing(owed, f, map[HEADER := h, 2 := newPage.mem[..]]), f);
  }

  /** The two pages of the new file made. */
  method MakePages(bm: BufMgr, f: FileRef, ghost owed: set<Key>) returns (ghost v: FileView)
    requires bm.Valid() && Building(bm.Abs(), f, owed, map[]) && |bm.Abs().upl| >= 2 && |bm.Abs().disk[f]| == 1
    modifies bm, bm.bufTable, bm.hashTable, bm.hashTable.ht, bm.hashTable.Repr, bm.disk, bm.mems
    ensures fresh(bm.hashTable.Repr - old(bm.hashTable.Repr)) && bm.Valid()
    ensures Building(bm.Abs(), f, owed, v) && v.Keys == {HEADER, 2} && HeapOK(v) && HeapOf(v) == FreshHeap(FIRSTDATA)
    ensures CountIn(v) == 0
    ensures |bm.Abs().upl| == |old(bm.Abs()).upl| - 2
    ensures LeavesOthers(old(bm.Abs()), owed, bm.Abs(), Owing(owed, f, v), f)
  {
    hide LeavesOthers, Owing;
    hide ChainedHash.HashTable.Valid, BufMgr.Wired, BufMgr.Abs, Inv, Coherent, Building, NoEntries, EmptyHeader;
    hide OneMoreEntry, Blank, HeapOK, HeapOf, Described;
    var hdrPage, newPage := TwoPages(bm, f, owed);
    ghost var p2, h := bm.Abs(), hdrPage.mem[..];
    ghost var v2 := map[HEADER := h, 2 := newPage.mem[..]];
    WritePages(bm, f, owed, hdrPage, newPage);
    v := map[HEADER := hdrPage.mem[..], 2 := newPage.mem[..]];
    LeavesTrans(old(bm.Abs()), owed, p2, Owing(owed, f, v2), bm.Abs(), Owing(owed, f, v), f);
    DirectoryOfOne(h, hdrPage.mem[..]);
    NewHeap(v, 2);
  }

  /** What createHeapFile does between opening the new file and closing it. */
  method Build(bm: BufMgr, f: FileRef, ghost owed: set<Key>)
    requires bm.Valid() && Coherent(bm.Abs(), owed) && NoneOf(owed, f) && |bm.Abs().upl| >= 2
    requires f in bm.Abs().disk && bm.Abs().disk[f] == [EmptyHeader()]
    modifies bm, bm.bufTable, bm.hashTable, bm.hashTable.ht, bm.hashTable.Repr, bm.disk, bm.mems
    ensures fresh(bm.hashTable.Repr - old(bm.hashTable.Repr)) && bm.Valid()
    ensures Openable(bm.Abs(), f, owed) && Closed(bm.Abs(), f)
    ensures HeapOK(ViewOf(bm.Abs(), f)) && HeapOf(ViewOf(bm.Abs(), f)) == FreshHeap(FIRSTDATA)
    ensures CountIn(ViewOf(bm.Abs(), f)) == 0
    ensures |bm.Abs().disk[f]| == FIRSTDATA + 1
    ensures LeavesOthers(old(bm.Abs()), owed, bm.Abs(), owed, f) && |bm.Abs().upl| == |old(bm.Abs()).upl|
  {
    hide LeavesOthers, Owing;
    hide ChainedHash.HashTable.Valid, BufMgr.Wired, BufMgr.Abs, Inv, Coherent, Building, NoEntries, EmptyHeader;
    hide OneMoreEntry, Blank, HeapOK, HeapOf, Described, Openable, ViewOf, Closed;
    BuildingStart(bm.Abs(), f, owed);
    ghost var v := MakePages(bm, f, owed);
    ghost var p1 := bm.Abs();
    UnPinBoth(bm, f, owed, v);
    ghost var p2 := bm.Abs();
    LeavesTrans(old(bm.Abs()), owed, p1, Owing(owed, f, v), p2, owed, f);
    FlushedOpenable(p2, f, owed);
    FlushLeaves(p2, f, owed);
    var status := bm.FlushFile(f);
    LeavesTrans(old(bm.Abs()), owed, p2, owed, bm.Abs(), owed, f);
  }

  lemma FlushLeaves(p: Pool, f: FileRef, owed: set<Key>)
    requires Inv(p)
    ensures LeavesOthers(p, owed, AfterFlush(p, f, 0), owed, f) && |AfterFlush(p, f, 0).upl| == |p.upl|
  {
    hide Inv, AfterFlush, LeavesOthers;
    AfterFlushList(p, f, 0);
    StepLeaves(p, owed, Flush(f), f);
  }

  /** A heap file with one empty page, three pages in all, that nobody has open. */
  ghost predicate Sealed(p: Pool, f: FileRef, owed: set<Key>) {
    && Openable(p, f, owed) && Closed(p, f)
    && HeapOf(ViewOf(p, f)) == FreshHeap(FIRSTDATA) && CountIn(ViewOf(p, f)) == 0 && |p.disk[f]| == FIRSTDATA + 1
  }

  lemma SealedFlushed(p: Pool, f: FileRef, owed: set<Key>)
    requires Sealed(p, f, owed)
    ensures Sealed(AfterFlush(p, f, 0), f, owed) && f in p.disk && OnDisk(AfterFlush(p, f, 0).disk, f, ViewOf(p, f))
    ensures ViewOf(AfterFlush(p, f, 0), f) == ViewOf(p, f)
  {
    hide Coherent, AfterFlush, FlushStatus, View, SameViews, HeapInv, IntAt, Inv;
    FlushedOpenable(p, f, owed);
  }

  /** The pages of the new file made, with the table of open files untouched. */
  method BuildOpened(db: DB, f: FileRef, ghost owed: set<Key>)
    requires db.Valid() && Coherent(db.bm.Abs(), owed) && NoneOf(owed, f) && |db.bm.Abs().upl| >= 2
    requires f in db.bm.Abs().disk && db.bm.Abs().disk[f] == [EmptyHeader()]
    modifies db.bm, db.bm.bufTable, db.bm.hashTable, db.bm.hashTable.ht, db.bm.hashTable.Repr, db.bm.disk, db.bm.mems
    ensures fresh(db.bm.hashTable.Repr - old(db.bm.hashTable.Repr)) && db.Valid() && db.Counts() == old(db.Counts())
    ensures Sealed(db.bm.Abs(), f, owed)
    ensures LeavesOthers(old(db.PoolNow()), owed, db.PoolNow(), owed, f)
    ensures |db.PoolNow().upl| == |old(db.PoolNow()).upl|
  {
    hide LeavesOthers;
    hide ChainedHash.HashTable.Valid, BufMgr.Valid, BufMgr.Wired, BufMgr.Abs, Inv, Coherent, EmptyHeader, HeapOK;
    hide HeapOf, Openable, ViewOf, Closed, TableOK, CountsOf;
    Build(db.bm, f, owed);
    db.BufValid();
  }

  /** The new file created. */
  method CreateNew(db: DB, fileName: string, ghost owed: set<Key>) returns (status: Status)
    requires db.Valid() && Coherent(db.bm.Abs(), owed)
    modifies db.bm.disk
    ensures db.Valid() && db.Counts() == old(db.Counts())
    ensures status == if fileName == "" then BADFILE
      else if fileName in old(db.Counts()) || FileRef(fileName) in old(db.bm.disk.files) then FILEEXISTS else OK
    ensures status == OK ==> fileName !in db.Counts() && FileRef(fileName) in db.bm.disk.files
    ensures status == OK ==> Coherent(db.bm.Abs(), owed) && db.bm.Abs().upl == old(db.bm.Abs()).upl
    ensures status == OK ==> FileRef(fileName) in db.bm.Abs().disk
    ensures status == OK ==> db.bm.Abs().disk[FileRef(fileName)] == [EmptyHeader()]
    ensures status == OK ==> LeavesOthers(old(db.PoolNow()), owed, db.PoolNow(), owed, FileRef(fileName))
  {
    hide LeavesOthers;
    hide ChainedHash.HashTable.Valid, BufMgr.Valid, BufMgr.Wired, Inv, Coherent, EmptyHeader, TableOK, CountsOf;
    hide PoolRing.Ring, PoolRing.FramesOf;
    db.BufValid();
    ghost var p := db.bm.Abs();
    status := db.CreateFile(fileName);
    if status == OK {
      CoherentCreated(p, FileRef(fileName), owed);
      CreatedLeaves(p, FileRef(fileName), owed);
    }
  }

  /** The file has been created and opened, and has no pages yet. */
  ghost predicate Begun(db: DB, file: File, owed: set<Key>)
    reads file, db, db.openFiles, db.openFiles.ht, db.openFiles.Repr, db.files
    reads db.bm, db.bm.bufTable, db.bm.hashTable, db.bm.hashTable.ht, db.bm.hashTable.Repr, db.bm.disk, db.bm.mems
  {
    && db.Valid() && file.fileName in db.openFiles.M && db.openFiles.M[file.fileName] == file
    && file.fileName in db.Counts() && db.Counts()[file.fileName] == 1
    && Coherent(db.bm.Abs(), owed) && NoneOf(owed, FileRef(file.fileName)) && |db.bm.Abs().upl| >= 2
    && FileRef(file.fileName) in db.bm.Abs().disk && db.bm.Abs().disk[FileRef(file.fileName)] == [EmptyHeader()]
  }

  /** The new file created and opened. */
  method CreateAndOpen(db: DB, fileName: string, ghost owed: set<Key>) returns (status: Status, file: File?)
    requires db.Valid() && Coherent(db.bm.Abs(), owed) && NoneOf(owed, FileRef(fileName)) && |db.bm.Abs().upl| >= 2
    modifies db`files, db.openFiles, db.openFiles.ht, db.files, db.bm.disk
    ensures fresh(db.openFiles.Repr - old(db.openFiles.Repr))
    ensures fresh(db.files - old(db.files))
    ensures db.Valid()
    ensures status == if fileName == "" then BADFILE
      else if fileName in old(db.Counts()) || FileRef(fileName) in old(db.bm.disk.files) then FILEEXISTS else OK
    ensures status != OK ==> db.Counts() == old(db.Counts())
    ensures status == OK ==> fileName !in old(db.Counts()) && db.Counts() == old(db.Counts())[fileName := 1]
    ensures status == OK ==> file != null && file.fileName == fileName && Begun(db, file, owed)
    ensures status == OK ==> LeavesOthers(old(db.PoolNow()), owed, db.PoolNow(), owed, FileRef(fileName))
    ensures status == OK ==> |db.PoolNow().upl| == |old(db.PoolNow()).upl|
  {
    hide LeavesOthers, DB.Valid, DB.Counts, DB.PoolNow, Begun;
    hide ChainedHash.HashTable.Valid, BufMgr.Valid, BufMgr.Wired, BufMgr.Abs, Inv, Coherent, EmptyHeader, TableOK;
    hide CountsOf, NoneOf;
    db.BufValid();
    file := null;
    status := CreateNew(db, fileName, owed);
    if status == OK {
      db.BufValid();
      status, file := db.OpenFile(fileName);
      db.BufValid();
      BeginsWith(db, file, fileName, owed);
    }
  }

  lemma BeginsWith(db: DB, file: File?, fileName: string, owed: set<Key>)
    requires db.Valid() && fileName in db.openFiles.M && db.openFiles.M[fileName] == file
    requires fileName in db.Counts() && db.Counts()[fileName] == 1
    requires Coherent(db.bm.Abs(), owed) && NoneOf(owed, FileRef(fileName)) && |db.bm.Abs().upl| >= 2
    requires FileRef(fileName) in db.bm.Abs().disk && db.bm.Abs().disk[FileRef(fileName)] == [EmptyHeader()]
    ensures file != null && file.fileName == fileName && Begun(db, file, owed)
  {
    hide ChainedHash.HashTable.Valid, BufMgr.Valid, BufMgr.Wired, BufMgr.Abs, Inv, Coherent, EmptyHeader, TableOK;
    hide CountsOf, NoneOf;
    OneEntry(db.openFiles.M, fileName);
  }

  /** The new file closed, which writes its pages to disk. */
  method CloseBuilt(db: DB, file: File, ghost owed: set<Key>) returns (status: Status)
    requires db.Valid() && Sealed(db.bm.Abs(), FileRef(file.fileName), owed)
    requires file.fileName in db.openFiles.M && db.openFiles.M[file.fileName] == file
    requires file.fileName in db.Counts() && db.Counts()[file.fileName] == 1
    modifies db`files, db.openFiles, db.openFiles.ht, db.openFiles.Repr, db.files
    modifies db.bm, db.bm.bufTable, db.bm.hashTable, db.bm.hashTable.ht, db.bm.hashTable.Repr, db.bm.disk, db.bm.mems
    ensures fresh(db.openFiles.Repr - old(db.openFiles.Repr)) && fresh(db.bm.hashTable.Repr - old(db.bm.hashTable.Repr))
    ensures status == OK && db.Valid() && db.Counts() == old(db.Counts()) - {file.fileName}
    ensures var f := FileRef(file.fileName);
      Sealed(db.bm.Abs(), f, owed) && OnDisk(db.bm.Abs().disk, f, ViewOf(db.bm.Abs(), f))
    ensures LeavesOthers(old(db.PoolNow()), owed, db.PoolNow(), owed, FileRef(file.fileName))
    ensures |db.PoolNow().upl| == |old(db.PoolNow()).upl| && db.files <= old(db.files)
  {
    hide ChainedHash.HashTable.Valid, BufMgr.Valid, BufMgr.Wired, BufMgr.Abs, Inv, Coherent, EmptyHeader, Sealed;
    hide ViewOf, TableOK, CountsOf, OnDisk, AfterFlush, NoneOf, LeavesOthers;
    db.BufValid();
    SealedFlushed(db.PoolNow(), FileRef(file.fileName), owed);
    FlushLeaves(db.PoolNow(), FileRef(file.fileName), owed);
    status := db.CloseFile(file);
    db.BufValid();
  }

  /** The pages of the new file made, and the file closed. */
  method BuildAndClose(db: DB, file: File, ghost owed: set<Key>) returns (status: Status)
    requires Begun(db, file, owed)
    modifies db`files, db.openFiles, db.openFiles.ht, db.openFiles.Repr, db.files
    modifies db.bm, db.bm.bufTable, db.bm.hashTable, db.bm.hashTable.ht, db.bm.hashTable.Repr, db.bm.disk, db.bm.mems
    ensures fresh(db.openFiles.Repr - old(db.openFiles.Repr)) && fresh(db.bm.hashTable.Repr - old(db.bm.hashTable.Repr))
    ensures status == OK && db.Valid() && db.Counts() == old(db.Counts()) - {file.fileName}
    ensures var f := FileRef(file.fileName);
      Sealed(db.bm.Abs(), f, owed) && OnDisk(db.bm.Abs().disk, f, ViewOf(db.bm.Abs(), f))
    ensures LeavesOthers(old(db.PoolNow()), owed, db.PoolNow(), owed, FileRef(file.fileName))
    ensures |db.PoolNow().upl| == |old(db.PoolNow()).upl| && db.files <= old(db.files)
  {
    hide ChainedHash.HashTable.Valid, BufMgr.Valid, BufMgr.Wired, BufMgr.Abs, Inv, Coherent, EmptyHeader, Sealed;
    hide ViewOf, TableOK, CountsOf, OnDisk, AfterFlush, NoneOf, LeavesOthers, DB.PoolNow, DB.Counts;
    BuildOpened(db, FileRef(file.fileName), owed);
    ghost var p := db.PoolNow();
    status := CloseBuilt(db, file, owed);
    LeavesTrans(old(db.PoolNow()), owed, p, owed, db.PoolNow(), owed, FileRef(file.fileName));
  }

  /** createHeapFile: a heap file with one empty page, closed and on disk. */
  method CreateHeapFile(db: DB, fileName: string, ghost owed: set<Key>) returns (status: Status)
    requires db.Valid() && Coherent(db.bm.Abs(), owed) && NoneOf(owed, FileRef(fileName)) && |db.bm.Abs().upl| >= 2
    modifies db`files, db.openFiles, db.openFiles.ht, db.openFiles.Repr, db.files
    modifies db.bm, db.bm.bufTable, db.bm.hashTable, db.bm.hashTable.ht, db.bm.hashTable.Repr, db.bm.disk, db.bm.mems
    ensures fresh(db.openFiles.Repr - old(db.openFiles.Repr)) && fresh(db.bm.hashTable.Repr - old(db.bm.hashTable.Repr))
    ensures db.Valid() && db.Counts() == old(db.Counts())
    ensures status == if fileName == "" then BADFILE
      else if fileName in old(db.Counts()) || FileRef(fileName) in old(db.bm.disk.files) then FILEEXISTS else OK
    ensures status == OK ==> Sealed(db.bm.Abs(), FileRef(fileName), owed)
    ensures status == OK ==> OnDisk(db.bm.Abs().disk, FileRef(fileName), ViewOf(db.bm.Abs(), FileRef(fileName)))
    ensures status == OK ==> LeavesOthers(old(db.PoolNow()), owed, db.PoolNow(), owed, FileRef(fileName))
    ensures status == OK ==> |db.PoolNow().upl| == |old(db.PoolNow()).upl|
    ensures fresh(db.files - old(db.files))
  {
    hide LeavesOthers, DB.Valid, DB.Counts, DB.PoolNow, Begun;
    hide ChainedHash.HashTable.Valid, BufMgr.Valid, BufMgr.Wired, BufMgr.Abs, Inv, Coherent, EmptyHeader, Sealed;
    hide ViewOf, TableOK, CountsOf, OnDisk, NoneOf;
    var file;
    status, file := CreateAndOpen(db, fileName, owed);
    if status != OK {
      return;
    }
    ghost var p := db.PoolNow();
    status := BuildAndClose(db, file, owed);
    LeavesTrans(old(db.PoolNow()), owed, p, owed, db.PoolNow(), owed, FileRef(fileName));
  }
}
