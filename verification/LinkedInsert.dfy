/** The insertRecord of part4/heapfile.C over the buffer manager: the page before a new one stays
    pinned while the new one is allocated, so that it can be linked to it. */
module LinkedInserts {
  import opened Bytes
  import opened StatusCodes
  import opened PageSpec
  import opened PageLayout
  import opened Pages
  import opened FileSpec
  import opened Disks
  import opened PoolSpec
  import opened PoolRefinement
  import opened PoolClient
  import opened BufMgrs
  import opened HeapSpec
  import opened HeapLayout
  import opened HeapClient
  import opened HeapSession
  import opened Interference
  import opened HeapFiles
  import opened PageChain
  import opened Queries
  import opened Comparing
  import ChainedHash

  // ----- Three pages pinned -----

  /** The header page, the current page and a new page `no` are pinned once each, and nobody else
      has a page of the file pinned. */
  ghost predicate Tripled(p: Pool, f: FileRef, touched: set<Key>, hdrDirty: bool, cur: int, no: int) {
    && Inv(p) && f in p.disk && Coherent(p, touched) && Next(p.disk[f][0]) == -1
    && cur != HEADER && no != HEADER && cur != no
    && Pins(p, Key(f, HEADER)) == 1 && Pins(p, Key(f, cur)) == 1 && Pins(p, Key(f, no)) == 1
    && (forall k :: Pinned(p, k) && k.file == f ==> k.pageNo == HEADER || k.pageNo == cur || k.pageNo == no)
    && (forall k :: k in touched && k.file == f ==>
         (k.pageNo == HEADER && hdrDirty) || k.pageNo == cur || k.pageNo == no)
  }

  /** The page allocated beside the current one. */
  lemma Beside(p: Pool, f: FileRef, touched: set<Key>, hdrDirty: bool, cur: int, curDirty: bool)
    requires Anchored(p, f, touched, hdrDirty, cur, curDirty) && Alone(p, f, cur) && |p.disk[f]| < MAXPAGES
    ensures CanAllocate(p.disk[f]) && AllocatedPage(p.disk[f]) == |p.disk[f]| && AllocKey(p, f) == Key(f, |p.disk[f]|)
    ensures AllocStatus(p, f) == if p.upl == [] then BUFFEREXCEEDED else OK
    ensures p.upl != [] ==> var q := AfterAlloc(p, f); var no := |p.disk[f]|;
      && Tripled(q, f, touched + {Key(f, no)}, hdrDirty, cur, no) && |q.disk[f]| == no + 1
      && StaysPinned(p, q, Key(f, HEADER)) && StaysPinned(p, q, Key(f, cur))
  {
    hide Inv, Coherent, AfterAlloc, AllocStatus, CanAllocate, View;
    AnchoredPages(p, f, touched, hdrDirty, cur, curDirty);
    FileFacts(p, f);
    AllocExtends(p, f);
    if p.upl != [] {
      AllocGrows(p, f);
      AllocViews(p, f, touched);
      AllocKeeps(p, f, Key(f, HEADER));
      AllocKeeps(p, f, Key(f, cur));
      forall k | Pinned(AfterAlloc(p, f), k) && k.file == f && k != Key(f, |p.disk[f]|)
        ensures k.pageNo == HEADER || k.pageNo == cur
      {
        AllocKeeps(p, f, k);
      }
    }
  }

  lemma BesideView(p: Pool, f: FileRef, touched: set<Key>, hdrDirty: bool, cur: int, curDirty: bool)
    requires Anchored(p, f, touched, hdrDirty, cur, curDirty) && Alone(p, f, cur) && |p.disk[f]| < MAXPAGES
    requires p.upl != []
    ensures CanAllocate(p.disk[f])
    ensures var q := AfterAlloc(p, f); var no := |p.disk[f]|;
      && Inv(q) && f in q.disk && no in ViewOf(q, f) && no !in ViewOf(p, f)
      && ViewOf(q, f) == ViewOf(p, f)[no := ViewOf(q, f)[no]]
  {
    hide Inv, Coherent, AfterAlloc, AllocStatus, CanAllocate, View, Alone;
    Beside(p, f, touched, hdrDirty, cur, curDirty);
    AllocViews(p, f, touched);
    var q := AfterAlloc(p, f);
    forall n | n in ViewOf(p, f)
      ensures ViewOf(q, f)[n] == ViewOf(p, f)[n]
    {
      assert PageExists(p.disk, Key(f, n)) && SameView(p, q, Key(f, n));
    }
  }

  /** It disturbs no client of another file, and takes a frame. */
  lemma BesideLeaves(p: Pool, f: FileRef, touched: set<Key>, hdrDirty: bool, cur: int, curDirty: bool)
    requires Anchored(p, f, touched, hdrDirty, cur, curDirty) && Alone(p, f, cur) && |p.disk[f]| < MAXPAGES
    requires p.upl != []
    ensures CanAllocate(p.disk[f]) && |AfterAlloc(p, f).upl| == |p.upl| - 1
    ensures LeavesOthers(p, touched, AfterAlloc(p, f), touched + {Key(f, |p.disk[f]|)}, f)
  {
    hide Inv, Coherent, AfterAlloc, AllocStatus, CanAllocate, View, Alone, LeavesOthers, Anchored;
    AnchoredInv(p, f, touched, hdrDirty, cur, curDirty);
    Beside(p, f, touched, hdrDirty, cur, curDirty);
    AllocCount(p, f);
    StepLeaves(p, touched, Alloc(f), f);
  }

  /** The link written into the page before. */
  lemma LinkWritten(p: Pool, f: FileRef, touched: set<Key>, hdrDirty: bool, cur: int, no: int, b: Image)
    requires Tripled(p, f, touched, hdrDirty, cur, no) && |b| == PAGESIZE
    ensures Key(f, cur) in p.index && 0 <= p.index[Key(f, cur)] < |p.mem|
    ensures var q := Written(p, p.index[Key(f, cur)], b);
      && Tripled(q, f, touched + {Key(f, cur)}, hdrDirty, cur, no)
      && Inv(q) && f in q.disk && ViewOf(q, f) == ViewOf(p, f)[cur := b]
      && LeavesOthers(p, touched, q, touched + {Key(f, cur)}, f) && |q.upl| == |p.upl|
  {
    hide Inv, View, Coherent, LeavesOthers;
    WriteLeaves(p, f, touched, Key(f, cur), b);
    var k := Key(f, cur);
    ViewOfResident(p, k);
    WrittenViews(p, k, b, touched);
    WrittenParts(p, p.index[k], b);
    var q := Written(p, p.index[k], b);
    forall m | m in ViewOf(p, f)
      ensures ViewOf(q, f)[m] == ViewOf(p, f)[cur := b][m]
    {
      assert m != cur ==> PageExists(p.disk, Key(f, m)) && SameView(p, q, Key(f, m));
    }
  }

  /** The page before released: the new page takes its place. */
  lemma Released3(p: Pool, f: FileRef, touched: set<Key>, hdrDirty: bool, cur: int, no: int)
    requires Tripled(p, f, touched, hdrDirty, cur, no)
    ensures UnPinStatus(p, Key(f, cur)) == OK
    ensures var q := AfterUnPin(p, Key(f, cur), true, false);
      && Anchored(q, f, Announced(touched, Key(f, cur), true), hdrDirty, no, true) && Alone(q, f, no)
      && Inv(q) && f in q.disk && |q.disk[f]| == |p.disk[f]| && ViewOf(q, f) == ViewOf(p, f)
      && StaysPinned(p, q, Key(f, HEADER)) && StaysPinned(p, q, Key(f, no))
      && LeavesOthers(p, touched, q, Announced(touched, Key(f, cur), true), f) && |q.upl| == |p.upl| + 1
  {
    hide Inv, View, Coherent, SameViews, AfterUnPin, LeavesOthers;
    var k := Key(f, cur);
    UnPinsLast(p, k, touched);
    UnPinLists(p, k, true);
    StepLeaves(p, touched, UnPin(k, true, false), f);
    UnPinViews(p, k, true, false, touched);
    UnPinKeeps(p, k, true, false, Key(f, HEADER), f);
    UnPinKeeps(p, k, true, false, Key(f, no), f);
    UnPinnedNow(p, k, true);
    var q := AfterUnPin(p, k, true, false);
    SameViewOf(p, q, f);
    forall n | Pinned(q, n) && n.file == f
      ensures n.pageNo == HEADER || n.pageNo == no
    {
      if n != k {
        UnPinKeeps(p, k, true, false, n, f);
      }
    }
  }

  lemma UnPinsLast(p: Pool, k: Key, touched: set<Key>)
    requires Inv(p) && Pins(p, k) == 1
    ensures UnPinStatus(p, k) == OK && MayUnPin(p, touched, k, true)
  {
  }

  // ----- The new page -----

  /** Page m' is page m with its link set to `no`. */
  ghost predicate LinkedTo(m: seq<byte>, m': seq<byte>, no: int) {
    WF(m) && WF(m') && Slots(m') == Slots(m) && CurPage(m') == CurPage(m) && NextPage(m') == no
  }

  /** With its last page linked to page `no`, the file is a heap file still. */
  lemma LinkedView(v: FileView, i: int, cur: int, rec: RID, m': seq<byte>, no: int)
    requires Positioned(v, i, cur, rec) && cur in v && LinkedTo(v[cur], m', no)
    ensures var v' := v[cur := m'];
      HeapOK(v') && HeapOf(v') == HeapOf(v)[i := HeapOf(v)[i].(next := no)]
  {
    hide WF, Slots, IntAt, Sound, NextPage, CurPage, HeapInv;
    HeapAt(v, i);
    var h := v[HEADER];
    assert SameDirectory(h, h, i);
    EditPage(v, i, m', h);
    assert v[cur := m'][HEADER := h] == v[cur := m'];
    RelinkedInv(HeapOf(v), i, no);
  }

  lemma RelinkedInv(h: Heap, i: nat, no: int)
    requires HeapInv(h) && i < |h|
    ensures HeapInv(h[i := h[i].(next := no)])
  {
    hide Room, Trimmed;
    var g := h[i := h[i].(next := no)];
    assert PageInv(h[i]);
    forall k | 0 <= k < |g|
      ensures PageInv(g[k]) && g[k].no == h[k].no
    {
      assert PageInv(h[k]);
    }
  }

  lemma BesideFacts(hf: HeapFile) returns (p: Pool)
    requires hf.Open() && hf.Sole() && hf.FileSize() < MAXPAGES
    ensures hf.bm.Wired() && p == hf.bm.Abs() && Inv(p) && hf.filePtr in p.disk && hf.View() == ViewOf(p, hf.filePtr)
    ensures p.upl != [] ==> var q := AfterAlloc(p, hf.filePtr); var no := |p.disk[hf.filePtr]|;
      && CanAllocate(p.disk[hf.filePtr])
      && Tripled(q, hf.filePtr, hf.touched + {Key(hf.filePtr, no)}, hf.hdrDirtyFlag, hf.curPageNo, no)
      && |q.disk[hf.filePtr]| == no + 1
      && StaysPinned(p, q, Key(hf.filePtr, HEADER)) && StaysPinned(p, q, Key(hf.filePtr, hf.curPageNo))
      && Pinned(p, Key(hf.filePtr, HEADER)) && Pinned(p, Key(hf.filePtr, hf.curPageNo))
      && Inv(q) && no in ViewOf(q, hf.filePtr) && no !in hf.View()
      && ViewOf(q, hf.filePtr) == hf.View()[no := ViewOf(q, hf.filePtr)[no]]
      && LeavesOthers(p, hf.touched, q, hf.touched + {Key(hf.filePtr, no)}, hf.filePtr) && |q.upl| == |p.upl| - 1
    ensures FrameHolds(hf.bm, Key(hf.filePtr, HEADER), hf.headerPage)
    ensures FrameHolds(hf.bm, Key(hf.filePtr, hf.curPageNo), hf.curPage)
    ensures hf.FileSize() == |p.disk[hf.filePtr]|
  {
    hide ChainedHash.HashTable.Valid, Inv, BufMgr.Wired, BufMgr.Abs, ViewOf, Coherent, AfterAlloc, AllocStatus;
    hide CanAllocate, LeavesOthers;
    p := hf.bm.Abs();
    Beside(p, hf.filePtr, hf.touched, hf.hdrDirtyFlag, hf.curPageNo, hf.curDirtyFlag);
    if p.upl != [] {
      BesideLeaves(p, hf.filePtr, hf.touched, hf.hdrDirtyFlag, hf.curPageNo, hf.curDirtyFlag);
      BesideView(p, hf.filePtr, hf.touched, hf.hdrDirtyFlag, hf.curPageNo, hf.curDirtyFlag);
    }
  }

  /** Allocates a page of the file while the current one stays pinned. */
  method TakeBeside(hf: HeapFile) returns (status: Status, pageNo: int, page: Page)
    requires hf.Open() && hf.Sole() && hf.FileSize() < MAXPAGES
    modifies hf.bm, hf.bm.bufTable, hf.bm.hashTable, hf.bm.hashTable.ht, hf.bm.hashTable.Repr, hf.bm.disk
    ensures fresh(hf.bm.hashTable.Repr - old(hf.bm.hashTable.Repr)) && hf.bm.Valid()
    ensures status == if old(hf.PoolNow().upl) == [] then BUFFEREXCEEDED else OK
    ensures pageNo == old(hf.FileSize())
    ensures status == OK ==>
      Tripled(hf.bm.Abs(), hf.filePtr, hf.touched + {Key(hf.filePtr, pageNo)}, hf.hdrDirtyFlag, hf.curPageNo, pageNo)
    ensures status == OK ==> var v := ViewOf(hf.bm.Abs(), hf.filePtr);
      |hf.bm.Abs().disk[hf.filePtr]| == pageNo + 1 && pageNo in v && pageNo !in old(hf.View())
        && v == old(hf.View())[pageNo := v[pageNo]]
    ensures status == OK ==> FrameHolds(hf.bm, Key(hf.filePtr, HEADER), hf.headerPage)
    ensures status == OK ==> FrameHolds(hf.bm, Key(hf.filePtr, hf.curPageNo), hf.curPage)
    ensures status == OK ==> FrameHolds(hf.bm, Key(hf.filePtr, pageNo), page)
    ensures status == OK ==>
      LeavesOthers(old(hf.PoolNow()), hf.touched, hf.bm.Abs(), hf.touched + {Key(hf.filePtr, pageNo)}, hf.filePtr)
    ensures status == OK ==> hf.bm.Wired() && |hf.bm.Abs().upl| == |old(hf.PoolNow()).upl| - 1
  {
    hide LeavesOthers;
    hide ChainedHash.HashTable.Valid, Inv, Anchored, BufMgr.Wired, Alone, AfterAlloc, AllocStatus, CanAllocate, Tripled;
    hide ViewOf;
    hide HeapFile.View, HeapFile.Sole, HeapFile.FileSize;
    ghost var p := BesideFacts(hf);
    BesideStatus(hf);
    var index;
    status, pageNo, index := hf.bm.AllocPage(hf.filePtr);
    page := hf.curPage;
    if status == OK {
      hf.bm.FrameOfPage(Key(hf.filePtr, pageNo));
      page := hf.bm.bufPool[index];
    }
  }

  lemma BesideStatus(hf: HeapFile)
    requires hf.Open() && hf.Sole() && hf.FileSize() < MAXPAGES
    ensures var p := hf.bm.Abs(); var f := hf.filePtr;
      && Inv(p) && f in p.disk && CanAllocate(p.disk[f]) && AllocatedPage(p.disk[f]) == |p.disk[f]|
      && AllocKey(p, f) == Key(f, |p.disk[f]|)
      && AllocStatus(p, f) == if p.upl == [] then BUFFEREXCEEDED else OK
  {
    hide ChainedHash.HashTable.Valid, Inv, BufMgr.Wired, BufMgr.Abs, ViewOf, Coherent, AfterAlloc, AllocStatus;
    hide CanAllocate;
    hf.PinnedPages();
    Beside(hf.bm.Abs(), hf.filePtr, hf.touched, hf.hdrDirtyFlag, hf.curPageNo, hf.curDirtyFlag);
  }

  /** setNextPage on the page before the new one. */
  method SetLink(bm: BufMgr, f: FileRef, prevPageNo: int, prevPage: Page, pageNo: int, ghost touched: set<Key>,
      ghost hdrDirty: bool)
    requires bm.Valid() && Tripled(bm.Abs(), f, touched, hdrDirty, prevPageNo, pageNo)
    requires FrameHolds(bm, Key(f, prevPageNo), prevPage) && prevPage.mem in bm.mems && prevPage.Sized()
    requires WF(prevPage.mem[..])
    requires 1 <= pageNo <= MAXPAGES
    modifies prevPage.mem
    ensures bm.Valid() && LinkedTo(old(prevPage.mem[..]), prevPage.mem[..], pageNo)
    ensures bm.Abs() == Written(old(bm.Abs()), old(bm.Abs()).index[Key(f, prevPageNo)], prevPage.mem[..])
    ensures Tripled(bm.Abs(), f, touched + {Key(f, prevPageNo)}, hdrDirty, prevPageNo, pageNo)
    ensures ViewOf(bm.Abs(), f) == ViewOf(old(bm.Abs()), f)[prevPageNo := prevPage.mem[..]]
    ensures LeavesOthers(old(bm.Abs()), touched, bm.Abs(), touched + {Key(f, prevPageNo)}, f)
    ensures |bm.Abs().upl| == |old(bm.Abs()).upl|
  {
    hide LeavesOthers;
    hide ChainedHash.HashTable.Valid, Inv, Tripled, BufMgr.Wired, BufMgr.Abs, ViewOf, WF, Slots, Sound;
    ghost var i := bm.Abs().index[Key(f, prevPageNo)];
    prevPage.SetNextPage(pageNo);
    bm.FrameChanged(i);
    LinkWritten(old(bm.Abs()), f, touched, hdrDirty, prevPageNo, pageNo, prevPage.mem[..]);
  }

  /** Links the page before to the new one and unpins it. */
  method LinkAndRelease(bm: BufMgr, f: FileRef, header: Page, prevPageNo: int, prevPage: Page, pageNo: int, page: Page,
      ghost touched: set<Key>, ghost hdrDirty: bool)
    requires bm.Valid() && Tripled(bm.Abs(), f, touched, hdrDirty, prevPageNo, pageNo) && 1 <= pageNo <= MAXPAGES
    requires FrameHolds(bm, Key(f, HEADER), header) && FrameHolds(bm, Key(f, prevPageNo), prevPage)
    requires FrameHolds(bm, Key(f, pageNo), page)
    requires prevPage.mem in bm.mems && prevPage.Sized() && WF(prevPage.mem[..])
    modifies prevPage.mem, bm, bm.bufTable
    ensures bm.Valid() && LinkedTo(old(prevPage.mem[..]), prevPage.mem[..], pageNo)
    ensures var t := Announced(touched + {Key(f, prevPageNo)}, Key(f, prevPageNo), true);
      Anchored(bm.Abs(), f, t, hdrDirty, pageNo, true) && Alone(bm.Abs(), f, pageNo)
    ensures ViewOf(bm.Abs(), f) == ViewOf(old(bm.Abs()), f)[prevPageNo := prevPage.mem[..]]
    ensures |bm.Abs().disk[f]| == |old(bm.Abs()).disk[f]|
    ensures FrameHolds(bm, Key(f, HEADER), header) && FrameHolds(bm, Key(f, pageNo), page)
    ensures var t := Announced(touched + {Key(f, prevPageNo)}, Key(f, prevPageNo), true);
      LeavesOthers(old(bm.Abs()), touched, bm.Abs(), t, f)
    ensures |bm.Abs().upl| == |old(bm.Abs()).upl| + 1
  {
    hide LeavesOthers;
    hide ChainedHash.HashTable.Valid, Inv, Anchored, Alone, BufMgr.Wired, BufMgr.Abs, ViewOf, WF, Slots, Sound;
    hide AfterUnPin, UnPinStatus, Announced, LinkedTo;
    SetLink(bm, f, prevPageNo, prevPage, pageNo, touched, hdrDirty);
    Released3(bm.Abs(), f, touched + {Key(f, prevPageNo)}, hdrDirty, prevPageNo, pageNo);
    ghost var q, t := bm.Abs(), touched + {Key(f, prevPageNo)};
    var status := bm.UnPinPage(f, prevPageNo, true, false);
    LeavesTrans(old(bm.Abs()), touched, q, t, bm.Abs(), Announced(t, Key(f, prevPageNo), true), f);
  }

  /** The new page takes the place of the current one. */
  method TakeOver(hf: HeapFile, pageNo: int, page: Page)
    requires hf.bm.Valid() && 1 <= pageNo <= MAXPAGES
    requires Tripled(hf.bm.Abs(), hf.filePtr, hf.touched + {Key(hf.filePtr, pageNo)},
      hf.hdrDirtyFlag, hf.curPageNo, pageNo)
    requires FrameHolds(hf.bm, Key(hf.filePtr, HEADER), hf.headerPage)
    requires FrameHolds(hf.bm, Key(hf.filePtr, pageNo), page)
    requires FrameHolds(hf.bm, Key(hf.filePtr, hf.curPageNo), hf.curPage)
    requires hf.curPage.mem in hf.bm.mems && hf.curPage.Sized() && WF(hf.curPage.mem[..])
    modifies hf`curPage, hf`curPageNo, hf`curDirtyFlag, hf`touched, hf.curPage.mem, hf.bm, hf.bm.bufTable
    ensures hf.Open() && hf.Sole() && hf.curDirtyFlag && hf.curPageNo == pageNo
    ensures LinkedTo(old(hf.curPage.mem[..]), old(hf.curPage).mem[..], pageNo)
    ensures hf.View() == ViewOf(old(hf.bm.Abs()), hf.filePtr)[old(hf.curPageNo) := old(hf.curPage).mem[..]]
    ensures hf.FileSize() == |old(hf.bm.Abs()).disk[hf.filePtr]|
    ensures var t := old(hf.touched) + {Key(hf.filePtr, pageNo)};
      LeavesOthers(old(hf.bm.Abs()), t, hf.PoolNow(), hf.touched, hf.filePtr)
    ensures |hf.PoolNow().upl| == |old(hf.bm.Abs()).upl| + 1
  {
    hide LeavesOthers, HeapFile.PoolNow;
    hide ChainedHash.HashTable.Valid, Inv, Anchored, Alone, BufMgr.Wired, BufMgr.Valid, BufMgr.Abs, ViewOf, Announced;
    hide LinkedTo, WF;
    hide Slots, Sound, Tripled, HeapFile.Open, HeapFile.View, HeapFile.Sole, HeapFile.FileSize;
    ghost var t := hf.touched + {Key(hf.filePtr, pageNo)};
    LinkAndRelease(hf.bm, hf.filePtr, hf.headerPage, hf.curPageNo, hf.curPage, pageNo, page, t, hf.hdrDirtyFlag);
    hf.curDirtyFlag := true;
    hf.Adopt(pageNo, page, Announced(t + {Key(hf.filePtr, hf.curPageNo)}, Key(hf.filePtr, hf.curPageNo), true));
  }

  /** Makes a page just allocated the current one, linked from the one before; it counts as dirty
      from the start, since its bytes are stale. */
  method TurnToLinked(hf: HeapFile) returns (status: Status)
    requires hf.Open() && hf.Sole() && hf.FileSize() < MAXPAGES && WF(hf.curPage.mem[..])
    modifies hf`curPage, hf`curPageNo, hf`curDirtyFlag, hf`touched
    modifies hf.bm, hf.bm.bufTable, hf.bm.hashTable, hf.bm.hashTable.ht, hf.bm.hashTable.Repr, hf.bm.disk, hf.bm.mems
    ensures fresh(hf.bm.hashTable.Repr - old(hf.bm.hashTable.Repr)) && hf.bm.Valid()
    ensures status == if old(hf.PoolNow().upl) == [] then BUFFEREXCEEDED else OK
    ensures status == OK ==> hf.Open() && hf.Sole() && hf.curDirtyFlag
    ensures status == OK ==> hf.curPageNo == old(hf.FileSize()) && hf.curPageNo !in old(hf.View())
    ensures status == OK ==> hf.FileSize() == hf.curPageNo + 1
    ensures status == OK ==> LinkedTo(old(hf.curPage.mem[..]), old(hf.curPage).mem[..], hf.curPageNo)
    ensures status == OK ==> hf.curPageNo in hf.View()
    ensures status == OK ==>
      hf.View() == old(hf.View())[old(hf.curPageNo) := old(hf.curPage).mem[..]][hf.curPageNo := hf.View()[hf.curPageNo]]
    ensures status == OK ==> hf.Spares()
  {
    hide LeavesOthers;
    hide ChainedHash.HashTable.Valid, Inv, Anchored, Alone, BufMgr.Wired, BufMgr.Abs, ViewOf, BufMgr.Valid, AfterAlloc;
    hide Announced, LinkedTo, WF, Slots, Sound, Tripled;
    hide HeapFile.Open, HeapFile.View, HeapFile.Sole, HeapFile.FileSize;
    hf.PinnedPages();
    hf.CurrentNo();
    hf.FileEnd();
    var pageNo, page;
    status, pageNo, page := TakeBeside(hf);
    if status != OK {
      return;
    }
    ghost var q, t := hf.bm.Abs(), hf.touched + {Key(hf.filePtr, pageNo)};
    TakeOver(hf, pageNo, page);
    hf.PoolSound();
    LeavesTrans(old(hf.PoolNow()), old(hf.touched), q, t, hf.PoolNow(), hf.touched, hf.filePtr);
    Swapped(old(hf.View()), old(hf.curPageNo), old(hf.curPage).mem[..], pageNo, hf.View()[pageNo]);
  }

  lemma Swapped(v: FileView, a: int, x: Image, b: int, y: Image)
    requires a != b
    ensures v[a := x][b := y] == v[b := y][a := x]
  {
  }

  // ----- insertRecord -----

  /** The part of insertRecord that adds a page to the file and links it. */
  method AppendLinked(hf: HeapFile) returns (status: Status)
    requires hf.Valid() && hf.Sole() && hf.curIdx + 1 == |hf.Contents()| < DIRCNT && hf.FileSize() < MAXPAGES
    modifies hf`curPage, hf`curPageNo, hf`curDirtyFlag, hf`touched, hf`curIdx, hf`curRec, hf`hdrDirtyFlag
    modifies hf.bm, hf.bm.bufTable, hf.bm.hashTable, hf.bm.hashTable.ht, hf.bm.hashTable.Repr, hf.bm.disk, hf.bm.mems
    ensures fresh(hf.bm.hashTable.Repr - old(hf.bm.hashTable.Repr)) && hf.bm.Valid()
    ensures status == if old(hf.PoolNow().upl) == [] then BUFFEREXCEEDED else OK
    ensures status == OK ==>
      hf.Valid() && hf.Sole() && hf.curIdx == old(|hf.Contents()|) && hf.FileSize() == old(hf.FileSize()) + 1
    ensures status == OK ==> hf.Contents() == Grown(old(hf.Contents()), old(hf.FileSize()))
    ensures status == OK ==> hf.Spares()
  {
    hide LeavesOthers, HeapFile.PoolNow;
    hide ChainedHash.HashTable.Valid, BufMgr.Valid, BufMgr.Wired, BufMgr.Abs, Inv, Positioned, HeapOK, HeapOf, HeapInv;
    hide Described, IntAt;
    hide HeapFile.Open, HeapFile.View, HeapFile.Sole, HeapFile.FileSize, OneMoreEntry, Blank, LiveBytes, FrameHolds;
    hide LinkedTo, WF, Slots;
    ghost var v := hf.View();
    ghost var cur := hf.curPageNo;
    hf.Current();
    hf.PinnedPages();
    hf.DirectoryEnd();
    status := TurnToLinked(hf);
    if status != OK {
      return;
    }
    ghost var m := old(hf.curPage).mem[..];
    ghost var no := hf.curPageNo;
    LinkedView(v, hf.curIdx, cur, hf.curRec, m, no);
    ghost var q, t := hf.PoolNow(), hf.touched;
    hf.EnterNew(v[cur := m]);
    LeavesTrans(old(hf.PoolNow()), old(hf.touched), q, t, hf.PoolNow(), hf.touched, hf.filePtr);
    hf.PoolSound();
  }

  /** The directory with a page `no` added at its end and linked from the page before. */
  function Grown(h: Heap, no: int): Heap
    requires h != []
  {
    h[|h| - 1 := h[|h| - 1].(next := no)] + [NewPage(no)]
  }

  /** One round of the loop of insertRecord: on to the next page of the directory, or to a page
      added after the last. */
  method WalkLinked(hf: HeapFile) returns (status: Status, added: bool)
    requires hf.Valid() && hf.Sole() && |hf.Contents()| < DIRCNT && hf.FileSize() < MAXPAGES
    modifies hf`curPage, hf`curPageNo, hf`curDirtyFlag, hf`touched, hf`curIdx, hf`curRec, hf`hdrDirtyFlag
    modifies hf.bm, hf.bm.bufTable, hf.bm.hashTable, hf.bm.hashTable.ht, hf.bm.hashTable.Repr, hf.bm.disk, hf.bm.mems
    ensures fresh(hf.bm.hashTable.Repr - old(hf.bm.hashTable.Repr)) && hf.bm.Valid()
    ensures 0 <= old(hf.curIdx) < |old(hf.Contents())| && (added <==> old(hf.curIdx) + 1 == |old(hf.Contents())|)
    ensures status == if added && old(hf.PoolNow().upl) == [] then BUFFEREXCEEDED else OK
    ensures status == OK ==> hf.Valid() && hf.Sole() && hf.curIdx == old(hf.curIdx) + 1
    ensures status == OK ==>
      hf.Contents() == if added then Grown(old(hf.Contents()), old(hf.FileSize())) else old(hf.Contents())
    ensures status == OK ==> hf.FileSize() == old(hf.FileSize()) + if added then 1 else 0
    ensures status == OK ==> hf.Spares()
  {
    hide LeavesOthers, HeapFile.PoolNow;
    hide ChainedHash.HashTable.Valid, BufMgr.Valid, BufMgr.Wired, BufMgr.Abs, Inv, HeapOK, Described, HeapOf, HeapInv;
    hide HeapFile.Open, HeapFile.View, HeapFile.Sole, HeapFile.FileSize, Grown;
    hf.Current();
    hf.PoolSound();
    hf.LastEntry();
    hf.FileEnd();
    added := hf.headerPage.Int(PAGES + 8 * (hf.curIdx + 1)) == -1;
    if added {
      status := AppendLinked(hf);
    } else {
      status := hf.TurnTo(hf.curIdx + 1);
      hf.FileEnd();
      SameEnd(hf.View(), hf.FileSize(), old(hf.FileSize()));
    }
  }

  /** The directory that the loop of insertRecord leaves when it stops at page j. */
  function Place(h: Heap, j: int, no: int): Heap
    requires h != []
  {
    if j < |h| then h else Grown(h, no)
  }

  /** The record put on the page found completes the insertion. */
  lemma Placed(h: Heap, at: nat, no: int, r: Rec)
    requires h != [] && at < |h|
    ensures var j := Target(h, at, |r|); var g := Place(h, j, no);
      && j < |g| && g[j].slots == (if j < |h| then h[j].slots else [])
      && Inserting(g[j := PutOn(g[j], r)], j, no + if j < |h| then 0 else 1) ==
           StepScan(Inserting(h, at, no), Insert(r))
  {
    hide Inserted, Room, Target;
  }

  /** The loop of insertRecord: it ends on the first page with the room, or on a page added and
      linked. */
  method FindLinked(hf: HeapFile, length: nat) returns (status: Status)
    requires hf.Valid() && hf.Sole() && |hf.Contents()| < DIRCNT && hf.FileSize() < MAXPAGES && length <= MAXREC
    modifies hf`curPage, hf`curPageNo, hf`curDirtyFlag, hf`touched, hf`curIdx, hf`curRec, hf`hdrDirtyFlag
    modifies hf.bm, hf.bm.bufTable, hf.bm.hashTable, hf.bm.hashTable.ht, hf.bm.hashTable.Repr, hf.bm.disk, hf.bm.mems
    ensures fresh(hf.bm.hashTable.Repr - old(hf.bm.hashTable.Repr)) && hf.bm.Valid()
    ensures old(hf.Contents()) != []
    ensures var full := old(Target(hf.Contents(), hf.curIdx, length)) == |old(hf.Contents())|;
      status == if full && old(hf.PoolNow().upl) == [] then BUFFEREXCEEDED else OK
    ensures status == OK ==> hf.Valid() && hf.Sole() && hf.curIdx == old(Target(hf.Contents(), hf.curIdx, length))
    ensures status == OK ==> hf.Contents() == Place(old(hf.Contents()), hf.curIdx, old(hf.FileSize()))
    ensures status == OK ==> hf.FileSize() == old(hf.FileSize()) + if hf.curIdx < |old(hf.Contents())| then 0 else 1
    ensures status == OK ==> hf.Spares()
  {
    hide LeavesOthers, HeapFile.PoolNow;
    hide ChainedHash.HashTable.Valid, BufMgr.Valid, BufMgr.Wired, BufMgr.Abs, Inv, HeapFile.Open, HeapFile.View;
    hide HeapFile.Sole, Grown;
    hide HeapFile.FileSize, HeapFile.Contents, HeapFile.Valid, Target, Slots, WF, Sound, PageLayout.CurPage;
    hf.Current();
    hf.PoolSound();
    ghost var h := hf.Contents();
    LeavesSelf(hf.PoolNow(), hf.touched, hf.filePtr);
    status := OK;
    while true
      invariant fresh(hf.bm.hashTable.Repr - old(hf.bm.hashTable.Repr)) && hf.bm.Valid() && hf.bm.Wired()
      invariant status == OK && hf.Valid() && hf.Sole() && hf.Contents() == h && hf.FileSize() == old(hf.FileSize())
      invariant 0 <= hf.curIdx < |h| && Target(h, hf.curIdx, length) == old(Target(h, hf.curIdx, length))
      invariant hf.Spares()
      decreases |h| - hf.curIdx
    {
      TargetStep(h, hf.curIdx, length);
      var fits := hf.HasRoom(length);
      if fits {
        break;
      }
      var added;
      ghost var q, t := hf.PoolNow(), hf.touched;
      status, added := WalkLinked(hf);
      if status != OK {
        break;
      }
      LeavesTrans(old(hf.PoolNow()), old(hf.touched), q, t, hf.PoolNow(), hf.touched, hf.filePtr);
      if added {
        break;
      }
      hf.Current();
      hf.PoolSound();
    }
  }

  /** Following nextPage from the first page visits the pages of the directory in order. */
  ghost predicate Chained(h: Heap) { h != [] && Path(h, h[0].no, Numbers(h)) }

  lemma StaysChained(s: Inserting, r: Rec)
    requires InsertingOK(s) && 0 <= s.next && |r| <= MAXREC
    ensures s.file != [] && s.at <= |s.file|
    ensures Linked(s.file) ==> Linked(StepScan(s, Insert(r)).file) && Chained(StepScan(s, Insert(r)).file)
  {
    hide HeapInv, InsertedLinked, Path, Target;
    InvSize(s.file);
    if Linked(s.file) {
      StepKeepsLinks(s, Insert(r));
      InvSize(StepScan(s, Insert(r)).file);
      LinkedIffPath(StepScan(s, Insert(r)).file);
    }
  }

  /** What the record to be inserted will find, and what will come of it. */
  lemma ToInsert(hf: HeapFile, rec: Rec)
    requires hf.Valid() && |rec| <= MAXREC
    ensures hf.Contents() != [] && 0 <= hf.curIdx < |hf.Contents()|
    ensures hf.Insertion() == Inserting(hf.Contents(), hf.curIdx, hf.FileSize())
    ensures var h, at, no := hf.Contents(), hf.curIdx, hf.FileSize(); var j := Target(h, at, |rec|);
      && InsertCost(if j < |h| then h[j].slots else [], rec) <= Room(if j < |h| then h[j].slots else [])
      && j < |Place(h, j, no)| && Place(h, j, no)[j].slots == (if j < |h| then h[j].slots else [])
      && Inserting(Place(h, j, no)[j := PutOn(Place(h, j, no)[j], rec)], j, no + if j < |h| then 0 else 1) ==
           StepScan(Inserting(h, at, no), Insert(rec))
    ensures Linked(hf.Contents()) ==> Chained(StepScan(hf.Insertion(), Insert(rec)).file)
  {
    hide ChainedHash.HashTable.Valid, BufMgr.Valid, BufMgr.Wired, BufMgr.Abs, Inv, HeapFile.Open, HeapFile.View;
    hide HeapFile.FileSize, HeapFile.Contents, Target, Room, Inserted, HeapInv, InsertCost, StepScan, PutOn;
    hide Linked, Chained, Place;
    hf.Current();
    hf.NewNumber();
    InsertFits(hf.Contents(), hf.curIdx, rec, hf.FileSize());
    Placed(hf.Contents(), hf.curIdx, hf.FileSize(), rec);
    hf.InsertionSound();
    hf.FileEnd();
    StaysChained(hf.Insertion(), rec);
  }

  /** The insertRecord of part4: the page gets the record as in part5, and a page added is linked
      from the page before it.  Since that page stays pinned meanwhile, a frame must be left when
      a page has to be added. */
  method InsertLinked(hf: HeapFile, rec: Rec) returns (status: Status, outRid: RID)
    requires hf.Valid() && hf.Sole() && |hf.Contents()| < DIRCNT && hf.FileSize() < MAXPAGES && 1 <= |rec| <= MAXREC
    modifies hf`curPage, hf`curPageNo, hf`curDirtyFlag, hf`touched, hf`curIdx, hf`curRec, hf`hdrDirtyFlag
    modifies hf.bm, hf.bm.bufTable, hf.bm.hashTable, hf.bm.hashTable.ht, hf.bm.hashTable.Repr, hf.bm.disk, hf.bm.mems
    ensures fresh(hf.bm.hashTable.Repr - old(hf.bm.hashTable.Repr)) && (status != OK ==> hf.bm.Valid())
    ensures old(hf.Contents()) != [] && 0 <= old(hf.curIdx) < |old(hf.Contents())|
    ensures var full := Target(old(hf.Contents()), old(hf.curIdx), |rec|) == |old(hf.Contents())|;
      status == if full && old(hf.PoolNow().upl) == [] then BUFFEREXCEEDED else OK
    ensures status == OK ==> hf.Valid() && hf.Sole() && hf.AtRecord() && hf.CurrentEntry() == Entry(outRid, rec)
    ensures status == OK ==> hf.Insertion() == StepScan(old(hf.Insertion()), Insert(rec)) && hf.Spares()
    ensures status == OK && Linked(old(hf.Contents())) ==> Chained(hf.Contents())
  {
    hide LeavesOthers, HeapFile.PoolNow, Linked, Chained;
    hide ChainedHash.HashTable.Valid, BufMgr.Valid, BufMgr.Wired, BufMgr.Abs, Inv, HeapFile.Open, HeapFile.View;
    hide HeapFile.Sole;
    hide HeapFile.FileSize, HeapFile.Contents, HeapFile.Valid, Target, Slots, WF, Sound, PageLayout.CurPage, Room;
    hide Inserted, LeastFree;
    hide HeapInv, InsertCost, StepScan, Place, PutOn, Grown, HeapFile.AtRecord, HeapFile.CurrentEntry;
    ToInsert(hf, rec);
    outRid := NULLRID;
    status := FindLinked(hf, |rec|);
    if status != OK {
      return;
    }
    hf.Current();
    ghost var q, t := hf.PoolNow(), hf.touched;
    status, outRid := hf.InsertFound(rec);
    LeavesTrans(old(hf.PoolNow()), old(hf.touched), q, t, hf.PoolNow(), hf.touched, hf.filePtr);
  }

  // ----- A load -----

  /** One record more. */
  lemma InsertsNext(s: Inserting, rs: seq<Rec>, k: nat)
    requires s.at <= |s.file| && s.file != [] && Fits(s, rs) && k < |rs|
    ensures var t := Inserts(s, rs[..k]);
      && t.file != [] && t.at <= |t.file| && |t.file| < DIRCNT && t.next < MAXPAGES
      && Inserts(s, rs[..k + 1]) == StepScan(t, Insert(rs[k]))
  {
    hide InsertOne, StepScan, HeapInv, Below, Linked, Fits, InsertAll;
    assert rs[..k + 1][..k] == rs[..k] && rs[..k + 1][k] == rs[k];
    InsertedNext(s, rs, k);
    LoadSame(s, rs[..k]);
  }

  /** The loading loop through the insertion of part4, from any page on: the page chain follows the
      directory after it if it did so before, and the pages hold what part5 puts on them. */
  method LoadLinked(hf: HeapFile, rs: seq<Rec>) returns (status: Status)
    requires hf.Valid() && hf.Sole() && Fits(hf.Insertion(), rs) && hf.PoolNow().upl != []
    requires forall i :: 0 <= i < |rs| ==> 1 <= |rs[i]| <= MAXREC
    modifies hf`curPage, hf`curPageNo, hf`curDirtyFlag, hf`touched, hf`curIdx, hf`curRec, hf`hdrDirtyFlag
    modifies hf.bm, hf.bm.bufTable, hf.bm.hashTable, hf.bm.hashTable.ht, hf.bm.hashTable.Repr, hf.bm.disk, hf.bm.mems
    ensures fresh(hf.bm.hashTable.Repr - old(hf.bm.hashTable.Repr))
    ensures status == OK && hf.Valid() && hf.Sole() && hf.Spares()
    ensures old(hf.Insertion()).at <= |old(hf.Insertion()).file|
    ensures SameScan(InsertAll(old(hf.Insertion()), rs), hf.Insertion())
    ensures Linked(old(hf.Contents())) ==> Linked(hf.Contents()) && Chained(hf.Contents())
    ensures Sum(AllEntries(hf.Contents())) == Sum(AllEntries(old(hf.Contents()))) + multiset(rs)
  {
    hide ChainedHash.HashTable.Valid, BufMgr.Valid, BufMgr.Wired, BufMgr.Abs, Inv, HeapFile.Open, HeapFile.View;
    hide HeapFile.Sole, HeapFile.FileSize, HeapFile.Contents, HeapFile.Valid, HeapFile.Insertion, HeapFile.PoolNow;
    hide LeavesOthers, Linked, Chained, StepScan, Inserts, InsertAll, Fits, AllEntries, Sum, HeapFile.AtRecord;
    hide HeapFile.CurrentEntry;
    status := OK;
    ReadyToLoad(hf);
    ghost var s := hf.Insertion();
    NoInserts(s, rs);
    LeavesSelf(hf.PoolNow(), hf.touched, hf.filePtr);
    for k := 0 to |rs|
      invariant fresh(hf.bm.hashTable.Repr - old(hf.bm.hashTable.Repr))
      invariant status == OK && hf.Valid() && hf.Sole() && hf.Spares() && hf.Insertion() == Inserts(s, rs[..k])
    {
      ReadyToLoad(hf);
      InsertsNext(s, rs, k);
      ghost var q, t := hf.PoolNow(), hf.touched;
      var rid;
      status, rid := InsertLinked(hf, rs[k]);
      LeavesTrans(old(hf.PoolNow()), old(hf.touched), q, t, hf.PoolNow(), hf.touched, hf.filePtr);
    }
    assert rs[..|rs|] == rs;
    ReadyToLoad(hf);
    Loaded(s, rs);
  }

  lemma ReadyToLoad(hf: HeapFile)
    requires hf.Valid()
    ensures InsertingOK(hf.Insertion()) && hf.Insertion() == Inserting(hf.Contents(), hf.curIdx, hf.FileSize())
    ensures hf.Contents() != [] && 0 <= hf.FileSize()
  {
    hide ChainedHash.HashTable.Valid, BufMgr.Valid, BufMgr.Wired, BufMgr.Abs, Inv, HeapFile.Open, HeapFile.View;
    hide HeapFile.FileSize, HeapFile.Contents, HeapFile.Insertion, HeapInv, Below;
    hf.InsertionSound();
    hf.FileEnd();
  }

  lemma NoInserts(s: Inserting, rs: seq<Rec>)
    ensures Inserts(s, rs[..0]) == s
  {
  }

  /** What the load makes of the file. */
  lemma Loaded(s: Inserting, rs: seq<Rec>)
    requires InsertingOK(s) && s.file != [] && 0 <= s.next && forall i :: 0 <= i < |rs| ==> |rs[i]| <= MAXREC
    ensures s.at <= |s.file| && SameScan(InsertAll(s, rs), Inserts(s, rs))
    ensures Linked(s.file) ==> Linked(Inserts(s, rs).file) && Chained(Inserts(s, rs).file)
    ensures Sum(AllEntries(Inserts(s, rs).file)) == Sum(AllEntries(s.file)) + multiset(rs)
  {
    hide Inserts, InsertAll, Linked, HeapInv, Below, AllEntries, Path;
    LoadSame(s, rs);
    InsertAllGains(s, rs);
    SameRecords(InsertAll(s, rs).file, Inserts(s, rs).file);
    if Linked(s.file) {
      LoadLinks(s, rs);
      InvSize(Inserts(s, rs).file);
      LinkedIffPath(Inserts(s, rs).file);
    }
  }
}
