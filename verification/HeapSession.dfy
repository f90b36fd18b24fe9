/** Opening and closing a heap file: what the constructor and the destructor of HeapFile do
    to the pool. */
module HeapSession {
  import opened StatusCodes
  import opened PageSpec
  import opened FileSpec
  import opened Disks
  import opened PoolSpec
  import opened PoolRefinement
  import opened PoolOrder
  import opened PoolClient
  import opened HeapSpec
  import opened HeapLayout
  import opened HeapClient

  lemma {:induction false} WithoutLength(s: seq<int>, x: int)
    ensures |Without(s, x)| == if x in s then |s| - 1 else |s|
  {
    if s != [] && s[0] != x {
      WithoutLength(s[1..], x);
    }
  }

  /** readPage of a page that was not pinned takes one frame off the list. */
  lemma ReadTakes(p: Pool, k: Key)
    requires Inv(p) && ReadStatus(p, k) == OK && !Pinned(p, k)
    ensures |AfterRead(p, k).upl| == |p.upl| - 1
  {
    AfterReadList(p, k);
    if k in p.index {
      assert IndexedOK(p, k) && FrameOK(p, p.index[k]);
      WithoutLength(p.upl, p.index[k]);
    }
  }

  /** Turning to another page, nobody else holding pages of the file, leaves as many frames on
      the list as there were. */
  lemma TurnKeepsCount(p: Pool, f: FileRef, cur: int, curDirty: bool, n: int)
    requires Inv(p) && PageExists(p.disk, Key(f, n)) && Alone(p, f, cur) && n != HEADER
    requires Inv(AfterUnPin(p, Key(f, cur), curDirty, false))
    requires ReadStatus(AfterUnPin(p, Key(f, cur), curDirty, false), Key(f, n)) == OK
    ensures |TurnedTo(p, f, cur, curDirty, n).upl| == |p.upl|
  {
    hide Inv, AfterUnPin, AfterRead, ReadStatus;
    UnPinLists(p, Key(f, cur), curDirty);
    UnPinnedNow(p, Key(f, cur), curDirty);
    if n != cur {
      UnPinKeeps(p, Key(f, cur), curDirty, false, Key(f, n), f);
    }
    ReadTakes(AfterUnPin(p, Key(f, cur), curDirty, false), Key(f, n));
  }

  /** allocPage takes one frame off the list. */
  lemma AllocCount(p: Pool, f: FileRef)
    requires Inv(p) && f in p.disk && CanAllocate(p.disk[f]) && AllocStatus(p, f) == OK
    ensures |AfterAlloc(p, f).upl| == |p.upl| - 1
  {
    hide Inv, AfterAlloc, CanAllocate;
    AllocAnyFrame(p, f);
    AfterAllocList(p, f);
  }

  lemma AllocAnyFrame(p: Pool, f: FileRef)
    requires Inv(p) && f in p.disk && AllocStatus(p, f) == OK
    ensures p.upl != []
  {
  }

  /** Turning to a new page leaves as many frames on the list as there were. */
  lemma NewKeepsCount(p: Pool, f: FileRef, touched: set<Key>, hdrDirty: bool, cur: int, curDirty: bool)
    requires Anchored(p, f, touched, hdrDirty, cur, curDirty) && Alone(p, f, cur) && |p.disk[f]| < MAXPAGES
    ensures |TurnedToNew(p, f, cur, curDirty).upl| == |p.upl|
  {
    hide Inv, Coherent, AfterUnPin, AfterAlloc, AllocStatus, CanAllocate, Announced;
    AllocReady(p, f, touched, hdrDirty, cur, curDirty);
    UnPinLists(p, Key(f, cur), curDirty);
    AllocCount(AfterUnPin(p, Key(f, cur), curDirty, false), f);
  }

  /** readPage takes at most one frame off the list. */
  lemma ReadTakesOne(p: Pool, k: Key)
    requires Inv(p)
    ensures |AfterRead(p, k).upl| >= |p.upl| - 1
  {
    hide Evicted, Loaded, Released, PinnedAgain, AfterRead, ReadStatus;
    AfterReadList(p, k);
    if k in p.index {
      assert IndexedOK(p, k);
      WithoutLength(p.upl, p.index[k]);
    }
  }

  /** No page of the file is pinned. */
  ghost predicate Closed(p: Pool, f: FileRef) { forall k :: Pinned(p, k) ==> k.file != f }

  /** The file has no unannounced change. */
  ghost predicate NoneOf(touched: set<Key>, f: FileRef) { forall k :: k in touched ==> k.file != f }

  /** A file a HeapFile can be made for. */
  ghost predicate IsHeapFile(p: Pool, f: FileRef, touched: set<Key>) {
    && Inv(p) && f in p.disk && Coherent(p, touched) && NoneOf(touched, f)
    && HeapOK(ViewOf(p, f)) && |p.disk[f][0]| == PAGESIZE && Next(p.disk[f][0]) == -1
  }

  /** The same, with the two frames it takes. */
  ghost predicate Openable(p: Pool, f: FileRef, touched: set<Key>) { IsHeapFile(p, f, touched) && |p.upl| >= 2 }

  /** A heap file that nobody has open. */
  ghost predicate Stored(p: Pool, f: FileRef, touched: set<Key>) { IsHeapFile(p, f, touched) && Closed(p, f) }

  /** What is in it. */
  ghost function HeapIn(p: Pool, f: FileRef, touched: set<Key>): Heap {
    if Stored(p, f, touched) then HeapOf(ViewOf(p, f)) else []
  }

  /** The first data page of the file. */
  ghost function FirstNo(p: Pool, f: FileRef, touched: set<Key>): int
    requires IsHeapFile(p, f, touched)
  {
    HeapOf(ViewOf(p, f))[0].no
  }

  lemma FirstIs(p: Pool, f: FileRef, touched: set<Key>)
    requires Openable(p, f, touched) || IsHeapFile(p, f, touched)
    ensures IsHeapFile(p, f, touched)
    ensures Inv(p) && f in p.disk && HeapOK(ViewOf(p, f)) && HeapOf(ViewOf(p, f)) != []
    ensures HeapOf(ViewOf(p, f))[0].no == FirstNo(p, f, touched)
  {
  }

  ghost function HeaderRead(p: Pool, f: FileRef): Pool
    requires Inv(p)
  {
    AfterRead(p, Key(f, HEADER))
  }

  ghost function BothRead(p: Pool, f: FileRef, n: int): Pool
    requires Inv(p)
  {
    InvRead(p, Key(f, HEADER));
    AfterRead(HeaderRead(p, f), Key(f, n))
  }

  /** What the constructor returns: the status of the read that fails, if one does. */
  ghost function OpenStatus(p: Pool, f: FileRef, touched: set<Key>): Status
    requires IsHeapFile(p, f, touched)
  {
    InvRead(p, Key(f, HEADER));
    if ReadStatus(p, Key(f, HEADER)) != OK then ReadStatus(p, Key(f, HEADER))
    else ReadStatus(HeaderRead(p, f), Key(f, FirstNo(p, f, touched)))
  }

  /** The header page is read first; its first entry names a page that exists. */
  lemma OpeningHeader(p: Pool, f: FileRef, touched: set<Key>)
    requires IsHeapFile(p, f, touched)
    ensures ReadStatus(p, Key(f, HEADER)) in {OK, BUFFEREXCEEDED} && Inv(HeaderRead(p, f))
    ensures OpenStatus(p, f, touched) in {OK, BUFFEREXCEEDED}
    ensures var n := FirstNo(p, f, touched); var q := HeaderRead(p, f);
      && HEADER in ViewOf(p, f) && |ViewOf(p, f)[HEADER]| == PAGESIZE
      && n == EntryPage(ViewOf(p, f)[HEADER], 0) && n != HEADER
      && PageExists(p.disk, Key(f, HEADER)) && PageExists(q.disk, Key(f, n)) && f != NullFile
    ensures ReadStatus(p, Key(f, HEADER)) == OK ==> var q := HeaderRead(p, f);
      && Pinned(q, Key(f, HEADER)) && 0 <= q.index[Key(f, HEADER)] < |q.mem|
      && q.mem[q.index[Key(f, HEADER)]] == ViewOf(p, f)[HEADER]
  {
    hide Inv, Coherent, SameViews, View, AfterRead, HeapInv;
    FileFacts(p, f);
    EntryExists(p, f, 0);
    ReadViews(p, Key(f, HEADER), touched);
    var q := HeaderRead(p, f);
    SameViewsPages(p, q);
    if ReadStatus(p, Key(f, HEADER)) == OK {
      ViewOfResident(q, Key(f, HEADER));
    }
  }

  /** A page that is not pinned is read exactly when a frame is left. */
  lemma ReadFinds(p: Pool, k: Key)
    requires Inv(p) && !Pinned(p, k) && PageExists(p.disk, k) && k.file != NullFile
    ensures ReadStatus(p, k) == if p.upl == [] then BUFFEREXCEEDED else OK
  {
    if k in p.index {
      assert IndexedOK(p, k) && FrameOK(p, p.index[k]);
    }
  }

  /** Two frames are always enough. */
  lemma OpensWithTwo(p: Pool, f: FileRef, touched: set<Key>)
    requires Openable(p, f, touched)
    ensures IsHeapFile(p, f, touched) && OpenStatus(p, f, touched) == OK
  {
    hide Inv, Coherent, AfterRead, HeapOK, FirstNo;
    OpeningHeader(p, f, touched);
    ReadTakesOne(p, Key(f, HEADER));
  }

  /** A heap file that nobody has open, and cannot be opened, leaves no frame. */
  lemma OpenFails(p: Pool, f: FileRef, touched: set<Key>)
    requires IsHeapFile(p, f, touched) && Closed(p, f) && OpenStatus(p, f, touched) != OK
    ensures Inv(HeaderRead(p, f)) && (ReadStatus(p, Key(f, HEADER)) != OK ==> HeaderRead(p, f).upl == [])
    ensures ReadStatus(p, Key(f, HEADER)) == OK ==> BothRead(p, f, FirstNo(p, f, touched)).upl == []
  {
    hide Inv, Coherent, AfterRead, HeapOK, FirstNo, ReadStatus;
    OpeningHeader(p, f, touched);
    ReadFinds(p, Key(f, HEADER));
    if p.upl == [] {
      NoneToRead(p, Key(f, HEADER));
    } else {
      var n := FirstNo(p, f, touched);
      var q := HeaderRead(p, f);
      ReadKeeps(p, Key(f, HEADER), Key(f, n), f);
      ReadFinds(q, Key(f, n));
      NoneToRead(q, Key(f, n));
    }
  }

  lemma NoneToRead(p: Pool, k: Key)
    requires Inv(p) && p.upl == [] && ReadStatus(p, k) != OK
    ensures AfterRead(p, k) == p
  {
  }

  /** A heap file that nobody has open takes two frames: it opens exactly when two are left. */
  lemma OpensIff(p: Pool, f: FileRef, touched: set<Key>)
    requires IsHeapFile(p, f, touched) && Closed(p, f)
    ensures OpenStatus(p, f, touched) == if |p.upl| >= 2 then OK else BUFFEREXCEEDED
    ensures |p.upl| >= 2 ==> |BothRead(p, f, FirstNo(p, f, touched)).upl| == |p.upl| - 2
  {
    hide Inv, Coherent, AfterRead, HeapOK, FirstNo, ReadStatus;
    OpeningHeader(p, f, touched);
    ReadFinds(p, Key(f, HEADER));
    if p.upl != [] {
      var n := FirstNo(p, f, touched);
      var q := HeaderRead(p, f);
      ReadTakes(p, Key(f, HEADER));
      ReadKeeps(p, Key(f, HEADER), Key(f, n), f);
      ReadFinds(q, Key(f, n));
      if q.upl != [] {
        ReadTakes(q, Key(f, n));
      }
    }
  }

  /** Both pages read, the file is anchored: nothing changed, nothing owed. */
  lemma Opening(p: Pool, f: FileRef, touched: set<Key>)
    requires IsHeapFile(p, f, touched) && OpenStatus(p, f, touched) == OK
    ensures var n := FirstNo(p, f, touched); var q := HeaderRead(p, f); var r := BothRead(p, f, n);
      && Anchored(r, f, touched, false, n, false) && Inv(r) && SameFile(p, r, f) && ViewOf(r, f) == ViewOf(p, f)
      && Pinned(r, Key(f, HEADER)) && r.index[Key(f, HEADER)] == q.index[Key(f, HEADER)]
  {
    hide Inv, Coherent, SameViews, View, AfterRead, HeapOK, FirstNo;
    var n := FirstNo(p, f, touched);
    OpeningHeader(p, f, touched);
    var q := HeaderRead(p, f);
    var r := BothRead(p, f, n);
    ReadViews(p, Key(f, HEADER), touched);
    ReadViews(q, Key(f, n), touched);
    ReadFile(p, Key(f, HEADER), f);
    ReadFile(q, Key(f, n), f);
    ReadKeeps(q, Key(f, n), Key(f, HEADER), f);
    SameViewsTrans(p, q, r);
    SameViewOf(p, r, f);
  }

  lemma ReadFile(p: Pool, k: Key, f: FileRef)
    requires Inv(p) && f in p.disk
    ensures SameFile(p, AfterRead(p, k), f)
  {
    hide Inv, AfterRead;
    ReadKeeps(p, k, Key(k.file, k.pageNo + 1), f);
  }

  lemma OpeningAlone(p: Pool, f: FileRef, touched: set<Key>)
    requires IsHeapFile(p, f, touched) && OpenStatus(p, f, touched) == OK && Closed(p, f)
    ensures Alone(BothRead(p, f, FirstNo(p, f, touched)), f, FirstNo(p, f, touched))
  {
    hide Inv, Coherent, SameViews, View, AfterRead, HeapOK, FirstNo;
    var n := FirstNo(p, f, touched);
    OpeningHeader(p, f, touched);
    var q := HeaderRead(p, f);
    var r := BothRead(p, f, n);
    ReadKeeps(p, Key(f, HEADER), Key(f, n), f);
    PinsZero(p, Key(f, HEADER));
    ReadPinsOne(p, Key(f, HEADER));
    ReadKeeps(q, Key(f, n), Key(f, HEADER), f);
    PinsZero(q, Key(f, n));
    ReadPinsOne(q, Key(f, n));
    ReadFile(p, Key(f, HEADER), f);
    forall k | Pinned(r, k) && k.file == f
      ensures k.pageNo == HEADER || k.pageNo == n
    {
      if k != Key(f, n) && k != Key(f, HEADER) {
        ReadKeeps(q, Key(f, n), k, f);
        ReadKeeps(p, Key(f, HEADER), k, f);
      }
    }
  }

  // ----- Closing -----

  /** The destructor unpins the current page, then the header page. */
  ghost function BothUnPinned(p: Pool, f: FileRef, cur: int, curDirty: bool, hdrDirty: bool): Pool
    requires Inv(p)
  {
    InvUnPin(p, Key(f, cur), curDirty, false);
    AfterUnPin(AfterUnPin(p, Key(f, cur), curDirty, false), Key(f, HEADER), hdrDirty, false)
  }

  ghost function BothAnnounced(touched: set<Key>, f: FileRef, cur: int, curDirty: bool, hdrDirty: bool): set<Key> {
    Announced(Announced(touched, Key(f, cur), curDirty), Key(f, HEADER), hdrDirty)
  }

  /** Closing changes no page, and every change of the file has been announced. */
  lemma Closing(p: Pool, f: FileRef, touched: set<Key>, hdrDirty: bool, cur: int, curDirty: bool)
    requires Anchored(p, f, touched, hdrDirty, cur, curDirty)
    ensures var q := AfterUnPin(p, Key(f, cur), curDirty, false);
      Inv(q) && UnPinStatus(p, Key(f, cur)) == OK && UnPinStatus(q, Key(f, HEADER)) == OK
    ensures var r := BothUnPinned(p, f, cur, curDirty, hdrDirty);
      var t := BothAnnounced(touched, f, cur, curDirty, hdrDirty);
      && Inv(r) && f in r.disk && Coherent(r, t) && NoneOf(t, f) && ViewOf(r, f) == ViewOf(p, f) && SameFile(p, r, f)
  {
    hide Inv, Coherent, SameViews, View, AfterUnPin;
    UnPinCurrent(p, f, touched, hdrDirty, cur, curDirty);
    var q := AfterUnPin(p, Key(f, cur), curDirty, false);
    var t := Announced(touched, Key(f, cur), curDirty);
    UnPinOfPinned(q, Key(f, HEADER));
    UnPinViews(q, Key(f, HEADER), hdrDirty, false, t);
    UnPinKeeps(q, Key(f, HEADER), hdrDirty, false, Key(f, cur), f);
    SameViewsTrans(p, q, AfterUnPin(q, Key(f, HEADER), hdrDirty, false));
    SameViewOf(p, AfterUnPin(q, Key(f, HEADER), hdrDirty, false), f);
  }

  lemma UnPinOfPinned(p: Pool, k: Key)
    requires Inv(p) && Pinned(p, k)
    ensures UnPinStatus(p, k) == OK
  {
  }

  /** When nobody else has the file open, closing leaves no page of it pinned. */
  lemma ClosingAlone(p: Pool, f: FileRef, touched: set<Key>, hdrDirty: bool, cur: int, curDirty: bool)
    requires Anchored(p, f, touched, hdrDirty, cur, curDirty) && Alone(p, f, cur)
    ensures Closed(BothUnPinned(p, f, cur, curDirty, hdrDirty), f)
  {
    hide Inv, Coherent, AfterUnPin;
    UnPinCurrent(p, f, touched, hdrDirty, cur, curDirty);
    var q := AfterUnPin(p, Key(f, cur), curDirty, false);
    var r := AfterUnPin(q, Key(f, HEADER), hdrDirty, false);
    UnPinKeeps(p, Key(f, cur), curDirty, false, Key(f, HEADER), f);
    UnPinnedNow(p, Key(f, cur), curDirty);
    UnPinnedNow(q, Key(f, HEADER), hdrDirty);
    forall k | Pinned(r, k)
      ensures k.file != f
    {
      if k.file == f {
        if k != Key(f, HEADER) {
          UnPinKeeps(q, Key(f, HEADER), hdrDirty, false, k, f);
          if k != Key(f, cur) {
            UnPinKeeps(p, Key(f, cur), curDirty, false, k, f);
          }
        }
        assert false;
      }
    }
  }

  /** The last pin of a page puts its frame on the list. */
  lemma UnPinLists(p: Pool, k: Key, dirty: bool)
    requires Inv(p) && Pins(p, k) == 1
    ensures |AfterUnPin(p, k, dirty, false).upl| == |p.upl| + 1
  {
    assert IndexedOK(p, k);
  }

  /** A heap file closed by its only user can be opened again. */
  lemma Reopenable(p: Pool, f: FileRef, touched: set<Key>, hdrDirty: bool, cur: int, curDirty: bool)
    requires Anchored(p, f, touched, hdrDirty, cur, curDirty) && Alone(p, f, cur) && HeapOK(ViewOf(p, f))
    ensures Openable(BothUnPinned(p, f, cur, curDirty, hdrDirty), f, BothAnnounced(touched, f, cur, curDirty, hdrDirty))
    ensures |BothUnPinned(p, f, cur, curDirty, hdrDirty).upl| == |p.upl| + 2
  {
    hide Inv, Coherent, AfterUnPin, Announced;
    Closing(p, f, touched, hdrDirty, cur, curDirty);
    UnPinCurrent(p, f, touched, hdrDirty, cur, curDirty);
    UnPinKeeps(p, Key(f, cur), curDirty, false, Key(f, HEADER), f);
    UnPinLists(p, Key(f, cur), curDirty);
    UnPinLists(AfterUnPin(p, Key(f, cur), curDirty, false), Key(f, HEADER), hdrDirty);
    FileFacts(p, f);
  }
}
