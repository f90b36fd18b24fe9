/** Two HeapFile objects open on one file, as in generateRun (sort.C): the scan of the source waits
    where it is while the records it has found are fetched again through another object. */
module SharedFiles {
  import opened Bytes
  import opened StatusCodes
  import opened PageSpec
  import opened FileSpec
  import opened Disks
  import opened PoolSpec
  import opened PoolRefinement
  import opened PoolOrder
  import opened PoolClient
  import opened BufMgrs
  import opened HeapSpec
  import opened HeapLayout
  import opened HeapClient
  import opened HeapSession
  import opened Interference
  import opened HeapFiles
  import opened Together
  import ChainedHash

  // ----- Pins -----

  function One(b: bool): int { if b then 1 else 0 }

  /** readPage adds one pin to the page it returns, and none to any other. */
  lemma ReadPins(p: Pool, k: Key, n: Key)
    requires Inv(p) && ReadStatus(p, k) == OK && PageExists(p.disk, k)
    ensures Inv(AfterRead(p, k)) && Pins(AfterRead(p, k), n) == Pins(p, n) + One(n == k)
  {
    hide Inv, AfterRead, ReadStatus;
    InvRead(p, k);
    if n == k {
      ReadPinsOne(p, k);
    } else {
      ReadKeeps(p, k, n, k.file);
      if !Pinned(p, n) {
        PinsZero(p, n);
        PinsZero(AfterRead(p, k), n);
      }
    }
  }

  /** unPinPage takes one pin off the page, and none off any other. */
  lemma UnPinPins(p: Pool, k: Key, n: Key)
    requires Inv(p) && Pinned(p, k) && k.file in p.disk
    ensures Inv(AfterUnPin(p, k, false, false)) && Pins(AfterUnPin(p, k, false, false), n) == Pins(p, n) - One(n == k)
  {
    hide Inv, AfterUnPin;
    InvUnPin(p, k, false, false);
    if n == k {
      UnPinnedOne(p, k);
    } else {
      UnPinKeeps(p, k, false, false, n, k.file);
      if !Pinned(p, n) {
        PinsZero(p, n);
        PinsZero(AfterUnPin(p, k, false, false), n);
      }
    }
  }

  lemma UnPinnedOne(p: Pool, k: Key)
    requires Inv(p) && Pinned(p, k)
    ensures Pins(AfterUnPin(p, k, false, false), k) == Pins(p, k) - 1
  {
    assert IndexedOK(p, k);
  }

  /** A frame is on the list exactly while its page is not pinned. */
  lemma ReadCount(p: Pool, k: Key)
    requires Inv(p) && ReadStatus(p, k) == OK
    ensures |AfterRead(p, k).upl| == |p.upl| - One(!Pinned(p, k))
  {
    if Pinned(p, k) {
      AfterReadList(p, k);
    } else {
      ReadTakes(p, k);
    }
  }

  lemma UnPinCount(p: Pool, k: Key)
    requires Inv(p) && Pinned(p, k)
    ensures |AfterUnPin(p, k, false, false).upl| == |p.upl| + One(Pins(p, k) == 1)
  {
  }

  /** A page stays in its frame while it is pinned. */
  lemma ReadStays(p: Pool, k: Key, n: Key)
    requires Inv(p) && Pinned(p, n) && PageExists(p.disk, k)
    ensures n in AfterRead(p, k).index && AfterRead(p, k).index[n] == p.index[n]
  {
    hide Inv, AfterRead;
    if n == k {
      AgainInFrame(p, k);
    } else {
      ReadKeeps(p, k, n, k.file);
    }
  }

  lemma AgainInFrame(p: Pool, k: Key)
    requires Inv(p) && Pinned(p, k)
    ensures k in AfterRead(p, k).index && AfterRead(p, k).index[k] == p.index[k]
  {
  }

  // ----- Two users of one file -----

  /** How often each page is pinned when two users hold the header page, one of them page a and the
      other page b. */
  function PinsOfTwo(n: int, a: int, b: int): int { if n == HEADER then 2 else One(n == a) + One(n == b) }

  /** File f has two users and is owed nothing; one has page a for its current page, the other b. */
  ghost predicate Twin(p: Pool, f: FileRef, t: set<Key>, a: int, b: int) {
    && Inv(p) && f in p.disk && Coherent(p, t) && NoneOf(t, f) && Next(p.disk[f][0]) == -1
    && a != HEADER && b != HEADER && PageExists(p.disk, Key(f, a)) && PageExists(p.disk, Key(f, b))
    && forall n: int :: Pins(p, Key(f, n)) == PinsOfTwo(n, a, b)
  }

  /** The frames that are left, and the one that the second user holds for itself. */
  ghost function FramesFor(p: Pool, a: int, b: int): int { |p.upl| + One(a != b) }

  lemma TwinAnchored(p: Pool, f: FileRef, t: set<Key>, a: int, b: int)
    requires Twin(p, f, t, a, b)
    ensures Anchored(p, f, t, false, a, false) && Anchored(p, f, t, false, b, false)
  {
    hide Inv, Coherent;
    assert Pins(p, Key(f, HEADER)) == 2 && Pins(p, Key(f, a)) >= 1 && Pins(p, Key(f, b)) >= 1;
  }

  /** What is done with another file leaves both users alone. */
  lemma TwinKept(p: Pool, s: set<Key>, q: Pool, t: set<Key>, g: FileRef, f: FileRef, a: int, b: int)
    requires Twin(p, f, s, a, b) && LeavesOthers(p, s, q, t, g) && g != f
    ensures Twin(q, f, t, a, b)
    ensures SeesSame(p, q, t, f, false, a, false) && SeesSame(p, q, t, f, false, b, false)
  {
    hide Inv, Coherent, Pins, ViewOf;
    TwinAnchored(p, f, s, a, b);
    assert SameTo(p, q, t, f, false, a, false) && SameTo(p, q, t, f, false, b, false);
    AnchoredPages(q, f, t, false, a, false);
    AnchoredPages(q, f, t, false, b, false);
    forall n: int
      ensures Pins(q, Key(f, n)) == PinsOfTwo(n, a, b)
    {
      assert Pins(q, Key(f, n)) == Pins(p, Key(f, n));
    }
  }

  /** The pages that one user has pinned look as they did, from where they were. */
  lemma SeenStill(p: Pool, q: Pool, f: FileRef, t: set<Key>, a: int)
    requires Anchored(p, f, t, false, a, false) && Inv(q) && Coherent(q, t) && SameViews(p, q) && SameFile(p, q, f)
    requires Pinned(q, Key(f, HEADER)) && q.index[Key(f, HEADER)] == p.index[Key(f, HEADER)]
    requires Pinned(q, Key(f, a)) && q.index[Key(f, a)] == p.index[Key(f, a)]
    ensures SeesSame(p, q, t, f, false, a, false)
  {
    hide Inv, Coherent, View, SameViews;
    SameViewOf(p, q, f);
  }

  /** A second user opens the file. */
  lemma TwinOpened(p: Pool, f: FileRef, t: set<Key>, a: int)
    requires Anchored(p, f, t, false, a, false) && Alone(p, f, a) && HeapOK(ViewOf(p, f)) && p.upl != []
    ensures IsHeapFile(p, f, t) && OpenStatus(p, f, t) == OK
    ensures var n := FirstNo(p, f, t); var q := BothRead(p, f, n);
      Twin(q, f, t, a, n) && SeesSame(p, q, t, f, false, a, false) && FramesFor(q, a, n) == |p.upl|
  {
    hide Inv, Coherent, SameViews, View, AfterRead, HeapOK, FirstNo, ReadStatus, OpenStatus;
    AnchoredPages(p, f, t, false, a, false);
    FileFacts(p, f);
    SecondOpens(p, f, t, a);
    OpeningHeader(p, f, t);
    var n := FirstNo(p, f, t);
    var q := HeaderRead(p, f);
    var r := BothRead(p, f, n);
    OpenReads(p, f, t);
    Opening(p, f, t);
    ReadViews(p, Key(f, HEADER), t);
    ReadViews(q, Key(f, n), t);
    SameViewsTrans(p, q, r);
    forall m: int
      ensures Pins(r, Key(f, m)) == PinsOfTwo(m, a, n)
    {
      ReadPins(p, Key(f, HEADER), Key(f, m));
      ReadPins(q, Key(f, n), Key(f, m));
      AlonePins(p, f, a, m);
    }
    ReadCount(p, Key(f, HEADER));
    ReadCount(q, Key(f, n));
    AlonePins(p, f, a, n);
    ReadPins(p, Key(f, HEADER), Key(f, n));
    ReadStays(p, Key(f, HEADER), Key(f, a));
    ReadPins(p, Key(f, HEADER), Key(f, a));
    ReadStays(q, Key(f, n), Key(f, a));
    ReadStays(p, Key(f, HEADER), Key(f, HEADER));
    ReadStays(q, Key(f, n), Key(f, HEADER));
    assert Pins(r, Key(f, a)) >= 1 && Pins(r, Key(f, HEADER)) >= 1;
    SeenStill(p, r, f, t, a);
    PinnedExists(r, Key(f, n));
    PinnedExists(r, Key(f, a));
  }

  lemma PinnedExists(p: Pool, k: Key)
    requires Inv(p) && Pins(p, k) >= 1
    ensures PageExists(p.disk, k)
  {
    assert IndexedOK(p, k) && FrameOK(p, p.index[k]);
  }

  lemma AlonePins(p: Pool, f: FileRef, a: int, n: int)
    requires Inv(p) && Alone(p, f, a) && a != HEADER
    ensures Pins(p, Key(f, n)) == One(n == HEADER || n == a)
  {
    hide Inv;
    if !Pinned(p, Key(f, n)) {
      PinsZero(p, Key(f, n));
    }
  }

  /** With one frame left, or its first page pinned already, the second user finds its pages. */
  lemma SecondOpens(p: Pool, f: FileRef, t: set<Key>, a: int)
    requires Anchored(p, f, t, false, a, false) && HeapOK(ViewOf(p, f)) && p.upl != []
    requires |p.disk[f][0]| == PAGESIZE
    ensures IsHeapFile(p, f, t) && OpenStatus(p, f, t) == OK
  {
    hide Inv, Coherent, AfterRead, HeapOK, FirstNo;
    OpeningHeader(p, f, t);
    ReadCount(p, Key(f, HEADER));
  }

  lemma OpenReads(p: Pool, f: FileRef, t: set<Key>)
    requires IsHeapFile(p, f, t) && OpenStatus(p, f, t) == OK
    ensures ReadStatus(p, Key(f, HEADER)) == OK && Inv(HeaderRead(p, f))
    ensures ReadStatus(HeaderRead(p, f), Key(f, FirstNo(p, f, t))) == OK
  {
    hide Inv, Coherent, AfterRead, HeapOK, ReadStatus;
    InvRead(p, Key(f, HEADER));
  }

  /** The second user turns to page n.  It finds a frame if there is one, or if it had one to itself. */
  lemma TwinTurn(p: Pool, f: FileRef, t: set<Key>, a: int, b: int, n: int)
    requires Twin(p, f, t, a, b) && PageExists(p.disk, Key(f, n)) && n != HEADER && FramesFor(p, a, b) >= 1
    ensures Inv(AfterUnPin(p, Key(f, b), false, false))
    ensures ReadStatus(AfterUnPin(p, Key(f, b), false, false), Key(f, n)) == OK
    ensures var q := TurnedTo(p, f, b, false, n);
      Twin(q, f, t, a, n) && SeesSame(p, q, t, f, false, a, false) && FramesFor(q, a, n) == FramesFor(p, a, b)
  {
    hide Inv, Coherent, SameViews, View, AfterUnPin, AfterRead, ReadStatus, Pins;
    TwinAnchored(p, f, t, a, b);
    Turn(p, f, t, false, b, false, n);
    var q := AfterUnPin(p, Key(f, b), false, false);
    var r := TurnedTo(p, f, b, false, n);
    TwinReads(p, f, t, a, b, n);
    UnPinKeepsFile(p, f, b);
    SameViewsPages(p, r);
    forall m: int
      ensures Pins(r, Key(f, m)) == PinsOfTwo(m, a, n)
    {
      UnPinPins(p, Key(f, b), Key(f, m));
      ReadPins(q, Key(f, n), Key(f, m));
      assert Pins(p, Key(f, m)) == PinsOfTwo(m, a, b);
    }
    TwinStays(p, f, t, a, b, n);
    SeenStill(p, r, f, t, a);
    TwinCount(p, f, t, a, b, n);
  }

  /** Unpinning makes and destroys no page. */
  lemma UnPinKeepsFile(p: Pool, f: FileRef, b: int)
    requires Inv(p) && f in p.disk
    ensures AfterUnPin(p, Key(f, b), false, false).disk == p.disk
    ensures AfterUnPin(p, Key(f, b), false, false).index == p.index
  {
    hide Inv;
  }

  lemma TwinReads(p: Pool, f: FileRef, t: set<Key>, a: int, b: int, n: int)
    requires Twin(p, f, t, a, b) && PageExists(p.disk, Key(f, n)) && n != HEADER && FramesFor(p, a, b) >= 1
    ensures Inv(AfterUnPin(p, Key(f, b), false, false))
    ensures ReadStatus(AfterUnPin(p, Key(f, b), false, false), Key(f, n)) == OK
  {
    hide Inv, Coherent, AfterUnPin;
    var q := AfterUnPin(p, Key(f, b), false, false);
    assert Pins(p, Key(f, b)) == PinsOfTwo(b, a, b);
    UnPinPins(p, Key(f, b), Key(f, b));
    UnPinCount(p, Key(f, b));
    UnPinKeepsFile(p, f, b);
    FileFacts(p, f);
  }

  lemma TwinCount(p: Pool, f: FileRef, t: set<Key>, a: int, b: int, n: int)
    requires Twin(p, f, t, a, b) && PageExists(p.disk, Key(f, n)) && n != HEADER && FramesFor(p, a, b) >= 1
    ensures FramesFor(TurnedTo(p, f, b, false, n), a, n) == FramesFor(p, a, b)
  {
    hide Inv, Coherent, AfterUnPin, AfterRead, ReadStatus;
    TwinReads(p, f, t, a, b, n);
    var q := AfterUnPin(p, Key(f, b), false, false);
    assert Pins(p, Key(f, b)) == PinsOfTwo(b, a, b) && Pins(p, Key(f, n)) == PinsOfTwo(n, a, b);
    UnPinCount(p, Key(f, b));
    UnPinPins(p, Key(f, b), Key(f, n));
    ReadCount(q, Key(f, n));
    if Pins(q, Key(f, n)) == 0 {
      NotPinned(q, Key(f, n));
    }
  }

  lemma NotPinned(p: Pool, k: Key)
    requires Pins(p, k) == 0
    ensures !Pinned(p, k)
  {
  }

  lemma TwinStays(p: Pool, f: FileRef, t: set<Key>, a: int, b: int, n: int)
    requires Twin(p, f, t, a, b) && PageExists(p.disk, Key(f, n)) && n != HEADER && FramesFor(p, a, b) >= 1
    ensures var r := TurnedTo(p, f, b, false, n);
      && Pinned(r, Key(f, HEADER)) && r.index[Key(f, HEADER)] == p.index[Key(f, HEADER)]
      && Pinned(r, Key(f, a)) && r.index[Key(f, a)] == p.index[Key(f, a)]
  {
    hide Inv, Coherent, AfterUnPin, AfterRead, ReadStatus;
    TwinReads(p, f, t, a, b, n);
    var q := AfterUnPin(p, Key(f, b), false, false);
    UnPinKeepsFile(p, f, b);
    forall m | m == HEADER || m == a
      ensures var r := TurnedTo(p, f, b, false, n); Pinned(r, Key(f, m)) && r.index[Key(f, m)] == p.index[Key(f, m)]
    {
      assert Pins(p, Key(f, m)) == PinsOfTwo(m, a, b);
      UnPinPins(p, Key(f, b), Key(f, m));
      ReadStays(q, Key(f, n), Key(f, m));
      ReadPins(q, Key(f, n), Key(f, m));
    }
  }

  /** The destructor of a plain HeapFile unpins the header page first. */
  ghost function TwinGone(p: Pool, f: FileRef, b: int): Pool
    requires Inv(p)
  {
    InvUnPin(p, Key(f, HEADER), false, false);
    AfterUnPin(AfterUnPin(p, Key(f, HEADER), false, false), Key(f, b), false, false)
  }

  /** The second user closes the file, and the first is alone with it again. */
  lemma TwinClosed(p: Pool, f: FileRef, t: set<Key>, a: int, b: int)
    requires Twin(p, f, t, a, b)
    ensures UnPinStatus(p, Key(f, HEADER)) == OK && Inv(AfterUnPin(p, Key(f, HEADER), false, false))
    ensures UnPinStatus(AfterUnPin(p, Key(f, HEADER), false, false), Key(f, b)) == OK
    ensures var q := TwinGone(p, f, b);
      SeesSame(p, q, t, f, false, a, false) && Alone(q, f, a) && |q.upl| == FramesFor(p, a, b)
    ensures LeavesOthers(p, t, TwinGone(p, f, b), t, f)
  {
    hide Inv, Coherent, SameViews, View, AfterUnPin, UnPinStatus, LeavesOthers;
    TwinAnchored(p, f, t, a, b);
    var h, k := Key(f, HEADER), Key(f, b);
    InvUnPin(p, h, false, false);
    var q := AfterUnPin(p, h, false, false);
    var r := AfterUnPin(q, k, false, false);
    assert Pins(p, h) == 2 && Pins(p, k) == PinsOfTwo(b, a, b) && Pins(p, Key(f, a)) == PinsOfTwo(a, a, b);
    UnPinOfPinned(p, h);
    UnPinViews(p, h, false, false, t);
    UnPinPins(p, h, k);
    UnPinPins(p, h, h);
    UnPinPins(p, h, Key(f, a));
    UnPinKeepsFile(p, f, HEADER);
    UnPinOfPinned(q, k);
    UnPinViews(q, k, false, false, t);
    UnPinPins(q, k, h);
    UnPinPins(q, k, Key(f, a));
    UnPinKeepsFile(q, f, b);
    SameViewsTrans(p, q, r);
    FileFacts(p, f);
    SeenStill(p, r, f, t, a);
    UnPinCount(p, h);
    UnPinCount(q, k);
    forall n | Pinned(r, n) && n.file == f
      ensures n.pageNo == HEADER || n.pageNo == a
    {
      UnPinPins(p, h, n);
      UnPinPins(q, k, n);
      assert Pins(p, Key(f, n.pageNo)) == PinsOfTwo(n.pageNo, a, b);
    }
    StepLeaves(p, t, UnPin(h, false, false), f);
    StepLeaves(q, t, UnPin(k, false, false), f);
    LeavesTrans(p, t, q, t, r, t, f);
  }

  // ----- The two objects -----

  /** Nothing has been changed through the object. */
  ghost predicate Clean(f: HeapFile)
    reads f`hdrDirtyFlag, f`curDirtyFlag
  {
    !f.hdrDirtyFlag && !f.curDirtyFlag
  }

  /** A scan, and a second object on its file. */
  ghost predicate Twins(hfs: HeapFile, hfile: HeapFile)
    reads hfs, hfs.bm, hfs.bm.bufTable, hfs.bm.hashTable, hfs.bm.hashTable.ht, hfs.bm.hashTable.Repr, hfs.bm.disk
    reads hfs.bm.mems, hfile
  {
    && hfs != hfile && hfs.bm == hfile.bm && hfs.filePtr == hfile.filePtr && hfs.touched == hfile.touched
    && hfs.Valid() && Clean(hfs) && hfile.Open() && Clean(hfile)
    && Twin(hfs.PoolNow(), hfs.filePtr, hfs.touched, hfs.curPageNo, hfile.curPageNo)
  }

  ghost function FramesLeft(hfs: HeapFile, hfile: HeapFile): int
    reads hfs, hfs.bm, hfs.bm.bufTable, hfs.bm.hashTable, hfs.bm.hashTable.ht, hfs.bm.hashTable.Repr, hfs.bm.disk
    reads hfs.bm.mems, hfile
  {
    FramesFor(hfs.PoolNow(), hfs.curPageNo, hfile.curPageNo)
  }

  lemma AloneFacts(hfs: HeapFile) returns (p: Pool)
    requires hfs.Valid() && hfs.Sole() && Clean(hfs) && hfs.PoolNow().upl != []
    ensures hfs.Open() && hfs.bm.Valid() && hfs.bm.Wired() && p == hfs.bm.Abs() == hfs.PoolNow()
    ensures IsHeapFile(p, hfs.filePtr, hfs.touched) && OpenStatus(p, hfs.filePtr, hfs.touched) == OK
    ensures var n := FirstNo(p, hfs.filePtr, hfs.touched); var q := BothRead(p, hfs.filePtr, n);
      && Twin(q, hfs.filePtr, hfs.touched, hfs.curPageNo, n) && FramesFor(q, hfs.curPageNo, n) == |p.upl|
      && SeesSame(p, q, hfs.touched, hfs.filePtr, false, hfs.curPageNo, false)
      && n == HeapOf(ViewOf(p, hfs.filePtr))[0].no
  {
    hide ChainedHash.HashTable.Valid, BufMgr.Wired, BufMgr.Abs, Inv, Coherent, Twin, SeesSame, IsHeapFile, FirstNo;
    hide OpenStatus, BothRead, FramesFor, HeapOf, IntAt;
    OpenNow(hfs);
    p := hfs.bm.Abs();
    TwinOpened(p, hfs.filePtr, hfs.touched, hfs.curPageNo);
    FirstIs(p, hfs.filePtr, hfs.touched);
  }

  /** A second HeapFile for the file that is being scanned. */
  method OpenTwin(hfs: HeapFile) returns (hfile: HeapFile)
    requires hfs.Valid() && hfs.Sole() && Clean(hfs) && hfs.PoolNow().upl != []
    modifies hfs.bm, hfs.bm.bufTable, hfs.bm.hashTable, hfs.bm.hashTable.ht, hfs.bm.hashTable.Repr, hfs.bm.disk
    modifies hfs.bm.mems
    ensures fresh(hfs.bm.hashTable.Repr - old(hfs.bm.hashTable.Repr)) && fresh(hfile)
    ensures Twins(hfs, hfile) && FramesLeft(hfs, hfile) == |old(hfs.PoolNow()).upl|
    ensures hfs.Contents() == old(hfs.Contents()) && hfs.Ahead() == old(hfs.Ahead())
    ensures LeavesOthers(old(hfs.PoolNow()), hfs.touched, hfs.PoolNow(), hfs.touched, hfs.filePtr)
  {
    hide ChainedHash.HashTable.Valid, BufMgr.Wired, BufMgr.Abs, BufMgr.Valid, Inv, LeavesOthers, IsHeapFile, Closed;
    hide OpenStatus, BothRead, FramesFor, Twin, SeesSame, FirstNo, HeapOf;
    hide HeapFile.Valid, HeapFile.Open, HeapFile.Sole, HeapFile.PoolNow, HeapFile.FileSize, HeapFile.View;
    hide HeapFile.Contents, HeapFile.Ahead, HeapFile.Insertion, HeapFile.AtRecord, HeapFile.CurrentEntry;
    ghost var p := AloneFacts(hfs);
    hfile := new HeapFile(hfs.bm, hfs.filePtr, hfs.float, hfs.touched);
    OpenNow(hfile);
    hfs.StillOpen();
    hfs.StillPositioned();
  }

  /** HeapFile::getRecord through the second object, for a record that the scan has found. */
  method FetchTwin(hfs: HeapFile, hfile: HeapFile, rid: RID) returns (status: Status, rec: Rec)
    requires Twins(hfs, hfile) && FramesLeft(hfs, hfile) >= 1
    requires SlotThere(hfs.Contents(), rid) && LiveThere(hfs.Contents(), rid)
    modifies hfile`curPage, hfile`curPageNo, hfile`touched, hfile`curDirtyFlag, hfile`curRec
    modifies hfs.bm, hfs.bm.bufTable, hfs.bm.hashTable, hfs.bm.hashTable.ht, hfs.bm.hashTable.Repr, hfs.bm.disk
    modifies hfs.bm.mems
    ensures fresh(hfs.bm.hashTable.Repr - old(hfs.bm.hashTable.Repr)) && status == OK
    ensures rec == RecordAt(old(hfs.Contents()), rid)
    ensures Twins(hfs, hfile) && FramesLeft(hfs, hfile) == old(FramesLeft(hfs, hfile))
    ensures hfs.Contents() == old(hfs.Contents()) && hfs.Ahead() == old(hfs.Ahead())
    ensures LeavesOthers(old(hfs.PoolNow()), hfs.touched, hfs.PoolNow(), hfs.touched, hfs.filePtr)
  {
    hide ChainedHash.HashTable.Valid, BufMgr.Wired, BufMgr.Abs, BufMgr.Valid, Inv, LeavesOthers;
    hide FramesFor, Twin, SeesSame, HeapOf, HeapOK, SlotThere, LiveThere, RecordAt, TurnedTo, AfterUnPin, ReadStatus;
    hide HeapFile.Valid, HeapFile.Open, HeapFile.Sole, HeapFile.PoolNow, HeapFile.FileSize, HeapFile.View;
    hide HeapFile.Contents, HeapFile.Ahead, HeapFile.Insertion, HeapFile.AtRecord, HeapFile.CurrentEntry;
    ghost var p := TwinFacts(hfs, hfile, rid);
    status, rec := hfile.GetRecordAt(rid);
    hfs.StillOpen();
    hfs.StillPositioned();
  }

  lemma TwinFacts(hfs: HeapFile, hfile: HeapFile, rid: RID) returns (p: Pool)
    requires Twins(hfs, hfile) && FramesLeft(hfs, hfile) >= 1 && SlotThere(hfs.Contents(), rid)
    ensures hfs.Open() && hfs.bm.Valid() && hfs.bm.Wired() && p == hfs.bm.Abs() == hfs.PoolNow() == hfile.PoolNow()
    ensures HeapOK(hfile.View()) && HeapOf(hfile.View()) == hfs.Contents()
    ensures var f, a, b := hfs.filePtr, hfs.curPageNo, hfile.curPageNo; var q := TurnedTo(p, f, b, false, rid.pageNo);
      && Inv(p) && Inv(AfterUnPin(p, Key(f, b), false, false))
      && ReadStatus(AfterUnPin(p, Key(f, b), false, false), Key(f, rid.pageNo)) == OK
      && Twin(q, f, hfs.touched, a, rid.pageNo) && SeesSame(p, q, hfs.touched, f, false, a, false)
      && FramesFor(q, a, rid.pageNo) == FramesFor(p, a, b)
    ensures rid.pageNo == hfile.curPageNo ==>
      SeesSame(p, p, hfs.touched, hfs.filePtr, false, hfs.curPageNo, false)
  {
    hide ChainedHash.HashTable.Valid, BufMgr.Wired, BufMgr.Abs, Inv, Coherent, HeapOf, HeapInv, IntAt;
    hide TurnedTo, AfterUnPin, ReadStatus, ViewOf;
    OpenNow(hfs);
    p := hfs.bm.Abs();
    hfile.PageOfRid(rid);
    TwinTurn(p, hfs.filePtr, hfs.touched, hfs.curPageNo, hfile.curPageNo, rid.pageNo);
    AnchoredPages(p, hfs.filePtr, hfs.touched, false, hfs.curPageNo, false);
  }

  /** The destructor of the second object: it unpins the header page, then its current page. */
  method CloseTwin(hfs: HeapFile, hfile: HeapFile)
    requires Twins(hfs, hfile)
    modifies hfs.bm, hfs.bm.bufTable
    ensures hfs.Valid() && hfs.Sole() && |hfs.PoolNow().upl| == old(FramesLeft(hfs, hfile))
    ensures hfs.Contents() == old(hfs.Contents()) && hfs.Ahead() == old(hfs.Ahead())
    ensures LeavesOthers(old(hfs.PoolNow()), hfs.touched, hfs.PoolNow(), hfs.touched, hfs.filePtr)
  {
    hide ChainedHash.HashTable.Valid, BufMgr.Wired, BufMgr.Abs, Inv, LeavesOthers, Coherent;
    hide FramesFor, Twin, SeesSame, HeapOf, HeapOK, AfterUnPin, UnPinStatus, Alone;
    hide HeapFile.Valid, HeapFile.Open, HeapFile.PoolNow, HeapFile.FileSize, HeapFile.View;
    hide HeapFile.Contents, HeapFile.Ahead, HeapFile.Insertion, HeapFile.AtRecord, HeapFile.CurrentEntry;
    OpenNow(hfs);
    TwinClosed(hfs.bm.Abs(), hfs.filePtr, hfs.touched, hfs.curPageNo, hfile.curPageNo);
    var status := hfile.bm.UnPinPage(hfile.filePtr, HEADER, hfile.hdrDirtyFlag, false);
    status := hfile.bm.UnPinPage(hfile.filePtr, hfile.curPageNo, hfile.curDirtyFlag, false);
    hfs.StillOpen();
    hfs.StillPositioned();
  }
}
