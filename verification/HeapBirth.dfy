/** A file in the making: what createHeapFile does to the pool between opening the new file and
    unpinning its pages. */
module HeapBirth {
  import opened Bytes
  import opened StatusCodes
  import opened PageSpec
  import opened PageLayout
  import opened FileSpec
  import opened Disks
  import opened PoolSpec
  import opened PoolRefinement
  import opened PoolClient
  import opened HeapSpec
  import opened HeapLayout
  import opened HeapClient
  import opened HeapSession
  import opened Interference

  ghost function KeysOf(f: FileRef, held: FileView): set<Key> { set n | n in held :: Key(f, n) }

  /** What is owed while these pages are being made. */
  ghost function Owing(owed: set<Key>, f: FileRef, held: FileView): set<Key> { owed + KeysOf(f, held) }

  /** The file consists of the pages of `held`, each pinned once by its maker, who owes a dirty
      unpin for each. */
  ghost predicate Building(p: Pool, f: FileRef, owed: set<Key>, held: FileView) {
    && Inv(p) && f in p.disk && NoneOf(owed, f) && Coherent(p, Owing(owed, f, held))
    && |p.disk[f][0]| == PAGESIZE && Next(p.disk[f][0]) == -1 && ViewOf(p, f) == held
    && forall n :: Pins(p, Key(f, n)) == if n in held then 1 else 0
  }

  lemma BuildingStart(p: Pool, f: FileRef, owed: set<Key>)
    requires Inv(p) && f in p.disk && p.disk[f] == [EmptyHeader()] && Coherent(p, owed) && NoneOf(owed, f)
    ensures Building(p, f, owed, map[])
  {
    hide EmptyHeader, IntAt, Coherent, Refines;
    EmptyFile();
    EmptyNext();
    assert Owing(owed, f, map[]) == owed;
    forall n: int
      ensures Pins(p, Key(f, n)) == 0
    {
      var k := Key(f, n);
      if k in p.index {
        FileOfResident(p, k);
        assert false;
      }
    }
  }

  lemma EmptyNext()
    ensures |EmptyHeader()| == PAGESIZE && Next(EmptyHeader()) == -1
  {
    hide IntAt, ZeroPage, PutInt, IntOf;
    var a := PutInt(ZeroPage(), NEXTFREE, -1);
    var b := PutInt(a, FIRSTPAGE, -1);
    PutIntFrame(a, FIRSTPAGE, -1, NEXTFREE);
    PutIntFrame(b, NUMPAGES, 1, NEXTFREE);
  }

  /** A page can be added. */
  lemma BuildingRoom(p: Pool, f: FileRef, owed: set<Key>, held: FileView)
    requires Building(p, f, owed, held) && |p.disk[f]| < MAXPAGES && p.upl != []
    ensures CanAllocate(p.disk[f]) && AllocatedPage(p.disk[f]) == |p.disk[f]| && AllocStatus(p, f) == OK
    ensures AllocKey(p, f) == Key(f, |p.disk[f]|) && |p.disk[f]| !in held
  {
    hide Inv, Coherent, AfterAlloc, AllocStatus, CanAllocate, View, IntAt;
    FileFacts(p, f);
    AllocExtends(p, f);
  }

  /** It leaves the others as they are. */
  lemma BuildingView(p: Pool, f: FileRef, owed: set<Key>, held: FileView)
    requires Building(p, f, owed, held) && |p.disk[f]| < MAXPAGES && p.upl != []
    ensures CanAllocate(p.disk[f])
    ensures var q := AfterAlloc(p, f); var no := |p.disk[f]|;
      && Inv(q) && f in q.disk && no in ViewOf(q, f) && ViewOf(q, f) == held[no := ViewOf(q, f)[no]]
      && Coherent(q, Owing(owed, f, held[no := ViewOf(q, f)[no]]))
  {
    hide Inv, Coherent, AfterAlloc, AllocStatus, CanAllocate, SameViews, View, IntAt;
    var no := |p.disk[f]|;
    BuildingRoom(p, f, owed, held);
    AllocGrows(p, f);
    AllocViews(p, f, Owing(owed, f, held));
    var q := AfterAlloc(p, f);
    forall n | n in held
      ensures ViewOf(q, f)[n] == held[n]
    {
      assert PageExists(p.disk, Key(f, n)) && SameView(p, q, Key(f, n));
    }
    var held' := held[no := ViewOf(q, f)[no]];
    assert Owing(owed, f, held') == Owing(owed, f, held) + {Key(f, no)};
  }

  /** One page more, its bytes stale. */
  lemma BuildingAlloc(p: Pool, f: FileRef, owed: set<Key>, held: FileView)
    requires Building(p, f, owed, held) && |p.disk[f]| < MAXPAGES && p.upl != []
    ensures CanAllocate(p.disk[f]) && AllocatedPage(p.disk[f]) == |p.disk[f]| && AllocStatus(p, f) == OK
    ensures var q := AfterAlloc(p, f); var no := |p.disk[f]|;
      && Inv(q) && f in q.disk && no in ViewOf(q, f) && no !in held
      && Building(q, f, owed, held[no := ViewOf(q, f)[no]])
      && |q.upl| == |p.upl| - 1 && |q.disk[f]| == no + 1
      && (forall n :: n in held ==> StaysPinned(p, q, Key(f, n)))
  {
    hide Inv, Coherent, AfterAlloc, AllocStatus, CanAllocate, SameViews, View, IntAt, Owing, ViewOf;
    var no := |p.disk[f]|;
    BuildingRoom(p, f, owed, held);
    BuildingView(p, f, owed, held);
    AllocGrows(p, f);
    AllocCount(p, f);
    var q := AfterAlloc(p, f);
    var held' := held[no := ViewOf(q, f)[no]];
    forall n | n in held
      ensures StaysPinned(p, q, Key(f, n))
    {
      AllocKeeps(p, f, Key(f, n));
    }
    forall n: int
      ensures Pins(q, Key(f, n)) == if n in held' then 1 else 0
    {
      if n != no {
        AllocPins(p, f, Key(f, n));
      }
    }
  }

  lemma AllocLeaves(p: Pool, f: FileRef, owed: set<Key>, held: FileView, b: Image)
    requires Building(p, f, owed, held) && CanAllocate(p.disk[f]) && AllocatedPage(p.disk[f]) == |p.disk[f]|
    requires AllocStatus(p, f) == OK
    ensures LeavesOthers(p, Owing(owed, f, held), AfterAlloc(p, f), Owing(owed, f, held[|p.disk[f]| := b]), f)
  {
    hide Inv, Coherent, AfterAlloc, AllocStatus, CanAllocate, LeavesOthers, AllocatedPage, View;
    StepLeaves(p, Owing(owed, f, held), Alloc(f), f);
    assert Owing(owed, f, held[|p.disk[f]| := b]) == Owing(owed, f, held) + {Key(f, |p.disk[f]|)};
  }

  lemma AllocPins(p: Pool, f: FileRef, k: Key)
    requires Inv(p) && f in p.disk && CanAllocate(p.disk[f]) && k != AllocKey(p, f) && AllocStatus(p, f) == OK
    ensures Pins(p, k) >= 0 && Pins(AfterAlloc(p, f), k) == Pins(p, k)
  {
    hide AfterAlloc, CanAllocate, AllocStatus;
    InvAlloc(p, f);
    AllocKeeps(p, f, k);
    if k in p.index {
      assert IndexedOK(p, k) && FrameOK(p, p.index[k]);
    }
    var q := AfterAlloc(p, f);
    if k in q.index {
      assert IndexedOK(q, k) && FrameOK(q, q.index[k]);
    }
  }

  /** One of the pages gets new bytes. */
  lemma BuildingWrite(p: Pool, f: FileRef, owed: set<Key>, held: FileView, n: int, b: Image)
    requires Building(p, f, owed, held) && n in held && |b| == PAGESIZE
    ensures Key(f, n) in p.index && 0 <= p.index[Key(f, n)] < |p.mem|
    ensures Building(Written(p, p.index[Key(f, n)], b), f, owed, held[n := b])
    ensures LeavesOthers(p, Owing(owed, f, held), Written(p, p.index[Key(f, n)], b), Owing(owed, f, held[n := b]), f)
  {
    hide Inv, Coherent, SameViews, View, IntAt, LeavesOthers;
    var k := Key(f, n);
    assert Pins(p, k) == 1;
    WrittenViews(p, k, b, Owing(owed, f, held));
    WriteLeaves(p, f, Owing(owed, f, held), k, b);
    ViewOfResident(p, k);
    var q := Written(p, p.index[k], b);
    assert Owing(owed, f, held) + {k} == Owing(owed, f, held[n := b]);
    assert Owing(owed, f, held) + {k} == Owing(owed, f, held);
    assert ViewOf(q, f) == held[n := b] by {
      forall m | m in held && m != n
        ensures ViewOf(q, f)[m] == held[m]
      {
        assert PageExists(p.disk, Key(f, m)) && SameView(p, q, Key(f, m));
      }
    }
    WrittenParts(p, p.index[k], b);
    forall m: int
      ensures Pins(q, Key(f, m)) == if m in held[n := b] then 1 else 0
    {
      assert Pins(p, Key(f, m)) == if m in held then 1 else 0;
    }
  }

  /** Unpinning one of the pages dirty: it needs no more care. */
  ghost function UnPinnedDirty(p: Pool, f: FileRef, n: int): Pool
    requires Inv(p)
  {
    AfterUnPin(p, Key(f, n), true, false)
  }

  ghost function BothFinished(p: Pool, f: FileRef, a: int, b: int): Pool
    requires Inv(p)
  {
    InvUnPin(p, Key(f, a), true, false);
    UnPinnedDirty(UnPinnedDirty(p, f, a), f, b)
  }

  /** The two pages of a new heap file, unpinned dirty, are as its maker wrote them. */
  lemma BuildingDone(p: Pool, f: FileRef, owed: set<Key>, held: FileView, a: int, b: int)
    requires Building(p, f, owed, held) && a != b && held.Keys == {a, b}
    ensures Inv(UnPinnedDirty(p, f, a)) && UnPinStatus(p, Key(f, a)) == OK
    ensures UnPinStatus(UnPinnedDirty(p, f, a), Key(f, b)) == OK
    ensures var q := BothFinished(p, f, a, b);
      && Inv(q) && Coherent(q, owed) && Closed(q, f) && f in q.disk && ViewOf(q, f) == held
      && |q.disk[f][0]| == PAGESIZE && Next(q.disk[f][0]) == -1 && |q.upl| == |p.upl| + 2
  {
    hide Inv, Coherent, SameViews, View, IntAt, AfterUnPin, UnPinStatus, Announced;
    assert Pins(p, Key(f, a)) == 1 && Pins(p, Key(f, b)) == 1;
    var t := Owing(owed, f, held);
    InvUnPin(p, Key(f, a), true, false);
    var p1 := UnPinnedDirty(p, f, a);
    var q := UnPinnedDirty(p1, f, b);
    var t1 := Announced(t, Key(f, a), true);
    UnPinOfPinned(p, Key(f, a));
    UnPinViews(p, Key(f, a), true, false, t);
    UnPinKeeps(p, Key(f, a), true, false, Key(f, b), f);
    UnPinLists(p, Key(f, a), true);
    UnPinOfPinned(p1, Key(f, b));
    UnPinViews(p1, Key(f, b), true, false, t1);
    UnPinKeeps(p1, Key(f, b), true, false, Key(f, a), f);
    UnPinLists(p1, Key(f, b), true);
    AnnouncedBoth(f, owed, held, a, b);
    SameViewsTrans(p, p1, q);
    SameViewOf(p, q, f);
    UnPinnedNow(p, Key(f, a), true);
    UnPinnedNow(p1, Key(f, b), true);
    forall k | Pinned(q, k)
      ensures k.file != f
    {
      if k.file == f {
        assert k == Key(f, a) || k == Key(f, b) || Pins(p, Key(f, k.pageNo)) == 0;
        StillPinned(p, f, a, b, k);
        assert false;
      }
    }
  }

  lemma DoneLeaves(p: Pool, f: FileRef, owed: set<Key>, held: FileView, a: int, b: int)
    requires Building(p, f, owed, held) && a != b && held.Keys == {a, b}
    ensures LeavesOthers(p, Owing(owed, f, held), BothFinished(p, f, a, b), owed, f)
  {
    hide Inv, Coherent, View, AfterUnPin, UnPinStatus, Announced, LeavesOthers;
    BuildingDone(p, f, owed, held, a, b);
    var t := Owing(owed, f, held);
    var p1 := UnPinnedDirty(p, f, a);
    var t1 := Announced(t, Key(f, a), true);
    StepLeaves(p, t, UnPin(Key(f, a), true, false), f);
    StepLeaves(p1, t1, UnPin(Key(f, b), true, false), f);
    AnnouncedBoth(f, owed, held, a, b);
    LeavesTrans(p, t, p1, t1, BothFinished(p, f, a, b), owed, f);
  }

  lemma AnnouncedBoth(f: FileRef, owed: set<Key>, held: FileView, a: int, b: int)
    requires held.Keys == {a, b} && NoneOf(owed, f)
    ensures Announced(Announced(Owing(owed, f, held), Key(f, a), true), Key(f, b), true) == owed
  {
  }

  /** A page pinned at the end is another one, and was pinned at the beginning. */
  lemma StillPinned(p: Pool, f: FileRef, a: int, b: int, k: Key)
    requires Inv(p) && Inv(UnPinnedDirty(p, f, a)) && f in p.disk && f in UnPinnedDirty(p, f, a).disk
    requires Pinned(UnPinnedDirty(UnPinnedDirty(p, f, a), f, b), k)
    requires !Pinned(UnPinnedDirty(p, f, a), Key(f, a))
    requires !Pinned(UnPinnedDirty(UnPinnedDirty(p, f, a), f, b), Key(f, b))
    ensures k != Key(f, a) && k != Key(f, b) && Pins(p, k) >= 1
  {
    hide Inv, AfterUnPin;
    var p1 := UnPinnedDirty(p, f, a);
    if k != Key(f, b) {
      UnPinKeeps(p1, Key(f, b), true, false, k, f);
      if k != Key(f, a) {
        UnPinKeeps(p, Key(f, a), true, false, k, f);
      }
    }
  }

  /** The two pages that createHeapFile writes make a heap file with one empty page. */
  lemma NewHeap(v: FileView, no: int)
    requires v.Keys == {HEADER, no} && no > HEADER && |v[HEADER]| == PAGESIZE && Blank(v[no], no)
    requires PageCnt(v[HEADER]) == 1 && EntryPage(v[HEADER], 0) == no && EntrySpace(v[HEADER], 0) == REGION
    requires forall k :: 1 <= k < DIRCNT ==> EntryPage(v[HEADER], k) == -1
    ensures HeapOK(v) && HeapOf(v) == FreshHeap(no)
  {
    hide IntAt, WF, Slots, Sound, LiveBytes;
    assert EntryOK(v, v[HEADER], 0);
    HeapAt(v, 0);
    BlankRoom(v[no], no);
    assert PageInv(NewPage(no));
  }
}
