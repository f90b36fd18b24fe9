/** Open heap files do not disturb one another: whatever obedient clients do with other files,
    an open heap file keeps its pins, its frames and its contents. */
module Interference {
  import opened Bytes
  import opened StatusCodes
  import opened PageSpec
  import opened FileSpec
  import opened Disks
  import opened PoolSpec
  import opened PoolFree
  import opened PoolRefinement
  import opened PoolClient
  import opened HeapSpec
  import opened HeapLayout
  import opened HeapClient
  import opened HeapSession

  /** The call concerns some other file. */
  predicate Elsewhere(e: Event, f: FileRef) {
    match e
    case Read(k) => k.file != f
    case Write(k, b) => k.file != f
    case UnPin(k, dirty, loveIt) => k.file != f
    case Flush(g) => g != f
    case Dispose(k) => k.file != f
    case Alloc(g) => g != f
  }

  /** Obedient clients are polite, since sound free lists let files hand out pages. */
  lemma ObeysPolite(p: Pool, touched: set<Key>, free: FreePages, e: Event)
    requires Inv(p) && ListsOK(p, free) && Obeys(p, touched, free, e)
    ensures Polite(p, touched, e)
  {
    hide Inv, ListsOK, CanAllocate, Step, StepFree;
    StepKeepsLists(p, free, e);
  }

  /** What a client of file f relies on for its page k. */
  ghost predicate Kept(p: Pool, q: Pool, k: Key) {
    StaysPinned(p, q, k) && (Pinned(q, k) ==> Pinned(p, k)) && SameFile(p, q, k.file)
  }

  lemma KeptTrans(p: Pool, q: Pool, r: Pool, k: Key)
    requires Kept(p, q, k) && Kept(q, r, k)
    ensures Kept(p, r, k)
  {
  }

  lemma KeptSelf(p: Pool, k: Key)
    requires Inv(p) && k.file in p.disk
    ensures Kept(p, p, k)
  {
    assert FileOK(p.disk[k.file]);
  }

  lemma FlushedKept(p: Pool, i: nat, k: Key)
    requires Inv(p) && i < |p.frames| && p.frames[i].valid && p.frames[i].pinCnt == 0 && k.file in p.disk
    ensures Inv(Flushed(p, i)) && Kept(p, Flushed(p, i), k)
  {
    InvFlushed(p, i);
    assert FrameOK(p, i) && FileOK(p.disk[k.file]);
    if k in p.index {
      assert IndexedOK(p, k);
    }
  }

  lemma {:induction false} FlushKept(p: Pool, g: FileRef, i: nat, k: Key)
    requires Inv(p) && i <= |p.frames| && k.file in p.disk
    ensures Kept(p, AfterFlush(p, g, i), k)
    decreases |p.frames| - i
  {
    hide Inv, Flushed, Kept;
    KeptSelf(p, k);
    if i < |p.frames| {
      FrameFields(p, i);
      if p.frames[i].file != g {
        FlushKept(p, g, i + 1, k);
      } else if p.frames[i].valid && p.frames[i].pinCnt <= 0 {
        FlushedKept(p, i, k);
        KeptFile(p, Flushed(p, i), k);
        FlushKept(Flushed(p, i), g, i + 1, k);
        KeptTrans(p, Flushed(p, i), AfterFlush(Flushed(p, i), g, i + 1), k);
      }
    }
  }

  lemma KeptFile(p: Pool, q: Pool, k: Key)
    requires Kept(p, q, k)
    ensures k.file in q.disk
  {
  }

  lemma DisposeKept(p: Pool, n: Key, k: Key)
    requires Inv(p) && k.file in p.disk && n.file != k.file
    ensures Kept(p, AfterDispose(p, n), k)
  {
    hide Disposed;
    assert FileOK(p.disk[k.file]);
    if k in p.index {
      assert IndexedOK(p, k);
    }
    if n in p.index {
      assert IndexedOK(p, n) && FrameOK(p, p.index[n]);
    }
  }

  lemma AllocKept(p: Pool, g: FileRef, k: Key)
    requires Inv(p) && g in p.disk && CanAllocate(p.disk[g]) && k.file in p.disk && g != k.file
    ensures Kept(p, AfterAlloc(p, g), k)
  {
    hide Inv, Evicted, Allocated, IntAt;
    InvAllocDisk(p, g);
    var d := AllocDisk(p, g);
    AllocDiskKeeps(p, g);
    FileFacts(p, k.file);
    if d.upl != [] {
      EvictedKeeps(d, k, k.file);
      EvictedIndex(d, k);
      EvictedFrame(d);
      EvictedSize(d, g);
    }
  }

  lemma WriteKept(p: Pool, n: Key, b: Image, k: Key)
    requires Inv(p) && Pinned(p, n) && |b| == PAGESIZE && k.file in p.disk
    ensures Kept(p, Step(p, Event.Write(n, b)), k)
  {
    assert FileOK(p.disk[k.file]);
  }

  /** Every page of the file has as many pins as it had. */
  ghost predicate SamePins(p: Pool, q: Pool, f: FileRef) { forall n: int :: Pins(q, Key(f, n)) == Pins(p, Key(f, n)) }

  lemma KeptPins(p: Pool, q: Pool, k: Key)
    requires Inv(p) && Inv(q) && Kept(p, q, k)
    ensures Pins(q, k) == Pins(p, k)
  {
    hide Inv;
    if !Pinned(p, k) {
      PinsZero(p, k);
      PinsZero(q, k);
    }
  }

  /** Hence it has the same users. */
  lemma SameUsers(p: Pool, q: Pool, f: FileRef)
    requires Inv(p) && Inv(q) && SamePins(p, q, f)
    ensures Closed(p, f) ==> Closed(q, f)
    ensures forall cur :: Alone(p, f, cur) ==> Alone(q, f, cur)
  {
    hide Inv;
    forall k | Pinned(q, k) && k.file == f
      ensures Pinned(p, k)
    {
      assert Pins(q, Key(f, k.pageNo)) == Pins(p, Key(f, k.pageNo));
      if !Pinned(p, k) {
        PinsZero(p, k);
      }
    }
  }

  /** One call elsewhere leaves the pins and frames of the file's pages alone. */
  lemma StepKept(p: Pool, touched: set<Key>, e: Event, k: Key)
    requires Inv(p) && k.file in p.disk && Elsewhere(e, k.file) && Polite(p, touched, e)
    ensures Kept(p, Step(p, e), k)
  {
    hide Inv, CanAllocate, AfterRead, AfterUnPin, AfterDispose, AfterAlloc, AfterFlush, FlushStatus;
    match e
    case Read(n) => ReadKeeps(p, n, k, k.file);
    case Write(n, b) => WriteKept(p, n, b, k);
    case UnPin(n, dirty, loveIt) => UnPinKeeps(p, n, dirty, loveIt, k, k.file);
    case Flush(g) => FlushKept(p, g, 0, k);
    case Dispose(n) => DisposeKept(p, n, k);
    case Alloc(g) => AllocKept(p, g, k);
  }

  /** One call elsewhere leaves the bytes of the file's pages alone, and the pool coherent. */
  lemma StepShows(p: Pool, touched: set<Key>, e: Event, f: FileRef)
    requires Inv(p) && Coherent(p, touched) && f in p.disk && Elsewhere(e, f) && Polite(p, touched, e)
    ensures Inv(Step(p, e)) && Coherent(Step(p, e), StepTouched(p, touched, e))
    ensures forall n: int :: PageExists(p.disk, Key(f, n)) ==>
      PageExists(Step(p, e).disk, Key(f, n)) && SameView(p, Step(p, e), Key(f, n))
  {
    hide Inv, Coherent, CanAllocate, AfterRead, AfterUnPin, AfterDispose, AfterAlloc, AfterFlush, View, FlushStatus;
    StepKeepsInv(p, e);
    match e
    case Read(k) => ReadViews(p, k, touched);
    case Write(k, b) => WrittenViews(p, k, b, touched);
    case UnPin(k, dirty, loveIt) =>
      UnPinViews(p, k, dirty, loveIt, touched);
      if UnPinStatus(p, k) != OK {
        UnPinRefused(p, k, dirty, loveIt);
      }
    case Flush(g) => FlushViews(p, g, 0, touched);
    case Dispose(k) => DisposeViews(p, k, touched);
    case Alloc(g) => AllocViews(p, g, touched);
  }

  /** One call elsewhere leaves an open heap file as it is. */
  lemma StepElsewhere(p: Pool, f: FileRef, touched: set<Key>, hdrDirty: bool, cur: int, curDirty: bool, e: Event)
    requires Anchored(p, f, touched, hdrDirty, cur, curDirty) && Elsewhere(e, f) && Polite(p, touched, e)
    ensures var q := Step(p, e);
      && Anchored(q, f, StepTouched(p, touched, e), hdrDirty, cur, curDirty)
      && Inv(q) && f in q.disk && ViewOf(q, f) == ViewOf(p, f)
      && q.index[Key(f, HEADER)] == p.index[Key(f, HEADER)] && q.index[Key(f, cur)] == p.index[Key(f, cur)]
      && SamePins(p, q, f)
  {
    hide Inv, Coherent, Step, View, Polite;
    StepShows(p, touched, e, f);
    StepKept(p, touched, e, Key(f, HEADER));
    StepKept(p, touched, e, Key(f, cur));
    var q := Step(p, e);
    AnchoredPages(p, f, touched, hdrDirty, cur, curDirty);
    TouchedElsewhere(p, touched, e, f);
    forall n | n in ViewOf(p, f)
      ensures ViewOf(q, f)[n] == ViewOf(p, f)[n]
    {
      assert PageExists(p.disk, Key(f, n)) && SameView(p, q, Key(f, n));
    }
    StepPins(p, touched, e, f);
  }

  lemma StepPins(p: Pool, touched: set<Key>, e: Event, f: FileRef)
    requires Inv(p) && Inv(Step(p, e)) && f in p.disk && Elsewhere(e, f) && Polite(p, touched, e)
    ensures SamePins(p, Step(p, e), f)
  {
    hide Inv, Step, Polite, Elsewhere, Pins, Kept;
    forall n: int
      ensures Pins(Step(p, e), Key(f, n)) == Pins(p, Key(f, n))
    {
      StepKept(p, touched, e, Key(f, n));
      KeptPins(p, Step(p, e), Key(f, n));
    }
  }

  lemma TouchedElsewhere(p: Pool, touched: set<Key>, e: Event, f: FileRef)
    requires Inv(p) && Elsewhere(e, f)
    ensures forall k :: k in StepTouched(p, touched, e) && k.file == f ==> k in touched
  {
    hide Inv, AllocStatus, UnPinStatus;
  }

  /** Whatever obedient clients do with other files, and however pages are evicted for it, an
      open heap file keeps its two pages in the frames it holds them in, owes what it owed, and
      reads as before; and no one has joined it if no one was with it. */
  lemma {:induction false} RunElsewhere(p: Pool, f: FileRef, touched: set<Key>, free: FreePages, hdrDirty: bool,
      cur: int, curDirty: bool, es: seq<Event>)
    requires Anchored(p, f, touched, hdrDirty, cur, curDirty) && ObeysRun(p, touched, free, es) && ListsOK(p, free)
    requires forall i :: 0 <= i < |es| ==> Elsewhere(es[i], f)
    ensures var q := Run(p, es);
      && Anchored(q, f, RunTouched(p, touched, es), hdrDirty, cur, curDirty)
      && Inv(q) && f in q.disk && ViewOf(q, f) == ViewOf(p, f)
      && q.index[Key(f, HEADER)] == p.index[Key(f, HEADER)] && q.index[Key(f, cur)] == p.index[Key(f, cur)]
      && SamePins(p, q, f)
    decreases |es|
  {
    hide Inv, Coherent, ListsOK, Step, StepTouched, StepFree, Obeys, Polite, Anchored, Pins, ViewOf, Elsewhere;
    if es != [] {
      AnchoredInv(p, f, touched, hdrDirty, cur, curDirty);
      ObeysSpares(p, touched, free, es[0]);
      StepKeepsLists(p, free, es[0]);
      ObeysPolite(p, touched, free, es[0]);
      StepElsewhere(p, f, touched, hdrDirty, cur, curDirty, es[0]);
      RunElsewhere(Step(p, es[0]), f, StepTouched(p, touched, es[0]), StepFree(p, free, es[0]),
        hdrDirty, cur, curDirty, es[1..]);
    } else {
      AnchoredInv(p, f, touched, hdrDirty, cur, curDirty);
    }
  }

  lemma AnchoredInv(p: Pool, f: FileRef, touched: set<Key>, hdrDirty: bool, cur: int, curDirty: bool)
    requires Anchored(p, f, touched, hdrDirty, cur, curDirty)
    ensures Inv(p) && f in p.disk
  {
  }

  // ----- What the client of one file does to the others -----

  /** To a client of file g, with its page cur pinned, the file is where and what it was. */
  ghost predicate SeesSame(p: Pool, q: Pool, t: set<Key>, g: FileRef, hdrDirty: bool, cur: int, curDirty: bool) {
    && Anchored(q, g, t, hdrDirty, cur, curDirty)
    && Inv(p) && g in p.disk && g in q.disk && ViewOf(q, g) == ViewOf(p, g)
    && Key(g, HEADER) in p.index && Key(g, HEADER) in q.index && q.index[Key(g, HEADER)] == p.index[Key(g, HEADER)]
    && Key(g, cur) in p.index && Key(g, cur) in q.index && q.index[Key(g, cur)] == p.index[Key(g, cur)]
  }

  /** To the clients of another file g nothing has changed. */
  ghost predicate SameTo(p: Pool, q: Pool, t: set<Key>, g: FileRef, hdrDirty: bool, cur: int, curDirty: bool) {
    SeesSame(p, q, t, g, hdrDirty, cur, curDirty) && SamePins(p, q, g)
  }

  /** A file g that nobody has open stays so, with the same pages. */
  ghost predicate SameAside(p: Pool, s: set<Key>, q: Pool, t: set<Key>, g: FileRef) {
    && Inv(p) && Inv(q) && Coherent(q, t) && SameFile(p, q, g) && ViewOf(q, g) == ViewOf(p, g)
    && SamePins(p, q, g) && (NoneOf(s, g) ==> NoneOf(t, g))
  }

  /** Going from pool p, with changes s owed, to pool q, with changes t owed, disturbs no client of
      any file but f, and makes, changes or destroys no other file. */
  ghost predicate LeavesOthers(p: Pool, s: set<Key>, q: Pool, t: set<Key>, f: FileRef) {
    && (forall g: FileRef :: g != f ==> (g in q.disk <==> g in p.disk))
    && (forall g: FileRef, hdrDirty: bool, cur: int, curDirty: bool ::
          g != f && Anchored(p, g, s, hdrDirty, cur, curDirty) ==> SameTo(p, q, t, g, hdrDirty, cur, curDirty))
    && (Inv(p) && Coherent(p, s) ==> forall g :: g != f && g in p.disk ==> SameAside(p, s, q, t, g))
  }

  /** Such a file stays a heap file that nobody has open, with the same records. */
  lemma StaysStored(p: Pool, s: set<Key>, q: Pool, t: set<Key>, f: FileRef, g: FileRef)
    requires LeavesOthers(p, s, q, t, f) && g != f && Stored(p, g, s)
    ensures Stored(q, g, t) && HeapIn(q, g, t) == HeapIn(p, g, s)
  {
    hide Inv, Coherent, ViewOf, HeapOf, HeapOK, NoneOf, IntAt, Closed;
    FileFacts(p, g);
    assert SameAside(p, s, q, t, g);
    SameUsers(p, q, g);
  }

  lemma LeavesSelf(p: Pool, s: set<Key>, f: FileRef)
    ensures LeavesOthers(p, s, p, s, f)
  {
    hide Coherent;
    if Inv(p) && Coherent(p, s) {
      forall g | g != f && g in p.disk
        ensures SameAside(p, s, p, s, g)
      {
        assert FileOK(p.disk[g]);
      }
    }
  }

  lemma LeavesTrans(p: Pool, s: set<Key>, q: Pool, t: set<Key>, r: Pool, u: set<Key>, f: FileRef)
    requires LeavesOthers(p, s, q, t, f) && LeavesOthers(q, t, r, u, f)
    ensures LeavesOthers(p, s, r, u, f)
  {
    hide Inv, Coherent, Anchored, Pins, ViewOf, NoneOf;
    forall g: FileRef, hdrDirty: bool, cur: int, curDirty: bool | g != f && Anchored(p, g, s, hdrDirty, cur, curDirty)
      ensures SameTo(p, r, u, g, hdrDirty, cur, curDirty)
    {
      assert SameTo(p, q, t, g, hdrDirty, cur, curDirty) && SameTo(q, r, u, g, hdrDirty, cur, curDirty);
    }
    if Inv(p) && Coherent(p, s) {
      forall g | g != f && g in p.disk
        ensures SameAside(p, s, r, u, g)
      {
        assert SameAside(p, s, q, t, g) && SameAside(q, t, r, u, g);
      }
    }
  }

  /** Every polite call on file f does so. */
  lemma StepLeaves(p: Pool, s: set<Key>, e: Event, f: FileRef)
    requires Inv(p) && Polite(p, s, e) && forall g :: g != f ==> Elsewhere(e, g)
    ensures LeavesOthers(p, s, Step(p, e), StepTouched(p, s, e), f)
  {
    hide Inv, Coherent, Polite, Step, StepTouched, ViewOf, Pins, Elsewhere, SameAside;
    StepFiles(p, e);
    forall g: FileRef, hdrDirty: bool, cur: int, curDirty: bool | g != f && Anchored(p, g, s, hdrDirty, cur, curDirty)
      ensures SameTo(p, Step(p, e), StepTouched(p, s, e), g, hdrDirty, cur, curDirty)
    {
      StepElsewhere(p, g, s, hdrDirty, cur, curDirty, e);
      AnchoredPages(p, g, s, hdrDirty, cur, curDirty);
    }
    if Coherent(p, s) {
      forall g | g != f && g in p.disk
        ensures SameAside(p, s, Step(p, e), StepTouched(p, s, e), g)
      {
        StepAside(p, s, e, g);
      }
    }
  }

  lemma EvictedFiles(p: Pool)
    requires Inv(p) && p.upl != []
    ensures Evicted(p).disk.Keys == p.disk.Keys
  {
    assert p.upl[0] in p.upl && FrameOK(p, p.upl[0]);
  }

  lemma {:induction false} FlushFiles(p: Pool, f: FileRef, i: nat)
    requires Inv(p) && i <= |p.frames|
    ensures AfterFlush(p, f, i).disk.Keys == p.disk.Keys
    decreases |p.frames| - i
  {
    hide Inv, Flushed;
    if i < |p.frames| {
      FrameFields(p, i);
      if p.frames[i].file != f {
        FlushFiles(p, f, i + 1);
      } else if p.frames[i].valid && p.frames[i].pinCnt <= 0 {
        FlushedFiles(p, i);
        FlushFiles(Flushed(p, i), f, i + 1);
      }
    }
  }

  lemma FlushedFiles(p: Pool, i: nat)
    requires Inv(p) && i < |p.frames| && p.frames[i].valid && p.frames[i].pinCnt == 0
    ensures Inv(Flushed(p, i)) && Flushed(p, i).disk.Keys == p.disk.Keys
  {
    InvFlushed(p, i);
    assert FrameOK(p, i);
  }

  lemma AllocFiles(p: Pool, f: FileRef)
    requires Inv(p) && f in p.disk && CanAllocate(p.disk[f])
    ensures AfterAlloc(p, f).disk.Keys == p.disk.Keys
  {
    hide Inv, Evicted, Allocated, CanAllocate;
    InvAllocDisk(p, f);
    if p.upl != [] {
      EvictedFiles(AllocDisk(p, f));
    }
  }

  lemma DisposeFiles(p: Pool, k: Key)
    requires Inv(p)
    ensures AfterDispose(p, k).disk.Keys == p.disk.Keys
  {
    hide Disposed;
    if k in p.index {
      assert IndexedOK(p, k) && FrameOK(p, p.index[k]);
    }
  }

  /** No call on the pool makes or destroys a file. */
  lemma StepFiles(p: Pool, e: Event)
    requires Inv(p)
    ensures Step(p, e).disk.Keys == p.disk.Keys
  {
    hide Inv, Evicted, AfterFlush, AfterDispose, AfterAlloc, CanAllocate, UnPinStatus;
    match e
    case Read(k) =>
      if p.upl != [] {
        EvictedFiles(p);
      }
    case Flush(f) => FlushFiles(p, f, 0);
    case Dispose(k) => DisposeFiles(p, k);
    case Alloc(f) =>
      if f in p.disk && CanAllocate(p.disk[f]) {
        AllocFiles(p, f);
      }
    case _ =>
  }

  lemma StepAside(p: Pool, s: set<Key>, e: Event, g: FileRef)
    requires Inv(p) && Coherent(p, s) && Polite(p, s, e) && g in p.disk && Elsewhere(e, g)
    ensures SameAside(p, s, Step(p, e), StepTouched(p, s, e), g)
  {
    hide Inv, Coherent, Polite, Step, StepTouched, Elsewhere, View;
    var q := Step(p, e);
    StepShows(p, s, e, g);
    StepKept(p, s, e, Key(g, HEADER));
    TouchedElsewhere(p, s, e, g);
    forall n | n in ViewOf(p, g)
      ensures ViewOf(q, g)[n] == ViewOf(p, g)[n]
    {
      assert PageExists(p.disk, Key(g, n)) && SameView(p, q, Key(g, n));
    }
    StepPins(p, s, e, g);
  }

  /** Making or destroying one file disturbs the clients of no other. */
  lemma FileLeaves(p: Pool, disk: map<FileRef, Pages>, f: FileRef, s: set<Key>)
    requires Inv(p) && Inv(p.(disk := disk)) && (Coherent(p, s) ==> Coherent(p.(disk := disk), s))
    requires forall g :: g != f ==> (g in disk <==> g in p.disk)
    requires forall g :: g != f && g in disk && g in p.disk ==> disk[g] == p.disk[g]
    ensures LeavesOthers(p, s, p.(disk := disk), s, f)
  {
    hide Coherent, Inv;
    var q := p.(disk := disk);
    forall g | g != f && g in p.disk
      ensures SameFile(p, q, g) && ViewOf(q, g) == ViewOf(p, g) && SamePins(p, q, g)
    {
      FileFacts(p, g);
    }
  }

  lemma TurnLeaves(p: Pool, f: FileRef, s: set<Key>, hdrDirty: bool, cur: int, curDirty: bool, n: int)
    requires Anchored(p, f, s, hdrDirty, cur, curDirty)
    ensures LeavesOthers(p, s, TurnedTo(p, f, cur, curDirty, n), Announced(s, Key(f, cur), curDirty), f)
  {
    hide Inv, Coherent, AfterUnPin, AfterRead, LeavesOthers, View;
    UnPinLeaves(p, f, s, hdrDirty, cur, curDirty);
    var q := AfterUnPin(p, Key(f, cur), curDirty, false);
    var t := Announced(s, Key(f, cur), curDirty);
    StepLeaves(q, t, Read(Key(f, n)), f);
    LeavesTrans(p, s, q, t, AfterRead(q, Key(f, n)), t, f);
  }

  /** Unpinning the current page. */
  lemma UnPinLeaves(p: Pool, f: FileRef, s: set<Key>, hdrDirty: bool, cur: int, curDirty: bool)
    requires Anchored(p, f, s, hdrDirty, cur, curDirty)
    ensures UnPinStatus(p, Key(f, cur)) == OK && Inv(AfterUnPin(p, Key(f, cur), curDirty, false))
    ensures LeavesOthers(p, s, AfterUnPin(p, Key(f, cur), curDirty, false), Announced(s, Key(f, cur), curDirty), f)
  {
    hide Inv, Coherent, AfterUnPin, LeavesOthers, View;
    UnPinCurrent(p, f, s, hdrDirty, cur, curDirty);
    StepLeaves(p, s, UnPin(Key(f, cur), curDirty, false), f);
  }

  lemma NewLeaves(p: Pool, f: FileRef, s: set<Key>, hdrDirty: bool, cur: int, curDirty: bool)
    requires Anchored(p, f, s, hdrDirty, cur, curDirty) && Alone(p, f, cur) && |p.disk[f]| < MAXPAGES
    ensures LeavesOthers(p, s, TurnedToNew(p, f, cur, curDirty),
      Announced(s, Key(f, cur), curDirty) + {Key(f, |p.disk[f]|)}, f)
  {
    hide Inv, Coherent, AfterUnPin, AfterAlloc, LeavesOthers, View, CanAllocate, AllocStatus, Announced;
    UnPinLeaves(p, f, s, hdrDirty, cur, curDirty);
    AllocReady(p, f, s, hdrDirty, cur, curDirty);
    var q := AfterUnPin(p, Key(f, cur), curDirty, false);
    var t := Announced(s, Key(f, cur), curDirty);
    StepLeaves(q, t, Alloc(f), f);
    LeavesTrans(p, s, q, t, AfterAlloc(q, f), t + {Key(f, |p.disk[f]|)}, f);
  }

  lemma WriteLeaves(p: Pool, f: FileRef, s: set<Key>, k: Key, b: Image)
    requires Inv(p) && Pinned(p, k) && k.file == f && |b| == PAGESIZE
    ensures 0 <= p.index[k] < |p.mem| && LeavesOthers(p, s, Written(p, p.index[k], b), s + {k}, f)
  {
    hide Coherent, LeavesOthers, View;
    ViewOfResident(p, k);
    StepLeaves(p, s, Event.Write(k, b), f);
  }

  /** Changing the header page or the current page. */
  lemma WriteOwnLeaves(p: Pool, f: FileRef, s: set<Key>, hdrDirty: bool, cur: int, curDirty: bool, n: int, b: Image)
    requires Anchored(p, f, s, hdrDirty, cur, curDirty) && (n == HEADER || n == cur) && |b| == PAGESIZE
    ensures 0 <= p.index[Key(f, n)] < |p.mem|
    ensures LeavesOthers(p, s, Written(p, p.index[Key(f, n)], b), s + {Key(f, n)}, f)
  {
    hide Inv, Coherent, LeavesOthers;
    WriteLeaves(p, f, s, Key(f, n), b);
  }

  lemma OpenLeaves(p: Pool, f: FileRef, s: set<Key>, n: int)
    requires Inv(p)
    ensures LeavesOthers(p, s, BothRead(p, f, n), s, f)
  {
    hide Inv, LeavesOthers, AfterRead;
    InvRead(p, Key(f, HEADER));
    var q := HeaderRead(p, f);
    StepLeaves(p, s, Read(Key(f, HEADER)), f);
    StepLeaves(q, s, Read(Key(f, n)), f);
    LeavesTrans(p, s, q, s, BothRead(p, f, n), s, f);
  }

  lemma CloseLeaves(p: Pool, f: FileRef, s: set<Key>, hdrDirty: bool, cur: int, curDirty: bool)
    requires Anchored(p, f, s, hdrDirty, cur, curDirty)
    ensures LeavesOthers(p, s, BothUnPinned(p, f, cur, curDirty, hdrDirty),
      BothAnnounced(s, f, cur, curDirty, hdrDirty), f)
  {
    hide Inv, Coherent, AfterUnPin, LeavesOthers, View, Announced;
    UnPinLeaves(p, f, s, hdrDirty, cur, curDirty);
    Closing(p, f, s, hdrDirty, cur, curDirty);
    var q := AfterUnPin(p, Key(f, cur), curDirty, false);
    var t := Announced(s, Key(f, cur), curDirty);
    HeaderMayGo(p, f, s, hdrDirty, cur, curDirty);
    StepLeaves(q, t, UnPin(Key(f, HEADER), hdrDirty, false), f);
    LeavesTrans(p, s, q, t, BothUnPinned(p, f, cur, curDirty, hdrDirty),
      BothAnnounced(s, f, cur, curDirty, hdrDirty), f);
  }

  lemma HeaderMayGo(p: Pool, f: FileRef, s: set<Key>, hdrDirty: bool, cur: int, curDirty: bool)
    requires Anchored(p, f, s, hdrDirty, cur, curDirty) && Inv(AfterUnPin(p, Key(f, cur), curDirty, false))
    ensures MayUnPin(AfterUnPin(p, Key(f, cur), curDirty, false), Announced(s, Key(f, cur), curDirty),
      Key(f, HEADER), hdrDirty)
  {
    hide Inv, Coherent, AfterUnPin, View, UnPinStatus;
  }
}
