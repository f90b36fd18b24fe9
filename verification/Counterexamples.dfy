/** For each promise that the code breaks, an input at which it does.  The lemma or the contract that
    says exactly when the promise is kept stands with the code's model. */
module Counterexamples {
  import opened Bytes
  import opened StatusCodes
  import opened PageSpec
  import opened FileSpec
  import opened Disks
  import opened PoolSpec
  import opened PoolRefinement
  import opened HeapSession
  import opened HeapSpec
  import opened Comparing
  import opened Joins
  import opened PageChain

  // ----- Scans and joins -----

  /** A file of one page with one record. */
  function OneRecord(): Heap { [DirPage(2, 0, -1, [Live([7])])] }

  /** A scan of it, started again after its first scanNext, sees nothing. */
  lemma RestartedScanMisses()
    ensures HeapInv(OneRecord())
    ensures AllEntries(OneRecord()) == [Entry(RID(2, 0), [7])] + EntriesFrom(OneRecord(), 0, 1)
    ensures EntriesFrom(OneRecord(), 0, 1) == []
  {
    var h := OneRecord();
    assert Trimmed(h[0].slots) && LiveBytes(h[0].slots) == 1;
    ScanStep(h, 0, 0);
    ScanStep(h, 0, 1);
    assert NextLive(h[0].slots, 0) == 0;
    assert EntriesFrom(h, 1, 0) == [];
  }

  /** Asked for outer < inner, the join pairs 2 with 1. */
  lemma LessThanJoinsGreater(float: seq<byte> -> real)
    ensures var a := Attr(0, INTEGER); var outer, inner: Rec := [2, 0, 0, 0], [1, 0, 0, 0];
      Joined(a, a, LT, float, outer, inner) && Compare(a, a, float, outer, inner) == 1
  {
    hide Joined, IntAt;
    var a := Attr(0, INTEGER);
    var outer, inner: Rec := [2, 0, 0, 0], [1, 0, 0, 0];
    assert outer[0..4] == outer && inner[0..4] == inner;
    SmallInts();
    JoinedMirrored(a, a, LT, float, outer, inner);
  }

  lemma SmallInts()
    ensures IntAt([2, 0, 0, 0], 0) == 2 && IntAt([1, 0, 0, 0], 0) == 1
  {
  }

  // ----- Free pages -----

  /** A file just created in which two pages have been allocated. */
  function TwoPages(): (pages: Pages)
    ensures FreeList(pages, []) && |pages| == 3
  {
    EmptyFile();
    AllocatePops([EmptyHeader()], []);
    AllocatePops(Allocated([EmptyHeader()]), []);
    Allocated(Allocated([EmptyHeader()]))
  }

  /** Its page 2 disposed of. */
  function OneFree(): (pages: Pages)
    ensures FreeList(pages, [2]) && |pages| == 3
  {
    DisposePushes(TwoPages(), [], 2);
    Disposed(TwoPages(), 2)
  }

  /** Disposed of again, page 2 leaves the file without a free list: its chain runs in a circle. */
  lemma SecondDisposeCorrupts()
    ensures MayDispose(OneFree(), 2) && forall list :: !FreeList(Disposed(OneFree(), 2), list)
  {
    hide Disposed, IntAt;
    DoubleDisposeCorrupts(OneFree(), [2], 0);
  }

  /** A client that writes zeros to page 2 all the same breaks the chain: no list fits it. */
  lemma StaleWriteCorrupts()
    ensures forall list :: !FreeList(WriteAt(OneFree(), 2, ZeroPage()), list)
  {
    hide OneFree, IntAt, ZeroPage;
    ZeroLink();
    ChainHead(OneFree(), [2]);
    forall list
      ensures !FreeList(WriteAt(OneFree(), 2, ZeroPage()), list)
    {
      Broken(WriteAt(OneFree(), 2, ZeroPage()), list);
    }
  }

  lemma Broken(pages: Pages, list: seq<int>)
    requires |pages| == 3 && |pages[0]| == PAGESIZE && Next(pages[0]) == 2
    requires |pages[2]| == PAGESIZE && Next(pages[2]) == 0
    ensures !FreeList(pages, list)
  {
    hide IntAt, FileOK;
    if list != [] {
      assert !Chain(pages, 0, list[1..]);
    }
  }

  lemma ZeroLink()
    ensures Next(ZeroPage()) == 0
  {
    var z := ZeroPage();
    assert z[0] == 0 && z[1] == 0 && z[2] == 0 && z[3] == 0;
  }

  lemma ChainHead(pages: Pages, list: seq<int>)
    requires FreeList(pages, list)
    ensures |pages[0]| == PAGESIZE && Next(pages[0]) == if list == [] then -1 else list[0]
  {
    hide IntAt;
  }

  // ----- The buffer pool -----

  const F := FileRef("f")

  /** A pool of one frame, which holds page 1 of a file of one page. */
  function OnePage(b: Image, pinCnt: int, dirty: bool): Pool {
    EmptyFile();
    Pool([Frame(F, 1, pinCnt, dirty, true)], [b], if pinCnt == 0 then [0] else [], map[Key(F, 1) := 0],
         map[F := Allocated([EmptyHeader()])])
  }

  lemma OnePageSound(b: Image, pinCnt: nat, dirty: bool)
    requires |b| == PAGESIZE && (!dirty ==> b == ZeroPage())
    ensures var p := OnePage(b, pinCnt, dirty);
      Inv(p) && Coherent(p, {}) && PageExists(p.disk, Key(F, 1)) && p.disk[F][1] == ZeroPage()
  {
    hide ZeroPage, IntAt, EmptyHeader, Allocated;
    EmptyFile();
    AllocatePops([EmptyHeader()], []);
    var p := OnePage(b, pinCnt, dirty);
    assert KeyOf(p.frames[0]) == Key(F, 1);
    assert FrameOK(p, 0) && IndexedOK(p, Key(F, 1));
    assert 0 in [0];
    assert Accounted(p, {}, 0);
  }

  /** Page 1 of a file, changed and unpinned dirty, loses its change to a disposePage that is
      refused. */
  lemma RefusedDisposeLoses(b: Image)
    requires |b| == PAGESIZE && b != ZeroPage()
    ensures var p := OnePage(b, 0, true); var k := Key(F, 1);
      && Inv(p) && Coherent(p, {}) && PageExists(p.disk, k) && View(p, k) == b
      && DisposeStatus(p, k) == BADPAGENO && Inv(AfterDispose(p, k)) && PageExists(AfterDispose(p, k).disk, k)
      && View(AfterDispose(p, k), k) == ZeroPage()
  {
    hide AfterDispose, DisposeStatus;
    OnePageSound(b, 0, true);
    RefusedDispose(OnePage(b, 0, true), Key(F, 1), {});
  }

  /** A page still pinned stays in the pool when its file is closed for the last time. */
  lemma PinnedPageOutlivesClose()
    ensures var p := OnePage(ZeroPage(), 1, false);
      && Inv(p) && Coherent(p, {}) && !Closed(p, F) && FlushStatus(p, F, 0) == PAGEPINNED
      && Key(F, 1) in AfterFlush(p, F, 0).index
  {
    OnePageSound(ZeroPage(), 1, false);
    assert Pinned(OnePage(ZeroPage(), 1, false), Key(F, 1));
  }

  // ----- The page chain -----

  /** A page that the insertion of part5 adds is not linked from the page before. */
  lemma AddedPageUnlinked(r: Rec)
    requires 1 <= |r| <= MAXREC
    ensures var h := [DirPage(2, 0, -1, [])]; HeapInv(h) && Linked(h) && !Linked(InsertedFrom(h, 0, r, 3))
  {
    var h := [DirPage(2, 0, -1, [])];
    assert PageInv(h[0]) && LinkAt(h, 0);
    assert Target(h, 0, |r|) == 1;
    Part5KeepsLinksIff(h, 0, r, 3);
  }
}
