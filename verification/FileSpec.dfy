/** The pages of one database file (db.C) as values: page 0 is the file header, and
    the free pages are chained through their own first four bytes. */
module FileSpec {
  import opened Bytes
  import opened PageSpec

  type Image = seq<byte>
  type Pages = seq<Image>
  type FileView = map<int, Image>   // the pages of a file that clients may see, by number

  const NEXTFREE := 0
  const FIRSTPAGE := 4
  const NUMPAGES := 8
  const MAXPAGES := 0x7FFF_FFFF

  function ZeroPage(): (z: Image)
    ensures |z| == PAGESIZE
  {
    seq(PAGESIZE, i => 0)
  }

  function Next(p: Image): int requires |p| == PAGESIZE { IntAt(p, NEXTFREE) }
  function First(p: Image): int requires |p| == PAGESIZE { IntAt(p, FIRSTPAGE) }

  /** Whole pages, a header that knows how many, and a first data page that is page 1
      as soon as there is one. */
  ghost predicate FileOK(pages: Pages) {
    && 1 <= |pages| <= MAXPAGES
    && (forall p :: 0 <= p < |pages| ==> |pages[p]| == PAGESIZE)
    && IntAt(pages[0], NUMPAGES) == |pages|
    && First(pages[0]) == (if |pages| == 1 then -1 else 1)
    && (Next(pages[0]) == -1 || 1 <= Next(pages[0]) < |pages|)
  }

  /** Where the header page of a file has what (db.h). */
  lemma HeaderFields(pages: Pages)
    requires FileOK(pages)
    ensures var h := pages[0];
      Next(h) == IntAt(h, 0) && First(h) == IntAt(h, 4) && IntAt(h, 8) == |pages|
  {
  }

  /** Following the links from `head` visits exactly `free`, in that order, and ends at -1. */
  ghost predicate Chain(pages: Pages, head: int, free: seq<int>)
    decreases |free|
  {
    if free == [] then head == -1
    else
      && head == free[0]
      && 1 <= head < |pages| && |pages[head]| == PAGESIZE
      && Chain(pages, Next(pages[head]), free[1..])
  }

  ghost predicate Distinct(s: seq<int>) {
    forall i, j :: 0 <= i < j < |s| ==> s[i] != s[j]
  }

  /** `free` is the free list of the file. */
  ghost predicate FreeList(pages: Pages, free: seq<int>) {
    FileOK(pages) && Chain(pages, Next(pages[0]), free) && Distinct(free) && 1 !in free
  }

  ghost predicate LivePage(pages: Pages, free: seq<int>, p: int) {
    1 <= p < |pages| && p !in free
  }

  /** A write of one page; past the end, the gap reads as zeros. */
  function WriteAt(pages: Pages, p: nat, b: Image): (r: Pages)
    ensures |r| == if p < |pages| then |pages| else p + 1
    ensures r[p] == b
    ensures forall q :: 0 <= q < |pages| && q != p ==> r[q] == pages[q]
  {
    if p < |pages| then pages[p := b]
    else pages + seq(p - |pages|, i => ZeroPage()) + [b]
  }

  /** The file after File::allocatePage, and the page number it hands out. */
  function Allocated(pages: Pages): Pages
    requires FileOK(pages) && |pages| < MAXPAGES
  {
    var h := pages[0];
    if Next(h) != -1 then
      WriteAt(pages, 0, PutInt(h, NEXTFREE, Next(pages[Next(h)])))
    else
      var n := IntAt(h, NUMPAGES);
      var h' := PutInt(h, NUMPAGES, n + 1);
      WriteAt(WriteAt(pages, n, ZeroPage()), 0, if First(h) == -1 then PutInt(h', FIRSTPAGE, n) else h')
  }

  function AllocatedPage(pages: Pages): int
    requires FileOK(pages)
  {
    if Next(pages[0]) != -1 then Next(pages[0]) else |pages|
  }

  predicate MayDispose(pages: Pages, p: int)
    requires FileOK(pages)
  {
    1 <= p < |pages| && p != First(pages[0])
  }

  /** The file after File::disposePage of a page that may be disposed of. */
  function Disposed(pages: Pages, p: int): Pages
    requires FileOK(pages) && MayDispose(pages, p)
  {
    WriteAt(WriteAt(pages, p, PutInt(ZeroPage(), NEXTFREE, Next(pages[0]))), 0, PutInt(pages[0], NEXTFREE, p))
  }

  /** What allocatePage writes.  A page that extends the file consists of zeros; one from the free list
      keeps its bytes.  Of the header, only the fields concerned change. */
  lemma AllocatedBytes(pages: Pages)
    requires FileOK(pages) && |pages| < MAXPAGES
    ensures var h, r := pages[0], Allocated(pages); var n := |pages|;
      && |r| == (if IntAt(h, 0) == -1 then n + 1 else n)
      && (IntAt(h, 0) == -1 ==> (forall i :: 0 <= i < 4096 ==> r[n][i] == 0) && IntAt(r[0], 8) == n + 1)
      && (IntAt(h, 0) == -1 ==> IntAt(r[0], 0) == -1 && IntAt(r[0], 4) == if IntAt(h, 4) == -1 then n else IntAt(h, 4))
      && (IntAt(h, 0) != -1 ==> IntAt(r[0], 0) == IntAt(pages[IntAt(h, 0)], 0) && IntAt(r[0], 8) == n)
      && (forall i :: 12 <= i < 4096 ==> r[0][i] == h[i])
      && (forall q :: 1 <= q < n ==> r[q] == pages[q])
  {
    hide IntOf, PutInt, IntAt;
    var h := pages[0];
    if Next(h) == -1 {
      var h' := PutInt(h, NUMPAGES, |pages| + 1);
      PutIntFrame(h, NUMPAGES, |pages| + 1, NEXTFREE);
      PutIntFrame(h, NUMPAGES, |pages| + 1, FIRSTPAGE);
      PutIntFrame(h', FIRSTPAGE, |pages|, NEXTFREE);
      PutIntFrame(h', FIRSTPAGE, |pages|, NUMPAGES);
    } else {
      PutIntFrame(h, NEXTFREE, Next(pages[Next(h)]), NUMPAGES);
    }
  }

  /** What disposePage writes: zeros and the link into the page, the head of the list into the header. */
  lemma DisposedBytes(pages: Pages, p: int)
    requires FileOK(pages) && MayDispose(pages, p)
    ensures var h, r := pages[0], Disposed(pages, p);
      && |r| == |pages| && IntAt(r[0], 0) == p && IntAt(r[p], 0) == IntAt(h, 0)
      && (forall i :: 4 <= i < 4096 ==> r[0][i] == h[i] && r[p][i] == 0)
      && (forall q :: 1 <= q < |pages| && q != p ==> r[q] == pages[q])
  {
    hide IntOf, PutInt, IntAt;
  }

  // ----- The free list is a stack -----

  /** Only the pages on the chain matter to it. */
  lemma {:induction false} ChainFrame(pages: Pages, pages': Pages, head: int, free: seq<int>)
    requires Chain(pages, head, free) && |pages| <= |pages'|
    requires forall p :: p in free && 0 <= p < |pages| ==> pages'[p] == pages[p]
    ensures Chain(pages', head, free)
    decreases |free|
  {
    if free != [] {
      assert free[0] in free;
      ChainFrame(pages, pages', Next(pages[head]), free[1..]);
    }
  }

  lemma {:induction false} ChainBounds(pages: Pages, head: int, free: seq<int>)
    requires Chain(pages, head, free)
    ensures forall p :: p in free ==> 1 <= p < |pages|
    decreases |free|
  {
    if free != [] {
      ChainBounds(pages, Next(pages[head]), free[1..]);
      assert free == [free[0]] + free[1..];
    }
  }

  /** A file has at most one free list. */
  lemma {:induction false} ChainUnique(pages: Pages, head: int, a: seq<int>, b: seq<int>)
    requires Chain(pages, head, a) && Chain(pages, head, b)
    ensures a == b
    decreases |a|
  {
    if a != [] && b != [] {
      ChainUnique(pages, Next(pages[head]), a[1..], b[1..]);
      assert a == [a[0]] + a[1..] && b == [b[0]] + b[1..];
    }
  }

  lemma PutIntFrame(m: seq<byte>, off: nat, v: int, at: nat)
    requires off + 4 <= |m| && at + 4 <= |m| && -0x8000_0000 <= v < 0x8000_0000
    requires at + 4 <= off || off + 4 <= at
    ensures IntAt(PutInt(m, off, v), at) == IntAt(m, at)
  {
    hide IntOf, PutInt;
  }

  lemma AllocateExtends(pages: Pages)
    requires FileOK(pages) && |pages| < MAXPAGES && Next(pages[0]) == -1
    ensures var r := Allocated(pages);
      && FileOK(r) && |r| == |pages| + 1 && Next(r[0]) == -1 && r[|pages|] == ZeroPage()
      && forall q :: 1 <= q < |pages| ==> r[q] == pages[q]
  {
    hide IntOf, PutInt, ZeroPage, IntAt;
    var h := pages[0];
    var h' := PutInt(h, NUMPAGES, |pages| + 1);
    PutIntFrame(h, NUMPAGES, |pages| + 1, NEXTFREE);
    PutIntFrame(h, NUMPAGES, |pages| + 1, FIRSTPAGE);
    PutIntFrame(h', FIRSTPAGE, |pages|, NEXTFREE);
    PutIntFrame(h', FIRSTPAGE, |pages|, NUMPAGES);
  }

  lemma AllocateReuses(pages: Pages)
    requires FileOK(pages) && |pages| < MAXPAGES && Next(pages[0]) != -1
    requires var n := Next(pages[Next(pages[0])]); n == -1 || 1 <= n < |pages|
    ensures var r := Allocated(pages);
      && FileOK(r) && |r| == |pages| && Next(r[0]) == Next(pages[Next(pages[0])])
      && forall q :: 1 <= q < |pages| ==> r[q] == pages[q]
  {
    hide IntOf, PutInt, ZeroPage, IntAt;
    var h := pages[0];
    PutIntFrame(h, NEXTFREE, Next(pages[Next(h)]), FIRSTPAGE);
    PutIntFrame(h, NEXTFREE, Next(pages[Next(h)]), NUMPAGES);
  }

  lemma DisposeLinks(pages: Pages, p: int)
    requires FileOK(pages) && MayDispose(pages, p)
    ensures var r := Disposed(pages, p);
      && FileOK(r) && |r| == |pages| && Next(r[0]) == p && Next(r[p]) == Next(pages[0])
      && forall q :: 1 <= q < |pages| && q != p ==> r[q] == pages[q]
  {
    hide IntOf, PutInt, ZeroPage, IntAt;
    PutIntFrame(pages[0], NEXTFREE, p, FIRSTPAGE);
    PutIntFrame(pages[0], NEXTFREE, p, NUMPAGES);
  }

  /** Allocation pops the free list, or extends the file when the list is empty: the page
      handed out was not live, becomes live, and no other page changes hands or content. */
  lemma AllocatePops(pages: Pages, free: seq<int>)
    requires FreeList(pages, free) && |pages| < MAXPAGES
    ensures var p := AllocatedPage(pages); var r := Allocated(pages);
      && !LivePage(pages, free, p)
      && (if free == [] then p == |pages| && |r| == |pages| + 1 && FreeList(r, []) && r[p] == ZeroPage()
          else p == free[0] && |r| == |pages| && FreeList(r, free[1..]) && r[p] == pages[p])
      && forall q :: 1 <= q < |pages| && q != p ==> r[q] == pages[q]
  {
    hide Allocated, IntAt, ZeroPage;
    var r := Allocated(pages);
    if free == [] {
      AllocateExtends(pages);
    } else {
      var rest := free[1..];
      var head := Next(pages[free[0]]);
      ChainBounds(pages, head, rest);
      assert rest != [] ==> rest[0] in rest;
      AllocateReuses(pages);
      ChainFrame(pages, r, head, rest);
      assert forall q :: q in rest ==> q in free;
    }
  }

  /** Disposing of a live page pushes it. */
  lemma DisposePushes(pages: Pages, free: seq<int>, p: int)
    requires FreeList(pages, free) && LivePage(pages, free, p) && MayDispose(pages, p)
    ensures FreeList(Disposed(pages, p), [p] + free) && |Disposed(pages, p)| == |pages|
    ensures forall q :: 1 <= q < |pages| && q != p ==> Disposed(pages, p)[q] == pages[q]
  {
    hide Disposed, IntAt;
    var r := Disposed(pages, p);
    DisposeLinks(pages, p);
    ChainBounds(pages, Next(pages[0]), free);
    ChainFrame(pages, r, Next(pages[0]), free);
    assert ([p] + free)[1..] == free;
  }

  /** Writing a live page leaves the free list alone. */
  lemma WriteKeepsList(pages: Pages, free: seq<int>, p: int, b: Image)
    requires FreeList(pages, free) && LivePage(pages, free, p) && |b| == PAGESIZE
    ensures FreeList(WriteAt(pages, p, b), free)
  {
    ChainFrame(pages, WriteAt(pages, p, b), Next(pages[0]), free);
  }

  lemma {:induction false} ChainLink(pages: Pages, head: int, free: seq<int>, k: nat)
    requires Chain(pages, head, free) && k < |free|
    ensures 1 <= free[k] < |pages| && |pages[free[k]]| == PAGESIZE
    ensures Next(pages[free[k]]) == if k + 1 < |free| then free[k + 1] else -1
    decreases |free|
  {
    hide IntAt;
    if k > 0 {
      ChainLink(pages, Next(pages[head]), free[1..], k - 1);
    }
  }

  /** Writing a page keeps the free list exactly when the page is not on it, or keeps its link. */
  lemma WriteKeepsListIff(pages: Pages, free: seq<int>, p: int, b: Image)
    requires FreeList(pages, free) && 1 <= p < |pages| && |pages[p]| == |b| == PAGESIZE
    ensures FreeList(WriteAt(pages, p, b), free) <==> p !in free || Next(b) == Next(pages[p])
  {
    hide IntAt;
    var r := WriteAt(pages, p, b);
    if p !in free {
      WriteKeepsList(pages, free, p, b);
    } else {
      var k :| 0 <= k < |free| && free[k] == p;
      ChainLink(pages, Next(pages[0]), free, k);
      if FreeList(r, free) {
        ChainLink(r, Next(r[0]), free, k);
      }
      if Next(b) == Next(pages[p]) {
        SameLinks(pages, r, Next(pages[0]), free);
      }
    }
  }

  /** Of a free page only the link matters to the list. */
  lemma {:induction false} SameLinks(pages: Pages, pages': Pages, head: int, free: seq<int>)
    requires Chain(pages, head, free) && |pages| == |pages'|
    requires forall p :: 0 <= p < |pages| && |pages[p]| == PAGESIZE ==>
      |pages'[p]| == PAGESIZE && Next(pages'[p]) == Next(pages[p])
    ensures Chain(pages', head, free)
    decreases |free|
  {
    hide IntAt;
    if free != [] {
      SameLinks(pages, pages', Next(pages[head]), free[1..]);
    }
  }

  // ----- Runs -----

  datatype FileOp = Allocate | Dispose(p: int) | Write(p: int, b: Image)

  /** What a client knows of a file: how many pages there are, the stack of pages it gave
      back, and what it last wrote to each page it holds. */
  datatype FileModel = FileModel(count: int, free: seq<int>, held: map<int, Image>)

  ghost predicate Refines(pages: Pages, m: FileModel) {
    && FreeList(pages, m.free) && |pages| == m.count
    && (forall p :: p in m.held <==> LivePage(pages, m.free, p))
    && (forall p :: p in m.held ==> pages[p] == m.held[p])
  }

  /** Clients dispose of and write only pages they hold, and keep the first one. */
  ghost predicate Allowed(m: FileModel, op: FileOp) {
    match op
    case Allocate => m.count < MAXPAGES
    case Dispose(p) => p in m.held && p != 1
    case Write(p, b) => p in m.held && |b| == PAGESIZE
  }

  function StepPages(pages: Pages, op: FileOp): Pages
    requires FileOK(pages)
  {
    match op
    case Allocate => if |pages| < MAXPAGES then Allocated(pages) else pages
    case Dispose(p) => if MayDispose(pages, p) then Disposed(pages, p) else pages
    case Write(p, b) => if p < 1 then pages else WriteAt(pages, p, b)
  }

  /** The same step on the model: a stack of free pages that grows the file only when it is
      empty.  `stale` is what an allocated page happens to hold. */
  function StepModel(m: FileModel, op: FileOp, stale: Image): FileModel {
    match op
    case Allocate =>
      if m.free == [] then FileModel(m.count + 1, [], m.held[m.count := stale])
      else FileModel(m.count, m.free[1..], m.held[m.free[0] := stale])
    case Dispose(p) => FileModel(m.count, [p] + m.free, m.held - {p})
    case Write(p, b) => FileModel(m.count, m.free, m.held[p := b])
  }

  /** What the page an allocation hands out happens to hold. */
  function Handed(pages: Pages, op: FileOp): Image
    requires FileOK(pages)
  {
    if op.Allocate? && |pages| < MAXPAGES && AllocatedPage(pages) < |Allocated(pages)| && 0 <= AllocatedPage(pages)
    then Allocated(pages)[AllocatedPage(pages)] else []
  }

  lemma StepRefines(pages: Pages, m: FileModel, op: FileOp)
    requires Refines(pages, m) && Allowed(m, op)
    ensures Refines(StepPages(pages, op), StepModel(m, op, Handed(pages, op)))
    ensures op.Allocate? ==> AllocatedPage(pages) == (if m.free == [] then m.count else m.free[0])
    ensures op.Allocate? ==> AllocatedPage(pages) !in m.held
  {
    hide Allocated, Disposed, Chain, IntAt, ZeroPage;
    match op
    case Allocate =>
      AllocatePops(pages, m.free);
      if m.free != [] {
        ChainBounds(pages, Next(pages[0]), m.free);
        assert m.free == [m.free[0]] + m.free[1..];
        assert m.free[0] in m.free && m.free[0] !in m.free[1..];
      }
    case Dispose(p) =>
      DisposePushes(pages, m.free, p);
    case Write(p, b) =>
      WriteKeepsList(pages, m.free, p, b);
  }

  /** A run of client operations, concretely and on the model. */
  ghost predicate AllowedRun(pages: Pages, m: FileModel, ops: seq<FileOp>)
    decreases |ops|
  {
    ops == [] ||
    (FileOK(pages) && Allowed(m, ops[0])
     && AllowedRun(StepPages(pages, ops[0]), StepModel(m, ops[0], Handed(pages, ops[0])), ops[1..]))
  }

  ghost function RunPages(pages: Pages, ops: seq<FileOp>): Pages
    decreases |ops|
  {
    if ops == [] || !FileOK(pages) then pages else RunPages(StepPages(pages, ops[0]), ops[1..])
  }

  ghost function RunModel(pages: Pages, m: FileModel, ops: seq<FileOp>): FileModel
    decreases |ops|
  {
    if ops == [] || !FileOK(pages) then m
    else RunModel(StepPages(pages, ops[0]), StepModel(m, ops[0], Handed(pages, ops[0])), ops[1..])
  }

  /** Free-list safety over every run: the chain on disk is finite, repeats no page and ends
      at -1; held and free pages partition 1..numPages-1; allocation is last-in first-out and
      never returns a held page; every held page reads back what was last written to it. */
  lemma {:induction false} FreeListSafety(pages: Pages, m: FileModel, ops: seq<FileOp>)
    requires Refines(pages, m) && AllowedRun(pages, m, ops)
    ensures Refines(RunPages(pages, ops), RunModel(pages, m, ops))
    decreases |ops|
  {
    hide StepPages, StepModel, Handed, Allowed;
    if ops != [] {
      StepRefines(pages, m, ops[0]);
      FreeListSafety(StepPages(pages, ops[0]), StepModel(m, ops[0], Handed(pages, ops[0])), ops[1..]);
    }
  }

  // ----- Disposing of a page twice -----

  lemma {:induction false} NoWayOut(pages: Pages, free: seq<int>, i: nat, visited: seq<int>)
    requires forall k :: 0 <= k < |free| ==> 1 <= free[k] < |pages| && |pages[free[k]]| == PAGESIZE
    requires i < |free|
    requires forall k :: 0 <= k < |free| ==>
      Next(pages[free[k]]) == free[if k + 1 < |free| then k + 1 else 0]
    ensures !Chain(pages, free[i], visited)
    decreases |visited|
  {
    hide IntAt;
    if visited != [] {
      NoWayOut(pages, free, if i + 1 < |free| then i + 1 else 0, visited[1..]);
    }
  }

  /** disposePage does not check that a page is live.  Disposing of a page that is already
      free closes a cycle: after it the file has no free list at all. */
  lemma DoubleDisposeCorrupts(pages: Pages, free: seq<int>, i: nat)
    requires FreeList(pages, free) && i < |free| && MayDispose(pages, free[i])
    ensures forall list :: !FreeList(Disposed(pages, free[i]), list)
  {
    hide Disposed, IntAt;
    var p := free[i];
    var r := Disposed(pages, p);
    DisposeLinks(pages, p);
    var cycle := [p] + free[..i];
    forall k | 0 <= k < |cycle|
      ensures 1 <= cycle[k] < |r| && |r[cycle[k]]| == PAGESIZE
      ensures Next(r[cycle[k]]) == cycle[if k + 1 < |cycle| then k + 1 else 0]
    {
      if k > 0 {
        ChainLink(pages, Next(pages[0]), free, k - 1);
      }
    }
    forall list
      ensures !FreeList(r, list)
    {
      NoWayOut(r, cycle, 0, list);
    }
  }

  /** Disposing keeps the free list exactly when the page is not on it already. */
  lemma DisposeKeepsListIff(pages: Pages, free: seq<int>, p: int)
    requires FreeList(pages, free) && MayDispose(pages, p)
    ensures (exists list :: FreeList(Disposed(pages, p), list)) <==> p !in free
  {
    if p in free {
      var i :| 0 <= i < |free| && free[i] == p;
      DoubleDisposeCorrupts(pages, free, i);
    } else {
      DisposePushes(pages, free, p);
    }
  }
}
