/** The buffer pool and the free lists of the files under it: while no client reads a page it has
    given back, no frame holds a free page, and evictions leave the lists alone. */
module PoolFree {
  import opened Bytes
  import opened StatusCodes
  import opened PageSpec
  import opened FileSpec
  import opened Disks
  import opened PoolSpec

  /** The free list of each file. */
  type FreePages = map<FileRef, seq<int>>

  ghost predicate Listed(disk: map<FileRef, Pages>, free: FreePages, f: FileRef) {
    f in disk && f in free && FreeList(disk[f], free[f])
  }

  ghost predicate OnList(free: FreePages, k: Key) { k.file in free && k.pageNo in free[k.file] }

  /** Every file has its free list, and no free page is in the pool. */
  ghost predicate ListsOK(p: Pool, free: FreePages) {
    && free.Keys == p.disk.Keys
    && (forall f :: f in p.disk ==> Listed(p.disk, free, f))
    && (forall k :: k in p.index ==> !OnList(free, k))
  }

  lemma ListOfFile(p: Pool, free: FreePages, f: FileRef)
    requires ListsOK(p, free) && f in p.disk
    ensures f in free && FreeList(p.disk[f], free[f])
  {
    assert Listed(p.disk, free, f);
  }

  /** The same disk, and no page in the pool that was not there. */
  lemma FewerPages(p: Pool, q: Pool, free: FreePages)
    requires ListsOK(p, free) && q.disk == p.disk && forall k :: k in q.index ==> k in p.index
    ensures ListsOK(q, free)
  {
  }

  lemma WriteBackFree(disk: map<FileRef, Pages>, free: FreePages, k: Key, b: Image, f: FileRef)
    requires Listed(disk, free, f) && PageExists(disk, k) && !OnList(free, k) && |b| == PAGESIZE
    ensures Listed(WriteBack(disk, k, b), free, f)
  {
    hide FileOK, Chain;
    if f == k.file {
      WriteKeepsList(disk[f], free[f], k.pageNo, b);
    }
  }

  /** Writing a resident page back leaves the lists alone. */
  lemma WrittenBack(p: Pool, q: Pool, free: FreePages, i: nat)
    requires Inv(p) && ListsOK(p, free) && i < |p.frames| && p.frames[i].valid
    requires forall k :: k in q.index ==> k in p.index
    requires PageExists(p.disk, KeyOf(p.frames[i])) && |p.mem[i]| == PAGESIZE
    requires q.disk == p.disk || q.disk == WriteBack(p.disk, KeyOf(p.frames[i]), p.mem[i])
    ensures ListsOK(q, free)
  {
    hide FreeList, WriteBack;
    var k := KeyOf(p.frames[i]);
    assert FrameOK(p, i);
    WriteBackKeys(p.disk, k, p.mem[i]);
    forall f | f in q.disk
      ensures Listed(q.disk, free, f)
    {
      assert Listed(p.disk, free, f);
      WriteBackFree(p.disk, free, k, p.mem[i], f);
    }
  }

  lemma WriteBackKeys(disk: map<FileRef, Pages>, k: Key, b: Image)
    requires PageExists(disk, k)
    ensures WriteBack(disk, k, b).Keys == disk.Keys
  {
  }

  lemma EvictedFree(p: Pool, free: FreePages)
    requires Inv(p) && ListsOK(p, free) && p.upl != []
    ensures ListsOK(Evicted(p), free)
  {
    var v := p.upl[0];
    assert v in p.upl && FrameOK(p, v);
    hide ListsOK, WriteBack;
    if p.frames[v].valid {
      WrittenBack(p, Evicted(p), free, v);
    } else {
      FewerPages(p, Evicted(p), free);
    }
  }

  lemma ReadFree(p: Pool, free: FreePages, k: Key)
    requires Inv(p) && ListsOK(p, free) && !OnList(free, k)
    ensures ListsOK(AfterRead(p, k), free)
  {
    hide Evicted, Inv, Listed;
    if k.file != NullFile && k !in p.index && p.upl != [] {
      EvictedFree(p, free);
    }
  }

  lemma UnPinFree(p: Pool, free: FreePages, k: Key, dirty: bool, loveIt: bool)
    requires Inv(p) && ListsOK(p, free)
    ensures ListsOK(AfterUnPin(p, k, dirty, loveIt), free)
  {
  }

  lemma FlushedFree(p: Pool, free: FreePages, i: nat)
    requires Inv(p) && ListsOK(p, free) && i < |p.frames| && p.frames[i].valid && p.frames[i].pinCnt == 0
    ensures ListsOK(Flushed(p, i), free)
  {
    assert FrameOK(p, i);
    hide ListsOK, WriteBack;
    WrittenBack(p, Flushed(p, i), free, i);
  }

  lemma {:induction false} FlushFree(p: Pool, free: FreePages, f: FileRef, i: nat)
    requires Inv(p) && ListsOK(p, free) && i <= |p.frames|
    ensures ListsOK(AfterFlush(p, f, i), free)
    decreases |p.frames| - i
  {
    hide Inv, ListsOK, Flushed;
    if i < |p.frames| {
      if p.frames[i].file != f {
        FlushFree(p, free, f, i + 1);
      } else if p.frames[i].valid && p.frames[i].pinCnt <= 0 {
        PinCount(p, i);
        InvFlushed(p, i);
        FlushedSize(p, i);
        FlushedFree(p, free, i);
        FlushFree(Flushed(p, i), free, f, i + 1);
      }
    }
  }

  lemma PinCount(p: Pool, i: nat)
    requires Inv(p) && i < |p.frames|
    ensures 0 <= p.frames[i].pinCnt
  {
    assert FrameOK(p, i);
  }

  lemma FlushedSize(p: Pool, i: nat)
    requires Inv(p) && i < |p.frames| && p.frames[i].valid && p.frames[i].pinCnt == 0
    ensures |Flushed(p, i).frames| == |p.frames|
  {
  }

  /** What disposePage makes of the free lists: a page given back becomes the first free one. */
  ghost function DisposedFree(p: Pool, free: FreePages, k: Key): FreePages
    requires Inv(p)
  {
    if DisposeStatus(p, k) == OK && k.file in free then free[k.file := [k.pageNo] + free[k.file]] else free
  }

  lemma DisposeFree(p: Pool, free: FreePages, k: Key)
    requires Inv(p) && ListsOK(p, free)
    ensures ListsOK(AfterDispose(p, k), DisposedFree(p, free, k))
  {
    if DisposeStatus(p, k) == OK {
      assert IndexedOK(p, k) && FrameOK(p, p.index[k]);
      hide FreeList, Disposed, MayDispose, FileOK, Inv;
      var q := AfterDispose(p, k);
      var free' := DisposedFree(p, free, k);
      ListOfFile(p, free, k.file);
      GivenBack(p.disk[k.file], free[k.file], k.pageNo);
      forall f | f in q.disk
        ensures Listed(q.disk, free', f)
      {
        assert f != k.file ==> Listed(p.disk, free, f);
      }
    }
  }

  lemma GivenBack(pages: Pages, free: seq<int>, n: int)
    requires FreeList(pages, free) && n !in free && MayDispose(pages, n)
    ensures FreeList(Disposed(pages, n), [n] + free)
  {
    hide Disposed, Chain;
    DisposePushes(pages, free, n);
  }

  /** What allocPage makes of them: the first free page is one no longer. */
  function AllocatedFree(free: FreePages, f: FileRef): FreePages {
    if f in free && free[f] != [] then free[f := free[f][1..]] else free
  }

  /** With sound lists a file that is not full can hand out a page, and no frame holds that page
      already: the hash table never refuses it. */
  lemma HandsOut(p: Pool, free: FreePages, f: FileRef)
    requires Inv(p) && ListsOK(p, free) && f in p.disk && |p.disk[f]| < MAXPAGES
    ensures CanAllocate(p.disk[f]) && AllocKey(p, f) !in p.index
    ensures f in free && AllocatedPage(p.disk[f]) == if free[f] == [] then |p.disk[f]| else free[f][0]
    ensures AllocStatus(p, f) == if p.upl == [] then BUFFEREXCEEDED else OK
  {
    ListOfFile(p, free, f);
    hide Inv, IntAt;
    FirstFree(p.disk[f], free[f]);
    var k := AllocKey(p, f);
    if k in p.index {
      FileOfResident(p, k);
    }
  }

  lemma FirstFree(pages: Pages, free: seq<int>)
    requires FreeList(pages, free) && |pages| < MAXPAGES
    ensures CanAllocate(pages) && AllocatedPage(pages) == if free == [] then |pages| else free[0]
  {
    hide IntAt;
    if free != [] {
      ChainBounds(pages, Next(pages[free[0]]), free[1..]);
    }
  }

  lemma AllocFree(p: Pool, free: FreePages, f: FileRef)
    requires Inv(p) && ListsOK(p, free) && f in p.disk && |p.disk[f]| < MAXPAGES && CanAllocate(p.disk[f])
    ensures ListsOK(AfterAlloc(p, f), AllocatedFree(free, f))
  {
    hide Inv, Evicted, Allocated, FreeList, CanAllocate, IntAt;
    HandsOut(p, free, f);
    var d := AllocDisk(p, f);
    var free' := AllocatedFree(free, f);
    InvAllocDisk(p, f);
    AllocDiskFree(p, free, f);
    AllocDiskKeeps(p, f);
    if d.upl != [] {
      EvictedFree(d, free');
      EvictedSize(d, f);
    }
  }

  /** The file's own step: the page leaves the list, and is not left on it. */
  lemma AllocDiskFree(p: Pool, free: FreePages, f: FileRef)
    requires Inv(p) && ListsOK(p, free) && f in p.disk && |p.disk[f]| < MAXPAGES && CanAllocate(p.disk[f])
    ensures ListsOK(AllocDisk(p, f), AllocatedFree(free, f)) && !OnList(AllocatedFree(free, f), AllocKey(p, f))
  {
    hide Inv, Allocated, CanAllocate, IntAt, Chain, FileOK;
    ListOfFile(p, free, f);
    HandsOut(p, free, f);
    AllocatePops(p.disk[f], free[f]);
    var d := AllocDisk(p, f);
    var free' := AllocatedFree(free, f);
    assert forall n :: n in free'[f] ==> n in free[f];
    forall g | g in d.disk
      ensures Listed(d.disk, free', g)
    {
      assert g != f ==> Listed(p.disk, free, g);
    }
  }
}
