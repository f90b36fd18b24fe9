/** What a client that keeps a page pinned may rely on while others use the pool. */
module PoolClient {
  import opened Bytes
  import opened StatusCodes
  import opened PageSpec
  import opened FileSpec
  import opened Disks
  import opened PoolSpec
  import opened PoolRefinement

  /** The pages of one file as clients see them. */
  ghost function ViewOf(p: Pool, f: FileRef): (v: FileView)
    requires Inv(p) && f in p.disk
    ensures forall n :: n in v <==> 1 <= n < |p.disk[f]|
    ensures forall n :: n in v ==> v[n] == View(p, Key(f, n))
  {
    map n | 1 <= n < |p.disk[f]| :: View(p, Key(f, n))
  }

  lemma SameViewOf(p: Pool, q: Pool, f: FileRef)
    requires Inv(p) && Inv(q) && SameViews(p, q) && f in p.disk
    requires f in q.disk && |q.disk[f]| == |p.disk[f]|
    ensures ViewOf(q, f) == ViewOf(p, f)
  {
    hide View, Inv;
    forall n | n in ViewOf(p, f)
      ensures ViewOf(q, f)[n] == ViewOf(p, f)[n]
    {
      assert PageExists(p.disk, Key(f, n)) && SameView(p, q, Key(f, n));
    }
  }

  /** Frame i holds page k, pinned, in p and in q alike. */
  ghost predicate StaysPinned(p: Pool, q: Pool, k: Key) {
    Pinned(p, k) ==>
      Pinned(q, k) && q.index[k] == p.index[k] && q.frames[q.index[k]].pinCnt == p.frames[p.index[k]].pinCnt
  }

  /** The file has as many pages as before and the same header page on disk. */
  ghost predicate SameFile(p: Pool, q: Pool, f: FileRef) {
    f in p.disk && f in q.disk && |q.disk[f]| == |p.disk[f]| && 1 <= |p.disk[f]| && q.disk[f][0] == p.disk[f][0]
  }

  lemma EvictedKeeps(p: Pool, k: Key, f: FileRef)
    requires Inv(p) && p.upl != [] && f in p.disk
    ensures StaysPinned(p, Evicted(p), k) && SameFile(p, Evicted(p), f)
    ensures Pinned(Evicted(p), k) ==> Pinned(p, k)
  {
    var v := p.upl[0];
    assert v in p.upl && FrameOK(p, v) && FileOK(p.disk[f]);
    var fr := p.frames[v];
    if fr.valid && fr.dirty {
      WriteBackDisk(p.disk, KeyOf(fr), p.mem[v]);
    }
    EvictedIndex(p, k);
    if k in p.index {
      assert IndexedOK(p, k);
    }
  }

  /** readPage of another page leaves a pinned page pinned where it is. */
  lemma ReadKeeps(p: Pool, n: Key, k: Key, f: FileRef)
    requires Inv(p) && k != n && f in p.disk
    ensures StaysPinned(p, AfterRead(p, n), k) && SameFile(p, AfterRead(p, n), f)
    ensures Pinned(AfterRead(p, n), k) ==> Pinned(p, k)
  {
    if k in p.index {
      assert IndexedOK(p, k);
    }
    if n in p.index {
      assert IndexedOK(p, n);
    }
    assert FileOK(p.disk[f]);
    hide Evicted, Inv;
    if n.file != NullFile && n !in p.index && p.upl != [] {
      EvictedKeeps(p, k, f);
      EvictedFrame(p);
      EvictedPinned(p, k);
    }
  }

  lemma EvictedPinned(p: Pool, k: Key)
    requires Inv(p) && p.upl != []
    ensures Pinned(Evicted(p), k) ==> Evicted(p).index[k] != p.upl[0]
  {
    EvictedIndex(p, k);
  }

  /** How many pins a page has. */
  ghost function Pins(p: Pool, k: Key): int {
    if k in p.index && 0 <= p.index[k] < |p.frames| then p.frames[p.index[k]].pinCnt else 0
  }

  /** readPage gives the page it returns one pin more. */
  lemma ReadPinsOne(p: Pool, k: Key)
    requires Inv(p) && ReadStatus(p, k) == OK
    ensures Pins(AfterRead(p, k), k) == Pins(p, k) + 1
  {
    if k in p.index {
      assert IndexedOK(p, k);
    } else {
      EvictedFrame(p);
    }
  }

  lemma UnPinKeeps(p: Pool, n: Key, dirty: bool, loveIt: bool, k: Key, f: FileRef)
    requires Inv(p) && k != n && f in p.disk
    ensures StaysPinned(p, AfterUnPin(p, n, dirty, loveIt), k) && SameFile(p, AfterUnPin(p, n, dirty, loveIt), f)
    ensures Pinned(AfterUnPin(p, n, dirty, loveIt), k) ==> Pinned(p, k)
  {
    if k in p.index {
      assert IndexedOK(p, k);
    }
    if n in p.index {
      assert IndexedOK(p, n);
    }
    assert FileOK(p.disk[f]);
  }

  /** After the only pin of a page is released, readPage finds a frame for any page there is. */
  lemma UnPinMakesRoom(p: Pool, n: Key, dirty: bool, loveIt: bool, k: Key)
    requires Inv(p) && Pins(p, n) == 1 && PageExists(p.disk, k)
    ensures UnPinStatus(p, n) == OK
    ensures Inv(AfterUnPin(p, n, dirty, loveIt)) && ReadStatus(AfterUnPin(p, n, dirty, loveIt), k) == OK
  {
    InvUnPin(p, n, dirty, loveIt);
    assert IndexedOK(p, n);
  }

  /** The pool right after its last pin on a page has gone has a frame to offer. */
  lemma UnPinListed(p: Pool, n: Key, dirty: bool, loveIt: bool)
    requires Inv(p) && Pins(p, n) == 1
    ensures AfterUnPin(p, n, dirty, loveIt).upl != []
  {
    assert IndexedOK(p, n);
  }

  // ----- Allocating in a file without free pages -----

  /** The new page is the one after the last, so it cannot be resident yet. */
  lemma AllocExtends(p: Pool, f: FileRef)
    requires Inv(p) && f in p.disk && |p.disk[f]| < MAXPAGES && |p.disk[f][0]| == PAGESIZE && Next(p.disk[f][0]) == -1
    ensures CanAllocate(p.disk[f]) && AllocatedPage(p.disk[f]) == |p.disk[f]| && Inv(AfterAlloc(p, f))
    ensures AllocStatus(p, f) == (if p.upl == [] then BUFFEREXCEEDED else OK) && AllocKey(p, f) !in p.index
  {
    hide Inv, Evicted, Allocated, IntAt, AllocDisk, Loaded, Released;
    FileFacts(p, f);
    InvAlloc(p, f);
    if AllocKey(p, f) in p.index {
      FileOfResident(p, AllocKey(p, f));
    }
  }

  lemma AllocGrows(p: Pool, f: FileRef)
    requires Inv(p) && f in p.disk && |p.disk[f]| < MAXPAGES && |p.disk[f][0]| == PAGESIZE && Next(p.disk[f][0]) == -1
    requires p.upl != []
    ensures CanAllocate(p.disk[f]) && Inv(AfterAlloc(p, f))
    ensures var r := AfterAlloc(p, f);
      f in r.disk && |r.disk[f]| == |p.disk[f]| + 1 && |r.disk[f][0]| == PAGESIZE && Next(r.disk[f][0]) == -1
    ensures Pins(AfterAlloc(p, f), AllocKey(p, f)) == 1
  {
    hide Inv, Evicted, Allocated, IntAt;
    FileFacts(p, f);
    AllocExtends(p, f);
    AllocateExtends(p.disk[f]);
    InvAllocDisk(p, f);
    var d := AllocDisk(p, f);
    AllocDiskKeeps(p, f);
    EvictedKeeps(d, AllocKey(p, f), f);
    EvictedFrame(d);
    EvictedSize(d, f);
    InvAlloc(p, f);
  }

  lemma AllocKeeps(p: Pool, f: FileRef, k: Key)
    requires Inv(p) && f in p.disk && CanAllocate(p.disk[f]) && k != AllocKey(p, f) && AllocStatus(p, f) == OK
    ensures StaysPinned(p, AfterAlloc(p, f), k)
    ensures Pinned(AfterAlloc(p, f), k) ==> Pinned(p, k)
  {
    hide Inv, Evicted, Allocated, IntAt;
    InvAllocDisk(p, f);
    var d := AllocDisk(p, f);
    AllocDiskKeeps(p, f);
    EvictedKeeps(d, k, f);
    EvictedIndex(d, k);
    EvictedFrame(d);
    EvictedSize(d, f);
  }
}
