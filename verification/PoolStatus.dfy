/** What each call of the buffer manager (buf.C) returns, said of the frames alone: in every pool that
    keeps the invariant the hash table and the list of unpinned frames do not matter. */
module PoolStatuses {
  import opened StatusCodes
  import opened FileSpec
  import opened Disks
  import opened PoolSpec
  import opened PoolRefinement

  /** Frame i holds page k. */
  ghost predicate HeldAt(p: Pool, k: Key, i: int) {
    0 <= i < |p.frames| && p.frames[i].valid && p.frames[i].file == k.file && p.frames[i].pageNo == k.pageNo
  }

  ghost predicate Held(p: Pool, k: Key) { exists i :: HeldAt(p, k, i) }

  /** At most one frame holds a page: the one that the hash table names. */
  lemma HeldOnce(p: Pool, k: Key)
    requires Inv(p)
    ensures k in p.index <==> Held(p, k)
    ensures forall i :: HeldAt(p, k, i) ==> k in p.index && p.index[k] == i
  {
    if k in p.index {
      assert IndexedOK(p, k);
      assert HeldAt(p, k, p.index[k]);
    }
    forall i | HeldAt(p, k, i)
      ensures k in p.index && p.index[k] == i
    {
      assert FrameOK(p, i) && KeyOf(p.frames[i]) == k;
    }
  }

  /** Every frame is pinned exactly when the list of unpinned frames is empty. */
  lemma NoneLeft(p: Pool)
    requires Inv(p)
    ensures p.upl == [] <==> forall i :: 0 <= i < |p.frames| ==> p.frames[i].pinCnt > 0
  {
    if p.upl == [] {
      forall i | 0 <= i < |p.frames|
        ensures p.frames[i].pinCnt > 0
      {
        assert FrameOK(p, i) && i !in p.upl;
      }
    } else {
      assert p.upl[0] in p.upl;
    }
  }

  lemma ReadStatusIff(p: Pool, k: Key)
    requires Inv(p)
    ensures ReadStatus(p, k) == BADFILE <==> k.file == NullFile
    ensures ReadStatus(p, k) == BUFFEREXCEEDED <==>
      k.file != NullFile && !Held(p, k) && forall i :: 0 <= i < |p.frames| ==> p.frames[i].pinCnt > 0
    ensures ReadStatus(p, k) == BADPAGENO <==>
      && k.file != NullFile && !Held(p, k) && (exists i :: 0 <= i < |p.frames| && p.frames[i].pinCnt == 0)
      && k.pageNo < 1
    ensures ReadStatus(p, k) == UNIXERR <==>
      && k.file != NullFile && !Held(p, k) && (exists i :: 0 <= i < |p.frames| && p.frames[i].pinCnt == 0)
      && 1 <= k.pageNo && (k.file in p.disk ==> k.pageNo >= |p.disk[k.file]|)
    ensures ReadStatus(p, k) in {OK, BADFILE, BUFFEREXCEEDED, BADPAGENO, UNIXERR}
  {
    HeldOnce(p, k);
    NoneLeft(p);
    forall i | 0 <= i < |p.frames|
      ensures p.frames[i].pinCnt >= 0
    {
      assert FrameOK(p, i);
    }
    if k.file == NullFile {
      forall i
        ensures !HeldAt(p, k, i)
      {
        assert 0 <= i < |p.frames| ==> FrameOK(p, i);
      }
    }
  }

  lemma UnPinStatusIff(p: Pool, k: Key)
    requires Inv(p)
    ensures UnPinStatus(p, k) == HASHNOTFOUND <==> !Held(p, k)
    ensures UnPinStatus(p, k) == PAGENOTPINNED <==> exists i :: HeldAt(p, k, i) && p.frames[i].pinCnt == 0
    ensures UnPinStatus(p, k) == OK <==> exists i :: HeldAt(p, k, i) && p.frames[i].pinCnt > 0
  {
    HeldOnce(p, k);
    if k in p.index {
      assert IndexedOK(p, k) && FrameOK(p, p.index[k]);
      assert HeldAt(p, k, p.index[k]);
    }
  }

  lemma FlushStatusIff(p: Pool, f: FileRef)
    requires Inv(p) && f != NullFile
    ensures FlushStatus(p, f, 0) == PAGEPINNED <==>
      exists i :: 0 <= i < |p.frames| && p.frames[i].file == f && p.frames[i].pinCnt > 0
    ensures FlushStatus(p, f, 0) in {OK, PAGEPINNED}
  {
    FlushEmpties(p, f, 0);
    forall i | 0 <= i < |p.frames|
      ensures p.frames[i].pinCnt >= 0
    {
      assert FrameOK(p, i);
    }
  }

  /** A page is given back when it is resident and unpinned and is not the first of its file. */
  lemma DisposeStatusIff(p: Pool, k: Key)
    requires Inv(p)
    ensures DisposeStatus(p, k) == HASHNOTFOUND <==> !Held(p, k)
    ensures DisposeStatus(p, k) == PAGEPINNED <==> exists i :: HeldAt(p, k, i) && p.frames[i].pinCnt > 0
    ensures DisposeStatus(p, k) == BADPAGENO <==>
      k.pageNo == 1 && exists i :: HeldAt(p, k, i) && p.frames[i].pinCnt == 0
    ensures DisposeStatus(p, k) in {OK, HASHNOTFOUND, PAGEPINNED, BADPAGENO}
  {
    HeldOnce(p, k);
    if k in p.index {
      assert IndexedOK(p, k) && FrameOK(p, p.index[k]);
      assert HeldAt(p, k, p.index[k]);
      assert FileOK(p.disk[k.file]);
    }
  }

  /** HASHTBLERROR: the page handed out is still resident, and not in the frame to be reused. */
  lemma AllocStatusIff(p: Pool, f: FileRef)
    requires Inv(p) && f in p.disk
    ensures AllocStatus(p, f) == BUFFEREXCEEDED <==> forall i :: 0 <= i < |p.frames| ==> p.frames[i].pinCnt > 0
    ensures AllocStatus(p, f) == HASHTBLERROR <==>
      p.upl != [] && exists i :: HeldAt(p, Key(f, AllocatedPage(p.disk[f])), i) && i != p.upl[0]
    ensures AllocStatus(p, f) in {OK, BUFFEREXCEEDED, HASHTBLERROR}
  {
    HeldOnce(p, AllocKey(p, f));
    NoneLeft(p);
    if AllocKey(p, f) in p.index {
      assert HeldAt(p, AllocKey(p, f), p.index[AllocKey(p, f)]) by { assert IndexedOK(p, AllocKey(p, f)); }
    }
  }

  // ----- What each call does to the frames and the disk -----

  /** Page k is in frame i of q, pinned `pins` times. */
  ghost predicate HoldsNow(q: Pool, i: int, k: Key, pins: int, dirty: bool) {
    0 <= i < |q.frames| && q.frames[i] == Frame(k.file, k.pageNo, pins, dirty, true)
  }

  /** Frame i is as it was, with the same bytes. */
  ghost predicate SameFrame(p: Pool, q: Pool, i: int)
    requires |q.frames| == |p.frames| == |p.mem| == |q.mem| && 0 <= i < |p.frames|
  {
    q.frames[i] == p.frames[i] && q.mem[i] == p.mem[i]
  }

  /** readPage on a resident page pins it once more, and does nothing else. */
  lemma ReadResident(p: Pool, k: Key, i: int)
    requires Inv(p) && HeldAt(p, k, i) && k.file != NullFile
    ensures var q := AfterRead(p, k);
      && |q.frames| == |p.frames| == |p.mem| && q.mem == p.mem && q.disk == p.disk && q.index == p.index
      && HoldsNow(q, i, k, p.frames[i].pinCnt + 1, p.frames[i].dirty)
      && forall j :: 0 <= j < |p.frames| && j != i ==> q.frames[j] == p.frames[j]
  {
    HeldOnce(p, k);
  }

  /** readPage on any other page reads it into the victim's frame: pinned once and clean, with the bytes
      that are on disk once the victim has been written back if it was dirty. */
  lemma ReadAbsent(p: Pool, k: Key)
    requires Inv(p) && !Held(p, k) && k.file != NullFile && p.upl != [] && PageExists(p.disk, k)
    ensures var q, v := AfterRead(p, k), p.upl[0];
      && |q.frames| == |p.frames| == |p.mem| == |q.mem| && 0 <= v < |p.frames|
      && HoldsNow(q, v, k, 1, false) && k in q.index && q.index[k] == v && q.upl == p.upl[1..]
      && (forall j :: 0 <= j < |p.frames| && j != v ==> SameFrame(p, q, j))
      && q.disk == DiskAfter(p, v) && PageExists(q.disk, k) && q.mem[v] == q.disk[k.file][k.pageNo]
  {
    HeldOnce(p, k);
    assert p.upl[0] in p.upl && FrameOK(p, p.upl[0]);
    EvictedSize(p, k.file);
  }

  /** A read that fails for want of the page has emptied the victim's frame, which stays the next
      victim; without a frame it has done nothing. */
  lemma ReadFailed(p: Pool, k: Key)
    requires Inv(p) && ReadStatus(p, k) != OK
    ensures var q := AfterRead(p, k);
      && (ReadStatus(p, k) in {BADFILE, BUFFEREXCEEDED} ==> q == p)
      && (ReadStatus(p, k) in {BADPAGENO, UNIXERR} ==>
           && p.upl != [] && 0 <= p.upl[0] < |p.frames| && q.frames == p.frames[p.upl[0] := Cleared]
           && q.mem == p.mem && q.upl == p.upl && q.disk == DiskAfter(p, p.upl[0]))
  {
    if k.file != NullFile && p.upl != [] {
      assert p.upl[0] in p.upl && FrameOK(p, p.upl[0]);
      assert [p.upl[0]] + p.upl[1..] == p.upl;
    }
  }

  /** The disk once frame v has been written back, if it is dirty. */
  ghost function DiskAfter(p: Pool, v: int): (disk: map<FileRef, FileSpec.Pages>)
    requires Inv(p) && 0 <= v < |p.frames|
    ensures !p.frames[v].valid || !p.frames[v].dirty ==> disk == p.disk
    ensures p.frames[v].valid && p.frames[v].dirty ==> var f, n := p.frames[v].file, p.frames[v].pageNo;
      f in p.disk && 1 <= n < |p.disk[f]| && disk == p.disk[f := p.disk[f][n := p.mem[v]]]
  {
    var fr := p.frames[v];
    assert FrameOK(p, v);
    if fr.valid && fr.dirty then p.disk[fr.file := p.disk[fr.file][fr.pageNo := p.mem[v]]] else p.disk
  }

  /** unPinPage takes one pin off, makes the frame dirty if told so, and puts it on the list with its
      last pin, at the front when it is loved and at the rear when it is not. */
  lemma UnPinFrames(p: Pool, k: Key, i: int, dirty: bool, loveIt: bool)
    requires Inv(p) && HeldAt(p, k, i) && p.frames[i].pinCnt > 0
    ensures var q := AfterUnPin(p, k, dirty, loveIt);
      && |q.frames| == |p.frames| && q.mem == p.mem && q.disk == p.disk && q.index == p.index
      && HoldsNow(q, i, k, p.frames[i].pinCnt - 1, p.frames[i].dirty || dirty)
      && (forall j :: 0 <= j < |p.frames| && j != i ==> q.frames[j] == p.frames[j])
      && q.upl == if p.frames[i].pinCnt > 1 then p.upl else if loveIt then p.upl + [i] else [i] + p.upl
  {
    HeldOnce(p, k);
  }

  lemma UnPinRefused(p: Pool, k: Key, dirty: bool, loveIt: bool)
    requires Inv(p) && UnPinStatus(p, k) != OK
    ensures AfterUnPin(p, k, dirty, loveIt) == p
  {
  }

  /** disposePage clears the frame, which keeps its place on the list, before it asks the file. */
  lemma DisposeFrames(p: Pool, k: Key, i: int)
    requires Inv(p) && HeldAt(p, k, i) && p.frames[i].pinCnt == 0
    ensures var q := AfterDispose(p, k);
      && q.frames == p.frames[i := Cleared] && q.mem == p.mem && q.upl == p.upl && q.index == p.index - {k}
      && k.file in p.disk && FileOK(p.disk[k.file])
      && q.disk == if k.pageNo == 1 || !MayDispose(p.disk[k.file], k.pageNo) then p.disk
           else p.disk[k.file := Disposed(p.disk[k.file], k.pageNo)]
  {
    HeldOnce(p, k);
    assert FrameOK(p, i) && KeyOf(p.frames[i]) == k;
  }

  /** allocPage puts the page handed out into the victim's frame: pinned once and clean, with whatever
      bytes the frame held. */
  lemma AllocFrames(p: Pool, f: FileRef)
    requires Inv(p) && f in p.disk && CanAllocate(p.disk[f]) && AllocStatus(p, f) == OK
    ensures var q, v := AfterAlloc(p, f), p.upl[0];
      && 0 <= v < |p.frames| && q.frames == p.frames[v := Frame(f, AllocatedPage(p.disk[f]), 1, false, true)]
      && q.mem == p.mem && q.upl == p.upl[1..] && Inv(AllocDisk(p, f)) && q.disk == DiskAfter(AllocDisk(p, f), v)
  {
    hide Allocated, CanAllocate, AllocatedPage;
    InvAllocDisk(p, f);
    var d := AllocDisk(p, f);
    assert d.upl[0] in d.upl && FrameOK(d, d.upl[0]);
    EvictedSize(d, f);
  }

  /** Frame j holds page n of file g, and is dirty. */
  ghost predicate DirtyAt(p: Pool, j: int, g: FileRef, n: int) {
    0 <= j < |p.frames| && p.frames[j] == Frame(g, n, p.frames[j].pinCnt, true, true)
  }

  /** The frames of file f from i up to e have been cleared, and their dirty pages written. */
  ghost predicate FlushedTo(p: Pool, q: Pool, f: FileRef, i: nat, e: nat) {
    && |q.frames| == |p.frames| == |p.mem| && q.mem == p.mem && q.upl == p.upl
    && (forall j :: 0 <= j < |p.frames| ==>
         q.frames[j] == if i <= j < e && p.frames[j].file == f then Cleared else p.frames[j])
    && (forall g: FileRef :: g in q.disk <==> g in p.disk)
    && (forall g: FileRef :: g in p.disk ==> |q.disk[g]| == |p.disk[g]|)
    && (forall g: FileRef, n :: Kept(p, q, f, i, e, g, n))
  }

  /** Page n of file g has been left alone, unless one of those frames holds it and is dirty. */
  ghost predicate Kept(p: Pool, q: Pool, f: FileRef, i: nat, e: nat, g: FileRef, n: int) {
    g in p.disk && 0 <= n < |p.disk[g]| && !(g == f && exists j :: i <= j < e && DirtyAt(p, j, f, n)) ==>
      g in q.disk && n < |q.disk[g]| && q.disk[g][n] == p.disk[g][n]
  }

  /** flushFile deals with the frames in turn, and stops at the first that holds a pinned page of the
      file. */
  lemma {:induction false} FlushFrames(p: Pool, f: FileRef, i: nat, e: nat)
    requires Inv(p) && f != NullFile && i <= e <= |p.frames|
    requires forall j :: i <= j < e && p.frames[j].file == f ==> p.frames[j].pinCnt == 0
    requires e < |p.frames| ==> p.frames[e].file == f && p.frames[e].pinCnt > 0
    ensures FlushedTo(p, AfterFlush(p, f, i), f, i, e)
    decreases e - i
  {
    hide Inv, Flushed;
    FrameBytes(p);
    if i < e {
      FrameFields(p, i);
      if p.frames[i].file != f {
        FlushFrames(p, f, i + 1, e);
        FlushSkip(p, AfterFlush(p, f, i), f, i, e);
      } else {
        InvFlushed(p, i);
        var q := Flushed(p, i);
        FlushFrames(q, f, i + 1, e);
        FlushOne(p, f, i);
        FlushMore(p, q, AfterFlush(q, f, i + 1), f, i, e);
      }
    }
  }

  lemma FrameBytes(p: Pool)
    requires Inv(p)
    ensures |p.frames| == |p.mem|
  {
  }

  /** One frame of the file flushed. */
  lemma FlushOne(p: Pool, f: FileRef, i: nat)
    requires Inv(p) && i < |p.frames| && p.frames[i].file == f && p.frames[i].valid && p.frames[i].pinCnt == 0
    ensures var q, n := Flushed(p, i), p.frames[i].pageNo;
      && q.mem == p.mem && q.upl == p.upl && q.frames == p.frames[i := Cleared] && |q.mem| == |q.frames|
      && PageExists(p.disk, Key(f, n))
      && q.disk == if p.frames[i].dirty then p.disk[f := p.disk[f][n := p.mem[i]]] else p.disk
  {
    assert FrameOK(p, i);
  }

  lemma FlushMore(p: Pool, q: Pool, r: Pool, f: FileRef, i: nat, e: nat)
    requires i < e <= |p.frames| == |p.mem| && p.frames[i].file == f && p.frames[i].valid && f != NullFile
    requires q.mem == p.mem && q.upl == p.upl && q.frames == p.frames[i := Cleared]
    requires PageExists(p.disk, Key(f, p.frames[i].pageNo))
    requires q.disk ==
      if p.frames[i].dirty then p.disk[f := p.disk[f][p.frames[i].pageNo := p.mem[i]]] else p.disk
    requires FlushedTo(q, r, f, i + 1, e)
    ensures FlushedTo(p, r, f, i, e)
  {
    forall g: FileRef, n | g in p.disk && 0 <= n < |p.disk[g]|
        && !(g == f && exists j :: i <= j < e && DirtyAt(p, j, f, n))
      ensures g in r.disk && n < |r.disk[g]| && r.disk[g][n] == p.disk[g][n]
    {
      assert Kept(q, r, f, i + 1, e, g, n);
      forall j | i + 1 <= j < e
        ensures DirtyAt(q, j, f, n) ==> DirtyAt(p, j, f, n)
      {
      }
      assert p.frames[i].dirty && g == f && n == p.frames[i].pageNo ==> DirtyAt(p, i, f, n);
    }
    assert forall g: FileRef, n :: Kept(p, r, f, i, e, g, n);
  }

  /** A frame of another file passed over. */
  lemma FlushSkip(p: Pool, r: Pool, f: FileRef, i: nat, e: nat)
    requires i < e <= |p.frames| == |p.mem| && p.frames[i].file != f && FlushedTo(p, r, f, i + 1, e)
    ensures FlushedTo(p, r, f, i, e)
  {
    forall g: FileRef, n
      ensures Kept(p, r, f, i, e, g, n)
    {
      assert Kept(p, r, f, i + 1, e, g, n);
    }
  }
}
