/** The pool together with the disk behaves as a plain map from pages to bytes. */
module PoolRefinement {
  import opened StatusCodes
  import opened PageSpec
  import opened FileSpec
  import opened Disks
  import opened PoolSpec
  import opened PoolFree

  /** What a client sees of page k: the frame that holds it, or else the disk. */
  ghost function View(p: Pool, k: Key): Image
    requires Inv(p) && PageExists(p.disk, k)
  {
    if k in p.index then
      assert IndexedOK(p, k);
      p.mem[p.index[k]]
    else p.disk[k.file][k.pageNo]
  }

  ghost predicate SamePages(p: Pool, q: Pool) {
    forall k :: PageExists(p.disk, k) <==> PageExists(q.disk, k)
  }

  /** Page k looks the same in p and q. */
  ghost predicate SameView(p: Pool, q: Pool, k: Key)
    requires Inv(p) && Inv(q) && PageExists(p.disk, k) && PageExists(q.disk, k)
  {
    View(p, k) == View(q, k)
  }

  ghost predicate SameViews(p: Pool, q: Pool)
    requires Inv(p) && Inv(q)
  {
    SamePages(p, q) && forall k :: PageExists(p.disk, k) ==> SameView(p, q, k)
  }

  /** A frame may be forgotten: it is dirty, or its client still owes a dirty unpin, or it
      equals the disk. */
  ghost predicate Accounted(p: Pool, touched: set<Key>, i: nat)
    requires Inv(p) && i < |p.frames|
  {
    var fr := p.frames[i];
    assert FrameOK(p, i);
    fr.valid ==> fr.dirty || KeyOf(fr) in touched || p.mem[i] == p.disk[fr.file][fr.pageNo]
  }

  ghost predicate Pinned(p: Pool, k: Key) {
    k in p.index && 0 <= p.index[k] < |p.frames| && p.frames[p.index[k]].pinCnt > 0
  }

  /** `touched` are the pages whose pinned frame a client has changed since it last
      announced a change; every other clean frame equals the disk. */
  ghost predicate Coherent(p: Pool, touched: set<Key>)
    requires Inv(p)
  {
    && (forall i :: 0 <= i < |p.frames| ==> Accounted(p, touched, i))
    && (forall k :: k in touched ==> Pinned(p, k))
  }

  // ----- Eviction -----

  lemma EvictedViews(p: Pool, touched: set<Key>)
    requires Inv(p) && Coherent(p, touched) && p.upl != []
    requires Inv(Released(Evicted(p), p.upl[0]))
    ensures var q := Released(Evicted(p), p.upl[0]);
      SameViews(p, q) && Coherent(q, touched)
  {
    var v := p.upl[0];
    var q := Released(Evicted(p), v);
    assert v in p.upl && FrameOK(p, v) && Accounted(p, touched, v);
    var fr := p.frames[v];
    if fr.valid && fr.dirty {
      WriteBackDisk(p.disk, KeyOf(fr), p.mem[v]);
    }
    assert SamePages(p, q);
    forall k | PageExists(p.disk, k)
      ensures SameView(p, q, k)
    {
      assert k in p.index ==> IndexedOK(p, k);
    }
    forall i | 0 <= i < |q.frames|
      ensures Accounted(q, touched, i)
    {
      assert Accounted(p, touched, i);
      assert FrameOK(p, i);
    }
    forall k | k in touched
      ensures Pinned(q, k)
    {
      assert Pinned(p, k) && IndexedOK(p, k);
    }
  }

  /** Exactly when eviction loses nothing: the victim is dirty, or equals the disk. */
  lemma EvictionLosesNothingIff(p: Pool)
    requires Inv(p) && p.upl != [] && 0 <= p.upl[0] < |p.frames| && p.frames[p.upl[0]].valid
    ensures Inv(Released(Evicted(p), p.upl[0]))
    ensures var fr := p.frames[p.upl[0]]; var q := Released(Evicted(p), p.upl[0]);
      PageExists(p.disk, KeyOf(fr)) && PageExists(q.disk, KeyOf(fr)) &&
      (SameView(p, q, KeyOf(fr)) <==> fr.dirty || p.mem[p.upl[0]] == p.disk[fr.file][fr.pageNo])
  {
    var v := p.upl[0];
    InvReleased(p);
    assert v in p.upl && FrameOK(p, v);
    var fr := p.frames[v];
    if fr.dirty {
      WriteBackDisk(p.disk, KeyOf(fr), p.mem[v]);
    }
  }

  /** Filling an empty frame: with the bytes the disk has, nothing changes for anyone; with
      other bytes, the page counts as touched. */
  lemma LoadedViews(e: Pool, q: Pool, i: nat, k: Key, b: Image, touched: set<Key>)
    requires Inv(e) && Coherent(e, touched) && Inv(q)
    requires i < |e.frames| && !e.frames[i].valid && k !in e.index && PageExists(e.disk, k)
    requires q.frames == e.frames[i := Frame(k.file, k.pageNo, 1, false, true)]
    requires q.mem == e.mem[i := b] && q.index == e.index[k := i] && q.disk == e.disk
    ensures forall n :: PageExists(e.disk, n) && n != k ==> SameView(e, q, n)
    ensures Coherent(q, touched + {k}) && Pinned(q, k) && View(q, k) == b
    ensures b == e.disk[k.file][k.pageNo] ==> SameViews(e, q) && Coherent(q, touched)
  {
    forall n | PageExists(e.disk, n) && n != k
      ensures SameView(e, q, n)
    {
      assert n in e.index ==> IndexedOK(e, n);
    }
    forall j | 0 <= j < |q.frames|
      ensures Accounted(q, touched + {k}, j)
      ensures b == e.disk[k.file][k.pageNo] ==> Accounted(q, touched, j)
    {
      assert Accounted(e, touched, j);
    }
    forall n | n in touched
      ensures Pinned(q, n)
    {
      assert Pinned(e, n) && IndexedOK(e, n);
    }
    if b == e.disk[k.file][k.pageNo] {
      assert SameView(e, q, k);
    }
  }

  lemma PinnedAgainViews(p: Pool, k: Key, touched: set<Key>)
    requires Inv(p) && Coherent(p, touched) && k in p.index && Inv(PinnedAgain(p, k))
    ensures SameViews(p, PinnedAgain(p, k)) && Coherent(PinnedAgain(p, k), touched)
  {
    var i := p.index[k];
    var q := PinnedAgain(p, k);
    assert IndexedOK(p, k) && FrameOK(p, i);
    forall j | 0 <= j < |q.frames|
      ensures Accounted(q, touched, j)
    {
      assert Accounted(p, touched, j);
    }
    forall n | n in touched
      ensures Pinned(q, n)
    {
      assert Pinned(p, n);
    }
    assert forall n :: PageExists(p.disk, n) ==> SameView(p, q, n);
  }

  lemma SameViewsTrans(p: Pool, q: Pool, r: Pool)
    requires Inv(p) && Inv(q) && Inv(r) && SameViews(p, q) && SameViews(q, r)
    ensures SameViews(p, r)
  {
    forall k | PageExists(p.disk, k)
      ensures PageExists(r.disk, k) && SameView(p, r, k)
    {
      assert PageExists(q.disk, k) && SameView(p, q, k) && SameView(q, r, k);
    }
  }

  /** readPage changes no page, and a page it returns holds what the client sees of it. */
  lemma ReadViews(p: Pool, k: Key, touched: set<Key>)
    requires Inv(p) && Coherent(p, touched)
    ensures Inv(AfterRead(p, k)) && SameViews(p, AfterRead(p, k)) && Coherent(AfterRead(p, k), touched)
    ensures ReadStatus(p, k) == OK ==>
      (PageExists(p.disk, k) && Pinned(AfterRead(p, k), k)
        && AfterRead(p, k).mem[AfterRead(p, k).index[k]] == View(p, k))
  {
    hide Inv, Evicted, PinnedAgain, Coherent, SameViews, View;
    InvRead(p, k);
    var q := AfterRead(p, k);
    if k.file == NullFile || (k !in p.index && p.upl == []) {
      NoChange(p);
    } else if k in p.index {
      PinnedAgainViews(p, k, touched);
      PinnedAgainPins(p, k);
    } else {
      InvReleased(p);
      EvictedViews(p, touched);
      if PageExists(p.disk, k) {
        EvictedForgets(p, k);
        var e := Released(Evicted(p), p.upl[0]);
        InvEvictedPage(p, k);
        EvictedFrame(p);
        LoadedViews(e, q, p.upl[0], k, Evicted(p).disk[k.file][k.pageNo], touched);
        SameViewsTrans(p, e, q);
      }
    }
    if ReadStatus(p, k) == OK {
      ReadPins(p, k);
      ViewOfResident(q, k);
      TakeView(p, q, k);
    }
  }

  lemma NoChange(p: Pool)
    requires Inv(p)
    ensures SameViews(p, p)
  {
  }

  lemma EvictedFrame(p: Pool)
    requires Inv(p) && p.upl != []
    ensures 0 <= p.upl[0] < |Evicted(p).frames| == |p.frames| && !Evicted(p).frames[p.upl[0]].valid
  {
    assert p.upl[0] in p.upl;
  }

  lemma PinnedAgainPins(p: Pool, k: Key)
    requires Inv(p) && k in p.index
    ensures Pinned(PinnedAgain(p, k), k) && PageExists(p.disk, k)
  {
    assert IndexedOK(p, k);
    assert FrameOK(p, p.index[k]);
  }

  lemma ReadPins(p: Pool, k: Key)
    requires Inv(p) && Inv(AfterRead(p, k)) && ReadStatus(p, k) == OK
    ensures PageExists(p.disk, k) && Pinned(AfterRead(p, k), k)
  {
    if k in p.index {
      PinnedAgainPins(p, k);
    } else {
      assert p.upl[0] in p.upl;
    }
  }

  lemma ViewOfResident(p: Pool, k: Key)
    requires Inv(p) && k in p.index
    ensures PageExists(p.disk, k) && 0 <= p.index[k] < |p.mem| && View(p, k) == p.mem[p.index[k]]
  {
    assert IndexedOK(p, k);
    assert FrameOK(p, p.index[k]);
  }

  lemma TakeView(p: Pool, q: Pool, k: Key)
    requires Inv(p) && Inv(q) && SameViews(p, q) && PageExists(p.disk, k)
    ensures PageExists(q.disk, k) && View(p, k) == View(q, k)
  {
    assert SameView(p, q, k);
  }

  // ----- Unpinning -----

  /** The client's side of the bargain: the last pin of a changed page is not released
      without some unpin having said "dirty" after the change. */
  ghost predicate MayUnPin(p: Pool, touched: set<Key>, k: Key, dirty: bool)
    requires Inv(p)
  {
    UnPinStatus(p, k) == OK && p.frames[p.index[k]].pinCnt == 1 && !dirty ==> k !in touched
  }

  function Announced(touched: set<Key>, k: Key, dirty: bool): set<Key> {
    if dirty then touched - {k} else touched
  }

  lemma UnPinViews(p: Pool, k: Key, dirty: bool, loveIt: bool, touched: set<Key>)
    requires Inv(p) && Coherent(p, touched) && MayUnPin(p, touched, k, dirty)
    ensures var q := AfterUnPin(p, k, dirty, loveIt);
      Inv(q) && SameViews(p, q) && (UnPinStatus(p, k) == OK ==> Coherent(q, Announced(touched, k, dirty)))
  {
    InvUnPin(p, k, dirty, loveIt);
    var q := AfterUnPin(p, k, dirty, loveIt);
    if UnPinStatus(p, k) == OK {
      var i := p.index[k];
      assert IndexedOK(p, k) && FrameOK(p, i);
      var t := Announced(touched, k, dirty);
      forall j | 0 <= j < |q.frames|
        ensures Accounted(q, t, j)
      {
        assert Accounted(p, touched, j) && FrameOK(p, j);
      }
      forall n | n in t
        ensures Pinned(q, n)
      {
        assert Pinned(p, n) && IndexedOK(p, n);
      }
    }
    assert forall n :: PageExists(p.disk, n) ==> SameView(p, q, n);
  }

  // ----- Writing through a pinned frame -----

  lemma WrittenViews(p: Pool, k: Key, b: Image, touched: set<Key>)
    requires Inv(p) && Coherent(p, touched) && Pinned(p, k) && |b| == PAGESIZE
    ensures var q := Written(p, p.index[k], b);
      && Inv(q) && Coherent(q, touched + {k}) && SamePages(p, q)
      && PageExists(p.disk, k) && View(q, k) == b
      && forall n :: PageExists(p.disk, n) && n != k ==> SameView(p, q, n)
  {
    var i := p.index[k];
    var q := Written(p, i, b);
    InvWritten(p, i, b);
    ViewOfResident(p, k);
    assert IndexedOK(p, k);
    forall n | PageExists(p.disk, n) && n != k
      ensures SameView(p, q, n)
    {
      assert n in p.index ==> IndexedOK(p, n);
    }
    forall j | 0 <= j < |q.frames|
      ensures Accounted(q, touched + {k}, j)
    {
      assert Accounted(p, touched, j) && FrameOK(p, j);
    }
    forall n | n in touched + {k}
      ensures Pinned(q, n)
    {
      assert Pinned(p, n);
    }
  }

  // ----- Flushing -----

  lemma FlushedViews(p: Pool, i: nat, touched: set<Key>)
    requires Inv(p) && Coherent(p, touched)
    requires i < |p.frames| && p.frames[i].valid && p.frames[i].pinCnt == 0
    ensures var q := Flushed(p, i);
      Inv(q) && SameViews(p, q) && Coherent(q, touched)
  {
    InvFlushed(p, i);
    var q := Flushed(p, i);
    var fr := p.frames[i];
    assert FrameOK(p, i) && Accounted(p, touched, i);
    if fr.dirty {
      WriteBackDisk(p.disk, KeyOf(fr), p.mem[i]);
    }
    assert SamePages(p, q);
    forall n | PageExists(p.disk, n)
      ensures SameView(p, q, n)
    {
      assert n in p.index ==> IndexedOK(p, n);
    }
    forall j | 0 <= j < |q.frames|
      ensures Accounted(q, touched, j)
    {
      assert Accounted(p, touched, j) && FrameOK(p, j);
    }
    forall n | n in touched
      ensures Pinned(q, n)
    {
      assert Pinned(p, n) && IndexedOK(p, n);
    }
  }

  lemma {:induction false} FlushViews(p: Pool, f: FileRef, i: nat, touched: set<Key>)
    requires Inv(p) && Coherent(p, touched) && i <= |p.frames|
    ensures SameViews(p, AfterFlush(p, f, i)) && Coherent(AfterFlush(p, f, i), touched)
    decreases |p.frames| - i
  {
    hide Inv, Coherent, SameViews, Flushed;
    NoChange(p);
    if i < |p.frames| {
      if p.frames[i].file != f {
        FlushViews(p, f, i + 1, touched);
      } else if p.frames[i].valid && p.frames[i].pinCnt <= 0 {
        FrameFields(p, i);
        FlushedViews(p, i, touched);
        FlushViews(Flushed(p, i), f, i + 1, touched);
        SameViewsTrans(p, Flushed(p, i), AfterFlush(Flushed(p, i), f, i + 1));
      }
    }
  }

  lemma FrameFields(p: Pool, i: nat)
    requires Inv(p) && i < |p.frames|
    ensures FrameOK(p, i) && 0 <= p.frames[i].pinCnt
    ensures p.frames[i].valid && p.frames[i].pinCnt == 0 ==> |Flushed(p, i).frames| == |p.frames|
    ensures p.frames[i].valid && p.frames[i].pinCnt == 0 ==>
      forall j :: 0 <= j < |p.frames| ==> Flushed(p, i).frames[j] == if j == i then Cleared else p.frames[j]
  {
    assert FrameOK(p, i);
  }

  ghost predicate NoFrameOf(p: Pool, f: FileRef, n: nat) {
    forall j :: 0 <= j < n && j < |p.frames| ==> p.frames[j].file != f
  }

  /** flushFile succeeds exactly when the file has no pinned page, and then no frame holds
      a page of the file any more. */
  lemma {:induction false} FlushEmpties(p: Pool, f: FileRef, i: nat)
    requires Inv(p) && i <= |p.frames| && f != NullFile && NoFrameOf(p, f, i)
    ensures FlushStatus(p, f, i) == OK <==>
      (forall j :: i <= j < |p.frames| && p.frames[j].file == f ==> p.frames[j].pinCnt == 0)
    ensures FlushStatus(p, f, i) in {OK, PAGEPINNED}
    ensures FlushStatus(p, f, i) == OK ==> NoFrameOf(AfterFlush(p, f, i), f, |p.frames|)
    decreases |p.frames| - i
  {
    hide Inv, Flushed;
    if i < |p.frames| {
      FrameFields(p, i);
      if p.frames[i].file != f {
        FlushEmpties(p, f, i + 1);
      } else if p.frames[i].valid && p.frames[i].pinCnt <= 0 {
        InvFlushed(p, i);
        var q := Flushed(p, i);
        FlushEmpties(q, f, i + 1);
        FlushStatusFrame(p, q, f, i + 1);
      }
    }
  }

  /** The status depends on the frames still to be visited only. */
  lemma {:induction false} FlushStatusFrame(p: Pool, q: Pool, f: FileRef, i: nat)
    requires Inv(p) && Inv(q) && i <= |p.frames| == |q.frames|
    requires forall j :: i <= j < |p.frames| ==> q.frames[j] == p.frames[j]
    ensures FlushStatus(q, f, i) == FlushStatus(p, f, i)
    decreases |p.frames| - i
  {
    hide Inv;
    if i < |p.frames| {
      FlushStatusFrame(p, q, f, i + 1);
    }
  }

  /** Durability: when no page of the file is pinned, flushFile leaves every page of the
      file on disk as clients saw it, and no frame or hash entry refers to the file. */
  lemma FlushMakesDurable(p: Pool, f: FileRef, touched: set<Key>)
    requires Inv(p) && Coherent(p, touched) && f != NullFile
    requires forall j :: 0 <= j < |p.frames| && p.frames[j].file == f ==> p.frames[j].pinCnt == 0
    ensures FlushStatus(p, f, 0) == OK
    ensures var q := AfterFlush(p, f, 0);
      && SameViews(p, q) && Coherent(q, touched)
      && (forall j :: 0 <= j < |q.frames| ==> q.frames[j].file != f)
      && (forall k :: k in q.index ==> k.file != f)
      && (forall k :: PageExists(p.disk, k) && k.file == f ==>
           (PageExists(q.disk, k) && q.disk[f][k.pageNo] == View(p, k)))
  {
    FlushEmpties(p, f, 0);
    FlushViews(p, f, 0, touched);
    hide FlushStatus, AfterFlush, Coherent;
    var q := AfterFlush(p, f, 0);
    forall k | k in q.index
      ensures k.file != f
    {
      assert IndexedOK(q, k);
    }
    forall k | PageExists(p.disk, k) && k.file == f
      ensures PageExists(q.disk, k) && q.disk[f][k.pageNo] == View(p, k)
    {
      assert SameView(p, q, k);
    }
  }

  // ----- Disposing -----

  lemma DropKeepsOthers(p: Pool, k: Key, touched: set<Key>)
    requires Inv(p) && Coherent(p, touched) && k in p.index && p.frames[p.index[k]].pinCnt == 0
    ensures p.frames[p.index[k]].valid && PageExists(p.disk, k)
    ensures var q := Dropped(p, p.index[k]);
      Inv(q) && Coherent(q, touched) && forall n :: PageExists(p.disk, n) && n != k ==> SameView(p, q, n)
  {
    var i := p.index[k];
    assert IndexedOK(p, k) && FrameOK(p, i);
    InvDropped(p, i);
    var q := Dropped(p, i);
    forall n | PageExists(p.disk, n) && n != k
      ensures SameView(p, q, n)
    {
      assert n in p.index ==> IndexedOK(p, n);
    }
    forall j | 0 <= j < |q.frames|
      ensures Accounted(q, touched, j)
    {
      assert Accounted(p, touched, j) && FrameOK(p, j);
    }
    forall n | n in touched
      ensures Pinned(q, n)
    {
      assert Pinned(p, n) && IndexedOK(p, n);
    }
  }

  /** Changing the disk under a page that is in no frame changes that page only. */
  lemma DiskChangeViews(p: Pool, q: Pool, k: Key, touched: set<Key>)
    requires Inv(p) && Inv(q) && Coherent(p, touched)
    requires k !in p.index && q == p.(disk := q.disk)
    requires forall n :: PageExists(p.disk, n) ==> PageExists(q.disk, n)
    requires forall n :: PageExists(p.disk, n) && n != k ==>
      (PageExists(q.disk, n) && q.disk[n.file][n.pageNo] == p.disk[n.file][n.pageNo])
    ensures Coherent(q, touched)
    ensures forall n :: PageExists(p.disk, n) && n != k ==> SameView(p, q, n)
  {
    forall j | 0 <= j < |q.frames|
      ensures Accounted(q, touched, j)
    {
      assert Accounted(p, touched, j) && FrameOK(p, j);
    }
    forall n | n in touched
      ensures Pinned(q, n)
    {
      assert Pinned(p, n);
    }
  }

  /** disposePage changes no page but the one given back. */
  lemma DisposeViews(p: Pool, k: Key, touched: set<Key>)
    requires Inv(p) && Coherent(p, touched)
    ensures var q := AfterDispose(p, k);
      && Inv(q) && Coherent(q, touched) && SamePages(p, q)
      && (forall n :: PageExists(p.disk, n) && n != k ==> SameView(p, q, n))
      && (DisposeStatus(p, k) in {HASHNOTFOUND, PAGEPINNED} ==> q == p)
  {
    InvDispose(p, k);
    hide Coherent, Disposed;
    if k in p.index && p.frames[p.index[k]].pinCnt <= 0 {
      var i := p.index[k];
      assert IndexedOK(p, k) && FrameOK(p, i);
      DropKeepsOthers(p, k, touched);
      var d := Dropped(p, i);
      var q := AfterDispose(p, k);
      if MayDispose(p.disk[k.file], k.pageNo) {
        DisposeLinks(p.disk[k.file], k.pageNo);
        DiskChangeViews(d, q, k, touched);
        forall n | PageExists(p.disk, n) && n != k
          ensures SameView(p, q, n)
        {
          assert SameView(p, d, n) && SameView(d, q, n);
        }
      }
    }
  }

  /** The page is in a frame that nobody has pinned. */
  ghost predicate Idle(p: Pool, k: Key) {
    k in p.index && 0 <= p.index[k] < |p.frames| && p.frames[p.index[k]].pinCnt == 0
  }

  /** disposePage refuses the first page of a file, but only after it has thrown its frame away:
      the page then reads as the disk has it.  Any other call that fails changes nothing, and so
      does this one when the frame was not dirty. */
  lemma RefusedDispose(p: Pool, k: Key, touched: set<Key>)
    requires Inv(p) && Coherent(p, touched) && PageExists(p.disk, k)
    ensures DisposeStatus(p, k) == BADPAGENO <==> Idle(p, k) && k.pageNo == 1
    ensures var q := AfterDispose(p, k);
      && Inv(q) && PageExists(q.disk, k)
      && (DisposeStatus(p, k) == BADPAGENO ==> View(q, k) == p.disk[k.file][1])
      && (DisposeStatus(p, k) != OK && !(Idle(p, k) && p.frames[p.index[k]].dirty) ==> SameView(p, q, k))
  {
    InvDispose(p, k);
    if k in p.index {
      var i := p.index[k];
      assert IndexedOK(p, k) && FrameOK(p, i) && Accounted(p, touched, i);
      assert FileOK(p.disk[k.file]);
      assert k in touched ==> Pinned(p, k);
    }
  }

  /** If the frame of page k may rightly hold the bytes b, they survive a refused disposePage. */
  ghost predicate Survives(p: Pool, k: Key, touched: set<Key>, b: Image)
    requires Inv(p) && Idle(p, k) && PageExists(p.disk, k) && |b| == PAGESIZE
  {
    InvWritten(p, p.index[k], b);
    var q := Written(p, p.index[k], b);
    InvDispose(q, k);
    Coherent(q, touched) ==> PageExists(AfterDispose(q, k).disk, k) && SameView(q, AfterDispose(q, k), k)
  }

  lemma SurvivesIff(p: Pool, k: Key, touched: set<Key>, b: Image)
    requires Inv(p) && Coherent(p, touched) && PageExists(p.disk, k) && Idle(p, k) && k.pageNo == 1
    requires |b| == PAGESIZE
    ensures Survives(p, k, touched, b) <==> !p.frames[p.index[k]].dirty || b == p.disk[k.file][1]
  {
    hide Inv, Coherent, AfterDispose, View;
    var i := p.index[k];
    ViewOfResident(p, k);
    InvWritten(p, i, b);
    var q := Written(p, i, b);
    InvDispose(q, k);
    if p.frames[i].dirty {
      DirtyMayHold(p, i, touched, b);
    }
    if Coherent(q, touched) {
      RefusedDispose(q, k, touched);
      CleanHolds(q, k, touched);
    }
  }

  /** To dispose of the first page of a file is harmless, whatever its frame holds, exactly when
      the frame is not dirty. */
  lemma RefusedDisposeSafeIff(p: Pool, k: Key, touched: set<Key>)
    requires Inv(p) && Coherent(p, touched) && PageExists(p.disk, k) && Idle(p, k) && k.pageNo == 1
    ensures (forall b: Image | |b| == PAGESIZE :: Survives(p, k, touched, b)) <==> !p.frames[p.index[k]].dirty
  {
    hide Coherent, Survives;
    var away := p.disk[k.file][1];
    assert |away| == PAGESIZE by { assert FileOK(p.disk[k.file]); }
    hide Inv;
    forall b: Image | |b| == PAGESIZE
      ensures Survives(p, k, touched, b) <==> !p.frames[p.index[k]].dirty || b == away
    {
      SurvivesIff(p, k, touched, b);
    }
    var other: Image := away[0 := if away[0] == 0 then 1 else 0];
    assert other[0] != away[0];
    assert |other| == PAGESIZE && (Survives(p, k, touched, other) <==> !p.frames[p.index[k]].dirty);
  }

  /** A dirty frame may hold any bytes. */
  lemma DirtyMayHold(p: Pool, i: nat, touched: set<Key>, b: Image)
    requires Inv(p) && Coherent(p, touched) && i < |p.frames| && p.frames[i].dirty && |b| == PAGESIZE
    ensures Inv(Written(p, i, b)) && Coherent(Written(p, i, b), touched)
  {
    InvWritten(p, i, b);
    var q := Written(p, i, b);
    forall j | 0 <= j < |q.frames|
      ensures Accounted(q, touched, j)
    {
      assert Accounted(p, touched, j) && FrameOK(p, j);
    }
    forall k | k in touched
      ensures Pinned(q, k)
    {
      assert Pinned(p, k);
    }
  }

  /** An unpinned frame that is not dirty holds what the disk has. */
  lemma CleanHolds(p: Pool, k: Key, touched: set<Key>)
    requires Inv(p) && Coherent(p, touched) && PageExists(p.disk, k) && Idle(p, k)
    ensures View(p, k) == p.mem[p.index[k]]
    ensures !p.frames[p.index[k]].dirty ==> p.mem[p.index[k]] == p.disk[k.file][k.pageNo]
  {
    var i := p.index[k];
    assert IndexedOK(p, k) && FrameOK(p, i) && Accounted(p, touched, i);
    assert k in touched ==> Pinned(p, k);
  }

  // ----- Allocating -----

  lemma AllocDiskViews(p: Pool, f: FileRef, touched: set<Key>)
    requires Inv(p) && Coherent(p, touched) && f in p.disk && CanAllocate(p.disk[f])
    ensures var q := AllocDisk(p, f);
      && Inv(q) && Coherent(q, touched)
      && (forall n :: PageExists(p.disk, n) ==> PageExists(q.disk, n) && SameView(p, q, n))
  {
    InvAllocDisk(p, f);
    var q := AllocDisk(p, f);
    hide Allocated;
    forall n | PageExists(p.disk, n)
      ensures PageExists(q.disk, n) && SameView(p, q, n)
    {
    }
    forall j | 0 <= j < |q.frames|
      ensures Accounted(q, touched, j)
    {
      assert Accounted(p, touched, j) && FrameOK(p, j);
    }
    forall n | n in touched
      ensures Pinned(q, n)
    {
      assert Pinned(p, n);
    }
  }

  /** allocPage changes no page but the one it hands out.  That one is pinned when the
      call succeeds and then holds whatever bytes were in the frame: the client has to
      initialise it and to unpin it dirty. */
  lemma AllocViews(p: Pool, f: FileRef, touched: set<Key>)
    requires Inv(p) && Coherent(p, touched) && f in p.disk && CanAllocate(p.disk[f])
    ensures var q := AfterAlloc(p, f); var k := AllocKey(p, f);
      && Inv(q) && PageExists(q.disk, k)
      && (forall n :: PageExists(p.disk, n) && n != k ==> PageExists(q.disk, n) && SameView(p, q, n))
      && (AllocStatus(p, f) == OK ==> Pinned(q, k) && Coherent(q, touched + {k}))
      && (AllocStatus(p, f) != OK ==> Coherent(q, touched) && (PageExists(p.disk, k) ==> SameView(p, q, k)))
  {
    hide Inv, Coherent, Evicted, AllocDisk, Allocated, View;
    InvAlloc(p, f);
    InvAllocDisk(p, f);
    AllocDiskViews(p, f, touched);
    AllocDiskKeeps(p, f);
    var d := AllocDisk(p, f);
    var q := AfterAlloc(p, f);
    var k := AllocKey(p, f);
    if d.upl != [] {
      InvReleased(d);
      EvictedViews(d, touched);
      var e := Released(Evicted(d), d.upl[0]);
      if AllocStatus(p, f) == OK {
        EvictedIndex(d, k);
        EvictedFrame(d);
        InvEvictedPage(d, k);
        FrameBytes(d);
        LoadedViews(e, q, d.upl[0], k, q.mem[d.upl[0]], touched);
      }
      forall n | PageExists(p.disk, n) && (n != k || AllocStatus(p, f) != OK)
        ensures PageExists(q.disk, n) && SameView(p, q, n)
      {
        assert SameView(p, d, n);
        TakeView(d, e, n);
        assert n != k ==> e == q || SameView(e, q, n);
      }
    }
  }

  // ----- Runs -----

  datatype Event =
    | Read(k: Key)
    | Write(k: Key, b: Image)                     // a client changes the bytes of a page it has pinned
    | UnPin(k: Key, dirty: bool, loveIt: bool)
    | Flush(f: FileRef)
    | Dispose(k: Key)
    | Alloc(f: FileRef)

  ghost function Step(p: Pool, e: Event): Pool
    requires Inv(p)
  {
    match e
    case Read(k) => AfterRead(p, k)
    case Write(k, b) => if Pinned(p, k) && |b| == PAGESIZE then Written(p, p.index[k], b) else p
    case UnPin(k, dirty, loveIt) => AfterUnPin(p, k, dirty, loveIt)
    case Flush(f) => AfterFlush(p, f, 0)
    case Dispose(k) => AfterDispose(p, k)
    case Alloc(f) => if f in p.disk && CanAllocate(p.disk[f]) then AfterAlloc(p, f) else p
  }

  /** Whatever the clients do, the three structures keep agreeing. */
  lemma StepKeepsInv(p: Pool, e: Event)
    requires Inv(p)
    ensures Inv(Step(p, e))
  {
    hide Inv, AfterRead, AfterUnPin, AfterDispose, AfterAlloc, AfterFlush;
    match e
    case Read(k) => InvRead(p, k);
    case Write(k, b) =>
      if Pinned(p, k) && |b| == PAGESIZE {
        InvWritten(p, p.index[k], b);
      }
    case UnPin(k, dirty, loveIt) => InvUnPin(p, k, dirty, loveIt);
    case Flush(f) =>
    case Dispose(k) => InvDispose(p, k);
    case Alloc(f) =>
      if f in p.disk && CanAllocate(p.disk[f]) {
        InvAlloc(p, f);
      }
  }

  ghost function Run(p: Pool, es: seq<Event>): Pool
    requires Inv(p)
    decreases |es|
  {
    if es == [] then p else
      StepKeepsInv(p, es[0]);
      Run(Step(p, es[0]), es[1..])
  }

  /** The free lists after a step: disposing pushes, allocating pops. */
  ghost function StepFree(p: Pool, free: FreePages, e: Event): FreePages
    requires Inv(p)
  {
    match e
    case Dispose(k) => DisposedFree(p, free, k)
    case Alloc(f) => AllocatedFree(free, f)
    case _ => free
  }

  /** What keeps the free lists sound: read no page that has been given back, and allocate in
      files that are there and not full. */
  ghost predicate Spares(p: Pool, free: FreePages, e: Event) {
    match e
    case Read(k) => !OnList(free, k)
    case Alloc(f) => f in p.disk && |p.disk[f]| < MAXPAGES
    case _ => true
  }

  lemma StepKeepsLists(p: Pool, free: FreePages, e: Event)
    requires Inv(p) && ListsOK(p, free) && Spares(p, free, e)
    ensures ListsOK(Step(p, e), StepFree(p, free, e))
    ensures e.Alloc? ==> CanAllocate(p.disk[e.f])
  {
    hide Inv, Listed, AfterRead, AfterUnPin, AfterDispose, AfterAlloc, AfterFlush, CanAllocate;
    match e
    case Read(k) => ReadFree(p, free, k);
    case Write(k, b) =>
    case UnPin(k, dirty, loveIt) => UnPinFree(p, free, k, dirty, loveIt);
    case Flush(f) => FlushFree(p, free, f, 0);
    case Dispose(k) => DisposeFree(p, free, k);
    case Alloc(f) =>
      HandsOut(p, free, f);
      AllocFree(p, free, f);
  }

  ghost predicate SparesRun(p: Pool, free: FreePages, es: seq<Event>)
    requires Inv(p)
    decreases |es|
  {
    es == [] || (Spares(p, free, es[0]) &&
      (StepKeepsInv(p, es[0]); SparesRun(Step(p, es[0]), StepFree(p, free, es[0]), es[1..])))
  }

  ghost function RunFree(p: Pool, free: FreePages, es: seq<Event>): FreePages
    requires Inv(p)
    decreases |es|
  {
    if es == [] then free else
      StepKeepsInv(p, es[0]);
      RunFree(Step(p, es[0]), StepFree(p, free, es[0]), es[1..])
  }

  /** Over every run of clients that leave free pages alone, whatever else they do, the three
      structures of the pool agree, every file keeps its free list, and no frame holds a free page. */
  lemma {:induction false} RunKeepsInv(p: Pool, free: FreePages, es: seq<Event>)
    requires Inv(p) && ListsOK(p, free) && SparesRun(p, free, es)
    ensures Inv(Run(p, es)) && ListsOK(Run(p, es), RunFree(p, free, es))
    decreases |es|
  {
    hide Inv, Step, ListsOK, Spares, StepFree;
    if es != [] {
      StepKeepsInv(p, es[0]);
      StepKeepsLists(p, free, es[0]);
      RunKeepsInv(Step(p, es[0]), StepFree(p, free, es[0]), es[1..]);
    }
  }

  /** After any such run allocPage hands out the page given back last, or else the one after the
      last; it fails exactly when every frame is pinned, and never because the page is in the
      hash table already. */
  lemma AllocAfterRun(p: Pool, free: FreePages, es: seq<Event>, f: FileRef)
    requires Inv(p) && ListsOK(p, free) && SparesRun(p, free, es)
    requires f in Run(p, es).disk && |Run(p, es).disk[f]| < MAXPAGES
    ensures var q := Run(p, es); var list := RunFree(p, free, es);
      && Inv(q) && CanAllocate(q.disk[f]) && AllocKey(q, f) !in q.index
      && f in list && AllocKey(q, f).pageNo == (if list[f] == [] then |q.disk[f]| else list[f][0])
      && AllocStatus(q, f) == if q.upl == [] then BUFFEREXCEEDED else OK
  {
    hide Inv, ListsOK, Run, RunFree, SparesRun, CanAllocate, AllocStatus;
    RunKeepsInv(p, free, es);
    HandsOut(Run(p, es), RunFree(p, free, es), f);
  }

  /** When no frame is left, allocPage has taken the page from the file all the same: it exists,
      it is not free, and no frame holds it. */
  lemma ExceededLeaksPage(p: Pool, free: FreePages, f: FileRef)
    requires Inv(p) && ListsOK(p, free) && f in p.disk && |p.disk[f]| < MAXPAGES && p.upl == []
    ensures CanAllocate(p.disk[f]) && AllocStatus(p, f) == BUFFEREXCEEDED && Inv(AfterAlloc(p, f))
    ensures var q := AfterAlloc(p, f); var k := AllocKey(p, f); var free' := AllocatedFree(free, f);
      ListsOK(q, free') && PageExists(q.disk, k) && !OnList(free', k) && k !in q.index
  {
    hide Inv, CanAllocate, AllocStatus, Listed, AllocDisk;
    HandsOut(p, free, f);
    InvAlloc(p, f);
    InvAllocDisk(p, f);
    AllocDiskKeeps(p, f);
    AllocDiskFree(p, free, f);
  }

  /** What one client owes the others: to change only what it has pinned, to announce changes
      before the last pin goes, and never to dispose of the first page of a file. */
  ghost predicate Polite(p: Pool, touched: set<Key>, e: Event)
    requires Inv(p)
  {
    match e
    case Write(k, b) => Pinned(p, k) && |b| == PAGESIZE
    case UnPin(k, dirty, loveIt) => MayUnPin(p, touched, k, dirty)
    case Dispose(k) => DisposeStatus(p, k) != BADPAGENO
    case Alloc(f) => f in p.disk && CanAllocate(p.disk[f])
    case _ => true
  }

  /** What is asked of the clients of a run: to be polite, and to leave free pages alone. */
  ghost predicate Obeys(p: Pool, touched: set<Key>, free: FreePages, e: Event)
    requires Inv(p)
  {
    Spares(p, free, e) && (e.Alloc? || Polite(p, touched, e))
  }

  ghost function StepTouched(p: Pool, touched: set<Key>, e: Event): set<Key>
    requires Inv(p)
  {
    match e
    case Write(k, b) => touched + {k}
    case UnPin(k, dirty, loveIt) => if UnPinStatus(p, k) == OK then Announced(touched, k, dirty) else touched
    case Alloc(f) => if f in p.disk && AllocStatus(p, f) == OK then touched + {AllocKey(p, f)} else touched
    case _ => touched
  }

  /** The map the clients may think of: writing changes one entry, allocating and disposing
      set one entry to something unspecified, everything else changes nothing. */
  ghost function StepMap(p: Pool, m: map<Key, Image>, e: Event): map<Key, Image>
    requires Inv(p) && (e.Alloc? ==> e.f in p.disk)
  {
    StepKeepsInv(p, e);
    match e
    case Write(k, b) => m[k := b]
    case Dispose(k) =>
      if DisposeStatus(p, k) == OK && PageExists(Step(p, e).disk, k) then m[k := View(Step(p, e), k)] else m
    case Alloc(f) =>
      var k := AllocKey(p, f);
      if PageExists(Step(p, e).disk, k) then m[k := View(Step(p, e), k)] else m
    case _ => m
  }

  ghost predicate Agrees(p: Pool, m: map<Key, Image>)
    requires Inv(p)
  {
    && (forall k :: k in m <==> PageExists(p.disk, k))
    && (forall k :: k in m ==> m[k] == View(p, k))
  }

  lemma StepRefines(p: Pool, touched: set<Key>, free: FreePages, m: map<Key, Image>, e: Event)
    requires Inv(p) && Coherent(p, touched) && ListsOK(p, free) && Agrees(p, m) && Obeys(p, touched, free, e)
    ensures Inv(Step(p, e)) && Coherent(Step(p, e), StepTouched(p, touched, e))
    ensures Agrees(Step(p, e), StepMap(p, m, e))
  {
    hide Inv, Coherent, ListsOK, AfterRead, AfterUnPin, AfterDispose, AfterAlloc, AfterFlush, View, FlushStatus;
    hide CanAllocate;
    StepKeepsInv(p, e);
    StepKeepsLists(p, free, e);
    match e
    case Read(k) =>
      ReadViews(p, k, touched);
      AgreesWithSame(p, Step(p, e), m);
    case Write(k, b) =>
      WrittenViews(p, k, b, touched);
      forall n | n in m && n != k
        ensures View(Step(p, e), n) == m[n]
      {
        assert SameView(p, Step(p, e), n);
      }
    case UnPin(k, dirty, loveIt) =>
      UnPinViews(p, k, dirty, loveIt, touched);
      AgreesWithSame(p, Step(p, e), m);
      if UnPinStatus(p, k) != OK {
        UnPinRefused(p, k, dirty, loveIt);
      }
    case Flush(f) =>
      FlushViews(p, f, 0, touched);
      AgreesWithSame(p, Step(p, e), m);
    case Dispose(k) =>
      DisposeViews(p, k, touched);
      if DisposeStatus(p, k) == OK {
        ViewOfResident(p, k);
        AgreesOffOne(p, Step(p, e), m, k);
      }
    case Alloc(f) =>
      AllocViews(p, f, touched);
      InvAllocDisk(p, f);
      AllocPages(p, f);
      AgreesOffOne(p, Step(p, e), m, AllocKey(p, f));
  }

  lemma UnPinRefused(p: Pool, k: Key, dirty: bool, loveIt: bool)
    requires Inv(p) && UnPinStatus(p, k) != OK
    ensures AfterUnPin(p, k, dirty, loveIt) == p
  {
  }

  lemma AllocPages(p: Pool, f: FileRef)
    requires Inv(p) && f in p.disk && CanAllocate(p.disk[f])
    ensures forall n :: PageExists(AfterAlloc(p, f).disk, n) <==> PageExists(p.disk, n) || n == AllocKey(p, f)
  {
    hide Inv, Evicted, AllocDisk, Allocated;
    InvAllocDisk(p, f);
    AllocDiskKeeps(p, f);
    var d := AllocDisk(p, f);
    if d.upl != [] {
      InvEvicted(d);
    }
  }

  lemma AgreesWithSame(p: Pool, q: Pool, m: map<Key, Image>)
    requires Inv(p) && Inv(q) && Agrees(p, m) && SameViews(p, q)
    ensures Agrees(q, m)
  {
    forall k | k in m
      ensures View(q, k) == m[k]
    {
      assert SameView(p, q, k);
    }
  }

  lemma AgreesOffOne(p: Pool, q: Pool, m: map<Key, Image>, k: Key)
    requires Inv(p) && Inv(q) && Agrees(p, m) && PageExists(q.disk, k)
    requires forall n :: PageExists(q.disk, n) <==> PageExists(p.disk, n) || n == k
    requires forall n :: PageExists(p.disk, n) && n != k ==> SameView(p, q, n)
    ensures Agrees(q, m[k := View(q, k)])
  {
    forall n | n in m && n != k
      ensures View(q, n) == m[n]
    {
      assert SameView(p, q, n);
    }
  }

  ghost predicate ObeysRun(p: Pool, touched: set<Key>, free: FreePages, es: seq<Event>)
    requires Inv(p)
    decreases |es|
  {
    es == [] || (Obeys(p, touched, free, es[0]) &&
      (StepKeepsInv(p, es[0]);
        ObeysRun(Step(p, es[0]), StepTouched(p, touched, es[0]), StepFree(p, free, es[0]), es[1..])))
  }

  ghost function RunMap(p: Pool, m: map<Key, Image>, es: seq<Event>): map<Key, Image>
    requires Inv(p)
    decreases |es|
  {
    if es == [] || (es[0].Alloc? && es[0].f !in p.disk) then m else
      StepKeepsInv(p, es[0]);
      RunMap(Step(p, es[0]), StepMap(p, m, es[0]), es[1..])
  }

  ghost function RunTouched(p: Pool, touched: set<Key>, es: seq<Event>): set<Key>
    requires Inv(p)
    decreases |es|
  {
    if es == [] then touched else
      StepKeepsInv(p, es[0]);
      RunTouched(Step(p, es[0]), StepTouched(p, touched, es[0]), es[1..])
  }

  /** Cache refinement: over every run of obedient clients, with whatever evictions it takes,
      pool and disk together stay the plain map of the bytes last written. */
  lemma {:induction false} CacheRefinement(p: Pool, touched: set<Key>, free: FreePages, m: map<Key, Image>,
      es: seq<Event>)
    requires Inv(p) && Coherent(p, touched) && ListsOK(p, free) && Agrees(p, m) && ObeysRun(p, touched, free, es)
    ensures Inv(Run(p, es)) && Coherent(Run(p, es), RunTouched(p, touched, es))
    ensures ListsOK(Run(p, es), RunFree(p, free, es))
    ensures Agrees(Run(p, es), RunMap(p, m, es))
    decreases |es|
  {
    hide Inv, Coherent, ListsOK, Agrees, Step, StepMap, StepTouched, StepFree, Obeys;
    if es != [] {
      StepRefines(p, touched, free, m, es[0]);
      ObeysSpares(p, touched, free, es[0]);
      StepKeepsLists(p, free, es[0]);
      CacheRefinement(Step(p, es[0]), StepTouched(p, touched, es[0]), StepFree(p, free, es[0]),
        StepMap(p, m, es[0]), es[1..]);
    }
  }

  lemma ObeysSpares(p: Pool, touched: set<Key>, free: FreePages, e: Event)
    requires Inv(p) && Obeys(p, touched, free, e)
    ensures Spares(p, free, e) && (e.Alloc? ==> e.f in p.disk)
  {
  }

  /** After any such run, a page that readPage returns holds the bytes last written to it. */
  lemma ReadReturnsLastWritten(p: Pool, touched: set<Key>, free: FreePages, m: map<Key, Image>, es: seq<Event>, k: Key)
    requires Inv(p) && Coherent(p, touched) && ListsOK(p, free) && Agrees(p, m) && ObeysRun(p, touched, free, es)
    requires Inv(Run(p, es)) && ReadStatus(Run(p, es), k) == OK
    ensures var q := AfterRead(Run(p, es), k);
      k in RunMap(p, m, es) && Pinned(q, k) && 0 <= q.index[k] < |q.mem| && q.mem[q.index[k]] == RunMap(p, m, es)[k]
  {
    hide Run, RunMap, RunTouched, RunFree, ObeysRun, Coherent, ListsOK, AfterRead;
    CacheRefinement(p, touched, free, m, es);
    ReadViews(Run(p, es), k, RunTouched(p, touched, es));
    ViewOfResident(AfterRead(Run(p, es), k), k);
  }

  /** readPage finds no frame exactly when the page is not resident and every frame is pinned. */
  lemma ExceededIff(p: Pool, k: Key)
    requires Inv(p) && k.file != NullFile
    ensures ReadStatus(p, k) == BUFFEREXCEEDED <==>
      k !in p.index && forall i :: 0 <= i < |p.frames| ==> p.frames[i].pinCnt > 0
  {
    if p.upl == [] {
      forall i | 0 <= i < |p.frames|
        ensures p.frames[i].pinCnt > 0
      {
        assert FrameOK(p, i) && i !in p.upl;
      }
    } else {
      var i := p.upl[0];
      assert i in p.upl;
      assert 0 <= i < |p.frames| && p.frames[i].pinCnt == 0;
    }
  }
}
