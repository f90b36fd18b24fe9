/** The buffer pool of buf.C as a value, and what each of its operations does to it.
    `upl` is the list of unpinned frames from the rear, where victims are taken, to the
    front; `index` is what the hash table stands for. */
module PoolSpec {
  import opened Bytes
  import opened StatusCodes
  import opened PageSpec
  import opened FileSpec
  import opened Disks

  datatype Key = Key(file: FileRef, pageNo: int)

  datatype Frame = Frame(file: FileRef, pageNo: int, pinCnt: int, dirty: bool, valid: bool)

  const Cleared := Frame(NullFile, -1, 0, false, false)

  datatype Pool = Pool(frames: seq<Frame>, mem: seq<Image>, upl: seq<int>, index: map<Key, int>,
    disk: map<FileRef, Pages>)

  function KeyOf(fr: Frame): Key { Key(fr.file, fr.pageNo) }

  /** The list without its element x. */
  function Without(s: seq<int>, x: int): seq<int> {
    if s == [] then [] else if s[0] == x then s[1..] else [s[0]] + Without(s[1..], x)
  }

  ghost predicate ListOK(p: Pool) {
    && (forall i :: i in p.upl ==> 0 <= i < |p.frames|)
    && Distinct(p.upl)
    && (forall i :: 0 <= i < |p.frames| ==> (i in p.upl <==> p.frames[i].pinCnt == 0))
  }

  ghost predicate PageExists(disk: map<FileRef, Pages>, k: Key) {
    k.file in disk && 1 <= k.pageNo < |disk[k.file]|
  }

  ghost predicate FrameOK(p: Pool, i: nat)
    requires i < |p.frames|
  {
    var fr := p.frames[i];
    && 0 <= fr.pinCnt
    && (!fr.valid ==> fr == Cleared)
    && (fr.valid ==> PageExists(p.disk, KeyOf(fr)) && KeyOf(fr) in p.index && p.index[KeyOf(fr)] == i)
  }

  ghost predicate DiskOK(disk: map<FileRef, Pages>) {
    NullFile !in disk && forall f :: f in disk ==> FileOK(disk[f])
  }

  ghost predicate IndexedOK(p: Pool, k: Key)
    requires k in p.index
  {
    var i := p.index[k];
    0 <= i < |p.frames| && p.frames[i].valid && KeyOf(p.frames[i]) == k
  }

  /** The three structures agree: the list holds exactly the unpinned frames, each once,
      and the hash table maps a page to a frame exactly when that frame holds the page. */
  ghost predicate Inv(p: Pool) {
    && |p.mem| == |p.frames| && (forall i :: 0 <= i < |p.mem| ==> |p.mem[i]| == PAGESIZE)
    && DiskOK(p.disk)
    && ListOK(p)
    && (forall i :: 0 <= i < |p.frames| ==> FrameOK(p, i))
    && (forall k :: k in p.index ==> IndexedOK(p, k))
  }

  // ----- The operations -----

  function WriteBack(disk: map<FileRef, Pages>, k: Key, b: Image): map<FileRef, Pages>
    requires k.file in disk && 1 <= k.pageNo
  {
    disk[k.file := WriteAt(disk[k.file], k.pageNo, b)]
  }

  /** allocBuf: the frame at the rear of the list, written back and forgotten. */
  ghost function Evicted(p: Pool): Pool
    requires Inv(p) && p.upl != []
  {
    var v := p.upl[0];
    assert v in p.upl && FrameOK(p, v);
    var fr := p.frames[v];
    Pool(p.frames[v := Cleared], p.mem, p.upl[1..],
         if fr.valid then p.index - {KeyOf(fr)} else p.index,
         if fr.valid && fr.dirty then WriteBack(p.disk, KeyOf(fr), p.mem[v]) else p.disk)
  }

  /** releaseBuf. */
  function Released(p: Pool, i: int): Pool {
    p.(upl := [i] + p.upl)
  }

  /** Frame i now holds page k, pinned once. */
  function Loaded(p: Pool, i: int, k: Key, b: Image): Pool
    requires 0 <= i < |p.frames| && |p.mem| == |p.frames|
  {
    p.(frames := p.frames[i := Frame(k.file, k.pageNo, 1, false, true)], mem := p.mem[i := b], index := p.index[k := i])
  }

  /** One more pin on a resident page. */
  ghost function PinnedAgain(p: Pool, k: Key): Pool
    requires Inv(p) && k in p.index
  {
    var i := p.index[k];
    var fr := p.frames[i];
    p.(frames := p.frames[i := fr.(pinCnt := fr.pinCnt + 1)],
       upl := if fr.pinCnt == 0 then Without(p.upl, i) else p.upl)
  }

  ghost function ReadStatus(p: Pool, k: Key): Status {
    if k.file == NullFile then BADFILE
    else if k in p.index then OK
    else if p.upl == [] then BUFFEREXCEEDED
    else if k.pageNo < 1 then BADPAGENO
    else if PageExists(p.disk, k) then OK else UNIXERR
  }

  lemma EvictedSize(p: Pool, f: FileRef)
    requires Inv(p) && p.upl != [] && f in p.disk
    ensures 0 <= p.upl[0] < |Evicted(p).frames| == |Evicted(p).mem|
    ensures f in Evicted(p).disk && |Evicted(p).disk[f]| == |p.disk[f]|
  {
    assert p.upl[0] in p.upl && FrameOK(p, p.upl[0]);
  }

  ghost function AfterRead(p: Pool, k: Key): Pool
    requires Inv(p)
  {
    if k.file == NullFile then p
    else if k in p.index then PinnedAgain(p, k)
    else if p.upl == [] then p
    else if PageExists(p.disk, k) then
      EvictedSize(p, k.file);
      Loaded(Evicted(p), p.upl[0], k, Evicted(p).disk[k.file][k.pageNo])
    else Released(Evicted(p), p.upl[0])
  }

  ghost function UnPinStatus(p: Pool, k: Key): Status
    requires Inv(p)
  {
    if k !in p.index then HASHNOTFOUND
    else if p.frames[p.index[k]].pinCnt == 0 then PAGENOTPINNED else OK
  }

  ghost function AfterUnPin(p: Pool, k: Key, dirty: bool, loveIt: bool): Pool
    requires Inv(p)
  {
    if UnPinStatus(p, k) != OK then p
    else
      var i := p.index[k];
      var fr := p.frames[i];
      p.(frames := p.frames[i := fr.(pinCnt := fr.pinCnt - 1, dirty := fr.dirty || dirty)],
         upl := if fr.pinCnt > 1 then p.upl else if loveIt then p.upl + [i] else [i] + p.upl)
  }

  /** Frame i dropped: its page leaves the pool, the frame keeps its place in the list. */
  ghost function Dropped(p: Pool, i: nat): Pool
    requires Inv(p) && i < |p.frames| && p.frames[i].valid && p.frames[i].pinCnt == 0
  {
    p.(frames := p.frames[i := Cleared], index := p.index - {KeyOf(p.frames[i])})
  }

  /** Frame i written back if dirty, then dropped. */
  ghost function Flushed(p: Pool, i: nat): Pool
    requires Inv(p) && i < |p.frames| && p.frames[i].valid && p.frames[i].pinCnt == 0
  {
    assert FrameOK(p, i);
    var fr := p.frames[i];
    Dropped(p, i).(disk := if fr.dirty then WriteBack(p.disk, KeyOf(fr), p.mem[i]) else p.disk)
  }

  /** A client changes the bytes of frame i. */
  function Written(p: Pool, i: nat, b: Image): Pool
    requires i < |p.mem|
  {
    p.(mem := p.mem[i := b])
  }

  // ----- Each operation keeps the invariant -----

  lemma {:induction false} WithoutElements(s: seq<int>, x: int)
    requires Distinct(s)
    ensures Distinct(Without(s, x))
    ensures forall y :: y in Without(s, x) <==> y in s && y != x
  {
    if s != [] {
      assert s == [s[0]] + s[1..];
      if s[0] == x {
        assert x !in s[1..];
      } else {
        WithoutElements(s[1..], x);
        var t := Without(s[1..], x);
        assert s[0] !in s[1..];
        assert forall j :: 0 <= j < |t| ==> t[j] in t;
      }
    }
  }

  lemma TailElements(s: seq<int>)
    requires Distinct(s) && s != []
    ensures Distinct(s[1..]) && forall y :: y in s[1..] <==> y in s && y != s[0]
  {
    assert s == [s[0]] + s[1..];
    assert s[0] !in s[1..];
  }

  lemma WriteBackDisk(disk: map<FileRef, Pages>, k: Key, b: Image)
    requires DiskOK(disk) && PageExists(disk, k) && |b| == PAGESIZE
    ensures DiskOK(WriteBack(disk, k, b))
    ensures forall q :: PageExists(WriteBack(disk, k, b), q) <==> PageExists(disk, q)
    ensures WriteBack(disk, k, b)[k.file][k.pageNo] == b
    ensures forall q :: PageExists(disk, q) && q != k ==>
      WriteBack(disk, k, b)[q.file][q.pageNo] == disk[q.file][q.pageNo]
    ensures forall f :: f in disk ==> WriteBack(disk, k, b)[f][0] == disk[f][0]
  {
    assert FileOK(disk[k.file]);
  }

  lemma InvEvicted(p: Pool)
    requires Inv(p) && p.upl != []
    ensures var q := Evicted(p); var v := p.upl[0];
      && |q.frames| == |p.frames| == |q.mem| && q.mem == p.mem && 0 <= v < |p.frames|
      && DiskOK(q.disk) && (forall k :: PageExists(q.disk, k) <==> PageExists(p.disk, k))
      && q.frames[v] == Cleared && v !in q.upl && Distinct(q.upl)
      && (forall i :: i in q.upl ==> 0 <= i < |q.frames|)
      && (forall i :: 0 <= i < |q.frames| && i != v ==> (i in q.upl <==> q.frames[i].pinCnt == 0))
      && (forall i :: 0 <= i < |q.frames| ==> FrameOK(q, i))
      && (forall k :: k in q.index ==> IndexedOK(q, k))
  {
    var v := p.upl[0];
    var q := Evicted(p);
    assert v in p.upl;
    TailElements(p.upl);
    var fr := p.frames[v];
    assert FrameOK(p, v);
    if fr.valid && fr.dirty {
      WriteBackDisk(p.disk, KeyOf(fr), p.mem[v]);
    }
    forall i | 0 <= i < |q.frames| && i != v
      ensures FrameOK(q, i)
    {
      assert FrameOK(p, i);
    }
    forall k | k in q.index
      ensures IndexedOK(q, k)
    {
      assert IndexedOK(p, k);
    }
  }

  lemma InvReleased(p: Pool)
    requires Inv(p) && p.upl != []
    ensures Inv(Released(Evicted(p), p.upl[0]))
  {
    hide Evicted;
    InvEvicted(p);
    var v := p.upl[0];
    var q := Released(Evicted(p), v);
    assert forall i :: 0 <= i < |q.frames| ==> FrameOK(Evicted(p), i) == FrameOK(q, i);
    assert forall k :: k in q.index ==> IndexedOK(Evicted(p), k) == IndexedOK(q, k);
  }

  lemma InvLoaded(p: Pool, k: Key, b: Image)
    requires Inv(p) && p.upl != [] && PageExists(Evicted(p).disk, k) && |b| == PAGESIZE
    requires k !in Evicted(p).index
    ensures 0 <= p.upl[0] < |Evicted(p).frames| == |Evicted(p).mem|
    ensures Inv(Loaded(Evicted(p), p.upl[0], k, b))
  {
    hide Evicted;
    InvEvicted(p);
    var e := Evicted(p);
    var v := p.upl[0];
    var q := Loaded(e, v, k, b);
    forall i | 0 <= i < |q.frames|
      ensures FrameOK(q, i)
    {
      assert FrameOK(e, i);
    }
    forall n | n in q.index
      ensures IndexedOK(q, n)
    {
      assert n != k ==> IndexedOK(e, n);
    }
  }

  lemma InvPinnedAgain(p: Pool, k: Key)
    requires Inv(p) && k in p.index
    ensures Inv(PinnedAgain(p, k))
  {
    var i := p.index[k];
    assert IndexedOK(p, k) && FrameOK(p, i);
    var q := PinnedAgain(p, k);
    WithoutElements(p.upl, i);
    forall j | 0 <= j < |q.frames|
      ensures FrameOK(q, j)
    {
      assert FrameOK(p, j);
    }
    forall n | n in q.index
      ensures IndexedOK(q, n)
    {
      assert IndexedOK(p, n);
    }
  }

  lemma InvRead(p: Pool, k: Key)
    requires Inv(p)
    ensures Inv(AfterRead(p, k))
  {
    hide Inv, Evicted, Loaded, Released;
    if k.file == NullFile {
    } else if k in p.index {
      InvPinnedAgain(p, k);
    } else if p.upl != [] {
      EvictedForgets(p, k);
      if PageExists(p.disk, k) {
        InvEvictedPage(p, k);
        InvLoaded(p, k, Evicted(p).disk[k.file][k.pageNo]);
      } else {
        InvReleased(p);
      }
    }
  }

  lemma EvictedForgets(p: Pool, k: Key)
    requires Inv(p) && p.upl != [] && k !in p.index
    ensures k !in Evicted(p).index
  {
  }

  lemma InvEvictedPage(p: Pool, k: Key)
    requires Inv(p) && p.upl != [] && PageExists(p.disk, k)
    ensures PageExists(Evicted(p).disk, k) && |Evicted(p).disk[k.file][k.pageNo]| == PAGESIZE
  {
    hide Evicted;
    InvEvicted(p);
    assert FileOK(Evicted(p).disk[k.file]);
  }

  lemma InvUnPin(p: Pool, k: Key, dirty: bool, loveIt: bool)
    requires Inv(p)
    ensures Inv(AfterUnPin(p, k, dirty, loveIt))
  {
    if UnPinStatus(p, k) == OK {
      var i := p.index[k];
      assert IndexedOK(p, k) && FrameOK(p, i);
      var q := AfterUnPin(p, k, dirty, loveIt);
      forall j | 0 <= j < |q.frames|
        ensures FrameOK(q, j)
      {
        assert FrameOK(p, j);
      }
      forall n | n in q.index
        ensures IndexedOK(q, n)
      {
        assert IndexedOK(p, n);
      }
    }
  }

  lemma InvDropped(p: Pool, i: nat)
    requires Inv(p) && i < |p.frames| && p.frames[i].valid && p.frames[i].pinCnt == 0
    ensures Inv(Dropped(p, i))
  {
    var q := Dropped(p, i);
    assert FrameOK(p, i);
    forall j | 0 <= j < |q.frames|
      ensures FrameOK(q, j)
    {
      assert FrameOK(p, j);
    }
    forall n | n in q.index
      ensures IndexedOK(q, n)
    {
      assert IndexedOK(p, n);
    }
  }

  /** Any disk with the same pages, or more, will do. */
  lemma InvDisk(p: Pool, disk: map<FileRef, Pages>)
    requires Inv(p) && DiskOK(disk)
    requires forall k :: PageExists(p.disk, k) ==> PageExists(disk, k)
    ensures Inv(p.(disk := disk))
  {
    var q := p.(disk := disk);
    forall j | 0 <= j < |q.frames|
      ensures FrameOK(q, j)
    {
      assert FrameOK(p, j);
    }
    forall n | n in q.index
      ensures IndexedOK(q, n)
    {
      assert IndexedOK(p, n);
    }
  }

  lemma InvFlushed(p: Pool, i: nat)
    requires Inv(p) && i < |p.frames| && p.frames[i].valid && p.frames[i].pinCnt == 0
    ensures Inv(Flushed(p, i))
  {
    assert FrameOK(p, i);
    var fr := p.frames[i];
    InvDropped(p, i);
    hide Inv, Dropped;
    if fr.dirty {
      WriteBackDisk(p.disk, KeyOf(fr), p.mem[i]);
      InvDisk(Dropped(p, i), WriteBack(p.disk, KeyOf(fr), p.mem[i]));
    }
  }

  lemma InvWritten(p: Pool, i: nat, b: Image)
    requires Inv(p) && i < |p.frames| && |b| == PAGESIZE
    ensures Inv(Written(p, i, b))
  {
    var q := Written(p, i, b);
    assert forall j :: 0 <= j < |q.frames| ==> FrameOK(p, j) == FrameOK(q, j);
    assert forall n :: n in q.index ==> IndexedOK(p, n) == IndexedOK(q, n);
  }

  // ----- flushFile -----

  /** flushFile from frame i on: it stops at the first frame of the file that is pinned. */
  ghost function FlushStatus(p: Pool, f: FileRef, i: nat): Status
    requires Inv(p) && i <= |p.frames|
    decreases |p.frames| - i
  {
    if i == |p.frames| then OK
    else if p.frames[i].file != f then FlushStatus(p, f, i + 1)
    else if !p.frames[i].valid then BADBUFFER
    else if p.frames[i].pinCnt > 0 then PAGEPINNED
    else FlushStatus(p, f, i + 1)
  }

  ghost function AfterFlush(p: Pool, f: FileRef, i: nat): (q: Pool)
    requires Inv(p) && i <= |p.frames|
    ensures Inv(q) && |q.frames| == |p.frames|
    decreases |p.frames| - i
  {
    if i == |p.frames| then p
    else if p.frames[i].file != f then AfterFlush(p, f, i + 1)
    else if !p.frames[i].valid || p.frames[i].pinCnt > 0 then p
    else
      assert FrameOK(p, i);
      InvFlushed(p, i);
      AfterFlush(Flushed(p, i), f, i + 1)
  }

  // ----- disposePage -----

  ghost function DisposeStatus(p: Pool, k: Key): Status
    requires Inv(p)
  {
    if k !in p.index then HASHNOTFOUND
    else if p.frames[p.index[k]].pinCnt > 0 then PAGEPINNED
    else if assert IndexedOK(p, k) && FrameOK(p, p.index[k]);
      MayDispose(p.disk[k.file], k.pageNo) then OK else BADPAGENO
  }

  ghost function AfterDispose(p: Pool, k: Key): Pool
    requires Inv(p)
  {
    if k !in p.index || p.frames[p.index[k]].pinCnt > 0 then p
    else
      assert IndexedOK(p, k) && FrameOK(p, p.index[k]);
      var q := Dropped(p, p.index[k]);
      if MayDispose(p.disk[k.file], k.pageNo) then
        q.(disk := p.disk[k.file := Disposed(p.disk[k.file], k.pageNo)])
      else q
  }

  // ----- allocPage -----

  /** The file can hand out a page: it is not full and its free chain is readable. */
  ghost predicate CanAllocate(pages: Pages) {
    && FileOK(pages) && |pages| < MAXPAGES
    && (Next(pages[0]) != -1 ==> var n := Next(pages[Next(pages[0])]); n == -1 || 1 <= n < |pages|)
  }

  ghost function AllocDisk(p: Pool, f: FileRef): Pool
    requires Inv(p) && f in p.disk && CanAllocate(p.disk[f])
  {
    p.(disk := p.disk[f := Allocated(p.disk[f])])
  }

  ghost function AllocKey(p: Pool, f: FileRef): Key
    requires Inv(p) && f in p.disk
  {
    Key(f, AllocatedPage(p.disk[f]))
  }

  lemma InvAllocDisk(p: Pool, f: FileRef)
    requires Inv(p) && f in p.disk && CanAllocate(p.disk[f])
    ensures var q := AllocDisk(p, f);
      && Inv(q) && PageExists(q.disk, AllocKey(p, f))
      && (forall k :: PageExists(p.disk, k) ==> PageExists(q.disk, k))
      && (forall k :: PageExists(q.disk, k) && k != AllocKey(p, f) ==>
            (PageExists(p.disk, k) && q.disk[k.file][k.pageNo] == p.disk[k.file][k.pageNo]))
      && (PageExists(p.disk, AllocKey(p, f)) ==>
            q.disk[f][AllocatedPage(p.disk[f])] == p.disk[f][AllocatedPage(p.disk[f])])
  {
    hide Allocated, IntAt;
    var pages := p.disk[f];
    if Next(pages[0]) == -1 {
      AllocateExtends(pages);
    } else {
      AllocateReuses(pages);
    }
    InvDisk(p, AllocDisk(p, f).disk);
  }

  ghost function AllocStatus(p: Pool, f: FileRef): Status
    requires Inv(p) && f in p.disk
  {
    if p.upl == [] then BUFFEREXCEEDED
    else if AllocKey(p, f) in p.index && p.index[AllocKey(p, f)] != p.upl[0] then HASHTBLERROR
    else OK
  }

  /** The page is taken from the file first; a frame is found for it afterwards.  The frame
      keeps the bytes it happened to hold. */
  ghost function AfterAlloc(p: Pool, f: FileRef): Pool
    requires Inv(p) && f in p.disk && CanAllocate(p.disk[f])
  {
    InvAllocDisk(p, f);
    var q := AllocDisk(p, f);
    if q.upl == [] then q
    else if AllocStatus(p, f) == OK then
      EvictedSize(q, f);
      Loaded(Evicted(q), q.upl[0], AllocKey(p, f), q.mem[q.upl[0]])
    else Released(Evicted(q), q.upl[0])
  }

  lemma EvictedIndex(p: Pool, k: Key)
    requires Inv(p) && p.upl != []
    ensures k in Evicted(p).index <==> k in p.index && p.index[k] != p.upl[0]
    ensures k in Evicted(p).index ==> Evicted(p).index[k] == p.index[k]
  {
    var v := p.upl[0];
    assert v in p.upl && FrameOK(p, v);
    if k in p.index {
      assert IndexedOK(p, k);
    }
  }

  /** What becomes of the frame that is found for an allocated page. */
  lemma AllocLoads(p: Pool, f: FileRef)
    requires Inv(p) && f in p.disk && CanAllocate(p.disk[f])
    ensures var q := AllocDisk(p, f); var k := AllocKey(p, f);
      && Inv(q) && q.upl == p.upl && f in q.disk
      && (q.upl != [] ==>
            && 0 <= q.upl[0] < |Evicted(q).frames| == |Evicted(q).mem| && 0 <= q.upl[0] < |q.mem|
            && (k in Evicted(q).index <==> AllocStatus(p, f) == HASHTBLERROR) && AllocStatus(p, f) in {OK, HASHTBLERROR}
            && Loaded(Evicted(q), q.upl[0], k, q.mem[q.upl[0]]).index[k] == q.upl[0])
  {
    hide Inv, Evicted, Allocated, CanAllocate;
    InvAllocDisk(p, f);
    AllocDiskKeeps(p, f);
    var q := AllocDisk(p, f);
    if q.upl != [] {
      EvictedIndex(q, AllocKey(p, f));
      EvictedSize(q, f);
      FrameBytes(q);
    }
  }

  lemma InvAlloc(p: Pool, f: FileRef)
    requires Inv(p) && f in p.disk && CanAllocate(p.disk[f])
    ensures Inv(AfterAlloc(p, f))
  {
    hide Inv, Evicted, Loaded, Released, AllocDisk, PageExists;
    InvAllocDisk(p, f);
    var q := AllocDisk(p, f);
    AllocDiskKeeps(p, f);
    if q.upl != [] {
      EvictedIndex(q, AllocKey(p, f));
      if AllocStatus(p, f) == OK {
        InvEvictedPage(q, AllocKey(p, f));
        FrameBytes(q);
        InvLoaded(q, AllocKey(p, f), q.mem[q.upl[0]]);
      } else {
        InvReleased(q);
      }
    }
  }

  lemma FileFacts(p: Pool, f: FileRef)
    requires Inv(p) && f in p.disk
    ensures FileOK(p.disk[f]) && f != NullFile
    ensures CanAllocate(p.disk[f]) ==> |p.disk[f]| < MAXPAGES
  {
  }

  lemma FileOfResident(p: Pool, k: Key)
    requires Inv(p) && k in p.index
    ensures k.file in p.disk && FileOK(p.disk[k.file]) && 1 <= k.pageNo < |p.disk[k.file]|
  {
    assert IndexedOK(p, k) && FrameOK(p, p.index[k]);
  }

  lemma FrameBytes(p: Pool)
    requires Inv(p) && p.upl != []
    ensures 0 <= p.upl[0] < |p.mem| == |p.frames| && |p.mem[p.upl[0]]| == PAGESIZE && p.mem == Evicted(p).mem
  {
    assert p.upl[0] in p.upl;
  }

  lemma AllocDiskKeeps(p: Pool, f: FileRef)
    requires Inv(p) && f in p.disk && CanAllocate(p.disk[f])
    ensures var q := AllocDisk(p, f); q.upl == p.upl && q.index == p.index && q.mem == p.mem && q.frames == p.frames
  {
  }

  lemma InvDispose(p: Pool, k: Key)
    requires Inv(p)
    ensures Inv(AfterDispose(p, k))
  {
    if k in p.index && p.frames[p.index[k]].pinCnt <= 0 {
      var i := p.index[k];
      assert IndexedOK(p, k) && FrameOK(p, i);
      InvDropped(p, i);
      if MayDispose(p.disk[k.file], k.pageNo) {
        hide Inv, Dropped, Disposed;
        DisposeLinks(p.disk[k.file], k.pageNo);
        InvDisk(Dropped(p, i), p.disk[k.file := Disposed(p.disk[k.file], k.pageNo)]);
      }
    }
  }
}
