/** The buffer manager of buf.C, proved against the operations of PoolSpec. */
module BufMgrs {
  import opened Bytes
  import opened StatusCodes
  import opened PageSpec
  import opened FileSpec
  import opened Disks
  import ChainedHash
  import opened PoolSpec
  import opened PoolRefinement
  import opened PoolRing
  import opened Pages

  /** The pool's zeroed frames. */
  method NewPages(n: nat) returns (pool: seq<Page>)
    ensures |pool| == n
    ensures forall i :: 0 <= i < n ==> pool[i].Sized() && fresh(pool[i].mem)
    ensures forall i, j :: 0 <= i < j < n ==> pool[i].mem != pool[j].mem
  {
    pool := [];
    for k := 0 to n
      invariant |pool| == k
      invariant forall i :: 0 <= i < k ==> pool[i].Sized() && fresh(pool[i].mem)
      invariant forall i, j :: 0 <= i < j < k ==> pool[i].mem != pool[j].mem
    {
      var p := new Page();
      pool := pool + [p];
    }
  }

  /** The descriptor table with all frames threaded on the list, frame 0 at the rear. */
  method NewTable(n: nat) returns (t: array<BufDesc>)
    requires 0 < n
    ensures fresh(t) && t.Length == n + 1 && Initial(t[..], n)
  {
    t := new BufDesc[n + 1](i => BufDesc(NullFile, -1, 0, false, false, NULL, NULL));
    // forward links
    for i := 0 to n - 1
      invariant forall j :: 0 <= j <= n ==> t[j].ToFrame() == Cleared
      invariant forall j :: 0 <= j < i ==> t[j].next == j + 1
    {
      t[i] := t[i].(next := i + 1);
    }
    t[n - 1] := t[n - 1].(next := n);
    t[n] := t[n].(next := 0);
    // reverse links
    for i := 1 to n
      invariant forall j :: 0 <= j <= n ==> t[j].ToFrame() == Cleared
      invariant forall j :: 0 <= j < n ==> t[j].next == j + 1
      invariant t[n].next == 0
      invariant forall j :: 1 <= j < i ==> t[j].prior == j - 1
    {
      t[i] := t[i].(prior := i - 1);
    }
    t[0] := t[0].(prior := n);
    t[n] := t[n].(prior := n - 1);
  }

  class BufMgr {
    const numBufs: nat
    const hashTable: ChainedHash.HashTable<Key, int>
    const bufTable: array<BufDesc>   // one descriptor per frame, then the sentinel frontUPL
    const bufPool: seq<Page>
    const disk: Disk
    var rearUPL: int
    ghost var upl: seq<int>          // the unpinned frames, from the rear to the front

    ghost const mems: set<array<byte>>   // the memory of all frames

    ghost function Memory(): (m: seq<Image>)
      requires forall i :: 0 <= i < |bufPool| ==> bufPool[i].mem in mems
      reads mems
      ensures |m| == |bufPool|
    {
      seq(|bufPool|, i requires 0 <= i < |bufPool| reads mems => bufPool[i].mem[..])
    }

    /** The links, the table and the hash chains are sound. */
    ghost predicate Wired()
      reads this, bufTable, hashTable, hashTable.ht, hashTable.Repr
    {
      && 0 < numBufs == |bufPool| && bufTable.Length == numBufs + 1
      && (forall i :: 0 <= i < numBufs ==> bufPool[i].Sized() && bufPool[i].mem in mems)
      && (forall i, j :: 0 <= i < j < numBufs ==> bufPool[i].mem != bufPool[j].mem)
      && hashTable.Valid()
      && Ring(bufTable[..], upl, numBufs) && rearUPL == bufTable[numBufs].next
    }

    /** The pool this object stands for. */
    ghost function Abs(): Pool
      requires Wired()
      reads this, bufTable, hashTable, hashTable.ht, hashTable.Repr, disk, mems
    {
      Pool(FramesOf(bufTable[..]), Memory(), upl, hashTable.M, disk.files)
    }

    ghost predicate Valid()
      reads this, bufTable, hashTable, hashTable.ht, hashTable.Repr, disk, mems
    {
      Wired() && Inv(Abs())
    }

    /** An empty pool over the given disk, with any hash function. */
    constructor (bufs: nat, disk: Disk, hash: Key -> int)
      requires 0 < bufs && DiskOK(disk.files)
      ensures Valid() && numBufs == bufs && this.disk == disk && hashTable.size == bufs * 12 / 10 + 1
      ensures Abs() == EmptyPool(bufs, Memory(), disk.files)
      ensures fresh(bufTable) && fresh(hashTable) && fresh(hashTable.ht) && fresh(hashTable.Repr) && fresh(mems)
    {
      numBufs := bufs;
      this.disk := disk;
      var pool := NewPages(bufs);
      bufPool := pool;
      mems := set p | p in pool :: p.mem;
      var htsize := bufs * 12 / 10 + 1;
      hashTable := new ChainedHash.HashTable(htsize, hash);
      var table := NewTable(bufs);
      bufTable := table;
      rearUPL := 0;
      upl := seq(bufs, i => i);
      new;
      InitialRing(bufTable[..], bufs);
      EmptyInv(bufs, Memory(), disk.files);
    }

    /** Takes frame i, the b-th of the list, off it. */
    method Unlink(i: int, ghost b: nat)
      requires Wired() && b < |upl| && i == upl[b]
      modifies this, bufTable
      ensures Wired() && upl == Without(old(upl), i)
      ensures FramesOf(bufTable[..]) == old(FramesOf(bufTable[..]))
    {
      hide ChainedHash.HashTable.Valid, Ring, FramesOf, Distinct, Without;
      ghost var t := bufTable[..];
      RingUnlinked(t, upl, numBufs, b);
      var next, prior := bufTable[i].next, bufTable[i].prior;
      if rearUPL == i {
        rearUPL := next;
      }
      bufTable[prior] := bufTable[prior].(next := next);
      bufTable[next] := bufTable[next].(prior := prior);
      upl := Without(upl, i);
      assert bufTable[..] == Unlinked(t, i);
      RearOf(t, old(upl), numBufs, b);
    }

    /** Puts frame i at the rear of the list. */
    method LinkRear(i: int)
      requires Wired() && 0 <= i < numBufs && i !in upl
      modifies this, bufTable
      ensures Wired() && upl == [i] + old(upl)
      ensures FramesOf(bufTable[..]) == old(FramesOf(bufTable[..]))
    {
      hide ChainedHash.HashTable.Valid, Ring, FramesOf;
      ghost var t := bufTable[..];
      RingRear(t, upl, numBufs, i);
      Ends(t, upl, numBufs);
      var rear := rearUPL;
      bufTable[i] := bufTable[i].(next := rear, prior := bufTable[rear].prior);
      bufTable[bufTable[rear].prior] := bufTable[bufTable[rear].prior].(next := i);
      bufTable[rear] := bufTable[rear].(prior := i);
      rearUPL := i;
      upl := [i] + upl;
      assert bufTable[..] == Linked(t, numBufs, i, t[numBufs].next);
    }

    /** Puts frame i at the front of the list. */
    method LinkFront(i: int)
      requires Wired() && 0 <= i < numBufs && i !in upl
      modifies this, bufTable
      ensures Wired() && upl == old(upl) + [i]
      ensures FramesOf(bufTable[..]) == old(FramesOf(bufTable[..]))
    {
      hide ChainedHash.HashTable.Valid, Ring, FramesOf;
      ghost var t := bufTable[..];
      RingFront(t, upl, numBufs, i);
      Ends(t, upl, numBufs);
      var front := numBufs;
      bufTable[i] := bufTable[i].(next := front, prior := bufTable[front].prior);
      bufTable[bufTable[front].prior] := bufTable[bufTable[front].prior].(next := i);
      bufTable[front] := bufTable[front].(prior := i);
      if front == rearUPL {
        rearUPL := i;
      }
      upl := upl + [i];
      assert bufTable[..] == Linked(t, t[numBufs].prior, i, numBufs);
      Ends(bufTable[..], upl, numBufs);
    }

    /** Rewrites the descriptor of frame i, its links too if it is off the list. */
    method Update(i: int, d: BufDesc)
      requires Wired() && 0 <= i < numBufs
      requires i !in upl || (d.next == bufTable[i].next && d.prior == bufTable[i].prior)
      modifies bufTable
      ensures Wired() && bufTable[i] == d
      ensures FramesOf(bufTable[..]) == old(FramesOf(bufTable[..]))[i := d.ToFrame()]
    {
      hide ChainedHash.HashTable.Valid, Ring, FramesOf;
      ghost var t := bufTable[..];
      Ends(t, upl, numBufs);
      FramesUpdate(t, i, d);
      RingKept(t, t[i := d], upl, numBufs);
      bufTable[i] := d;
      assert bufTable[..] == t[i := d];
    }

    /** What the descriptor of the rearmost frame says. */
    lemma Rear()
      requires Valid()
      ensures 0 <= rearUPL <= numBufs && (rearUPL == numBufs <==> upl == [])
      ensures rearUPL < numBufs ==>
        upl[0] == rearUPL && rearUPL in upl
          && bufTable[rearUPL].ToFrame() == Abs().frames[rearUPL] && FrameOK(Abs(), rearUPL)
      ensures upl != [] ==> Without(upl, upl[0]) == upl[1..] && rearUPL !in Without(upl, upl[0])
    {
      Ends(bufTable[..], upl, numBufs);
      if upl != [] {
        assert upl[0] in upl;
        WithoutElements(upl, upl[0]);
        FramesUpdate(bufTable[..], rearUPL, bufTable[rearUPL]);
      }
    }

    /** The part of allocBuf that empties the victim's frame, now off the list. */
    method EmptyFrame(v: int)
      requires Wired() && 0 <= v < numBufs && v !in upl
      requires bufTable[v].valid ==> bufTable[v].file in disk.files && 1 <= bufTable[v].pageNo
      modifies bufTable, hashTable, hashTable.ht, hashTable.Repr, disk
      ensures Wired() && fresh(hashTable.Repr - old(hashTable.Repr))
      ensures FramesOf(bufTable[..]) == old(FramesOf(bufTable[..]))[v := Cleared]
      ensures old(!bufTable[v].valid) ==> hashTable.M == old(hashTable.M) && disk.files == old(disk.files)
      ensures old(bufTable[v].valid) ==>
        var k := old(Key(bufTable[v].file, bufTable[v].pageNo));
        && hashTable.M == old(hashTable.M) - {k}
        && disk.files ==
             if old(bufTable[v].dirty) then WriteBack(old(disk.files), k, old(bufPool[v].mem[..])) else old(disk.files)
    {
      hide ChainedHash.HashTable.Valid, Ring, FramesOf, Distinct;
      if bufTable[v].valid {
        var status;
        if bufTable[v].dirty {
          status := disk.WritePage(bufTable[v].file, bufTable[v].pageNo, bufPool[v].mem[..]);
        }
        status := hashTable.Remove(Key(bufTable[v].file, bufTable[v].pageNo));
      }
      Update(v, bufTable[v].Clear());
    }

    /** allocBuf. */
    method AllocBuf() returns (status: Status, frame: int)
      requires Valid()
      modifies this, bufTable, hashTable, hashTable.ht, hashTable.Repr, disk
      ensures Wired() && fresh(hashTable.Repr - old(hashTable.Repr))
      ensures status == if old(upl) == [] then BUFFEREXCEEDED else OK
      ensures status != OK ==> Abs() == old(Abs())
      ensures status == OK ==> frame == old(upl)[0] && Abs() == Evicted(old(Abs()))
    {
      hide ChainedHash.HashTable.Valid, Ring, FramesOf, Without, ListOK, IndexedOK, Distinct, WriteBack;
      Rear();
      frame := -1;
      if rearUPL == numBufs {
        return BUFFEREXCEEDED, frame;
      }
      var victim := rearUPL;
      ghost var d := bufTable[victim];
      Unlink(victim, 0);
      frame := victim;
      FramesUpdate(bufTable[..], victim, bufTable[victim]);
      assert bufTable[victim].ToFrame() == d.ToFrame();
      EmptyFrame(victim);
      return OK, frame;
    }

    /** releaseBuf. */
    method ReleaseBuf(frame: int)
      requires Wired() && 0 <= frame < numBufs && frame !in upl
      modifies this, bufTable
      ensures Wired() && Abs() == Released(old(Abs()), frame)
    {
      hide ChainedHash.HashTable.Valid, Ring, FramesOf, Distinct;
      LinkRear(frame);
    }

    /** A page image copied into frame i. */
    method Fill(i: int, b: Image)
      requires Wired() && 0 <= i < numBufs && |b| == PAGESIZE
      modifies bufPool[i].mem
      ensures Wired() && Memory() == old(Memory())[i := b]
      ensures Abs() == old(Abs()).(mem := old(Memory())[i := b])
    {
      hide ChainedHash.HashTable.Valid, Ring, FramesOf, Distinct;
      bufPool[i].Load(b);
      assert forall j :: 0 <= j < numBufs && j != i ==> Memory()[j] == old(Memory()[j]);
    }

    /** Enters page (file, pageNo) for frame i in the hash table and sets its descriptor;
        if the page is entered already, the frame goes back to the list. */
    method Install(i: int, file: FileRef, pageNo: int) returns (status: Status)
      requires Wired() && 0 <= i < numBufs && i !in upl
      modifies this, bufTable, hashTable, hashTable.ht, hashTable.Repr
      ensures Wired() && fresh(hashTable.Repr - old(hashTable.Repr))
      ensures status == if Key(file, pageNo) in old(hashTable.M) then HASHTBLERROR else OK
      ensures status != OK ==> Abs() == Released(old(Abs()), i)
      ensures status == OK ==> Abs() == Loaded(old(Abs()), i, Key(file, pageNo), old(Memory()[i]))
    {
      hide ChainedHash.HashTable.Valid, Ring, FramesOf, Distinct;
      ghost var m := Memory();
      status := hashTable.Insert(Key(file, pageNo), i);
      if status != OK {
        ReleaseBuf(i);
        return;
      }
      Update(i, bufTable[i].Set(file, pageNo));
      assert m[i := m[i]] == m;
    }

    /** Reads a page that is not resident into the free frame i; a page that cannot be read
        sends the frame back to the list. */
    method ReadInto(i: int, file: FileRef, pageNo: int) returns (status: Status)
      requires Wired() && 0 <= i < numBufs && i !in upl && Key(file, pageNo) !in hashTable.M
      requires PageExists(disk.files, Key(file, pageNo)) ==> |disk.files[file][pageNo]| == PAGESIZE
      modifies this, bufTable, hashTable, hashTable.ht, hashTable.Repr, bufPool[i].mem
      ensures Wired() && fresh(hashTable.Repr - old(hashTable.Repr))
      ensures var k := Key(file, pageNo);
        if PageExists(disk.files, k)
        then status == OK && Abs() == Loaded(old(Abs()), i, k, disk.files[file][pageNo])
        else status == (if pageNo < 1 then BADPAGENO else UNIXERR) && Abs() == Released(old(Abs()), i)
    {
      hide ChainedHash.HashTable.Valid, Ring, FramesOf, Distinct, ListOK;
      var page;
      status, page := disk.ReadPage(file, pageNo);
      if status != OK {
        ReleaseBuf(i);
        return;
      }
      Fill(i, page);
      status := Install(i, file, pageNo);
    }

    /** The part of readPage for a page that is not resident. */
    method ReadMiss(file: FileRef, pageNo: int) returns (status: Status, index: int)
      requires Valid() && file != NullFile && Key(file, pageNo) !in hashTable.M
      modifies this, bufTable, hashTable, hashTable.ht, hashTable.Repr, disk, mems
      ensures Wired() && fresh(hashTable.Repr - old(hashTable.Repr))
      ensures status == ReadStatus(old(Abs()), Key(file, pageNo))
      ensures Abs() == AfterRead(old(Abs()), Key(file, pageNo))
      ensures status == OK ==> Key(file, pageNo) in hashTable.M && index == hashTable.M[Key(file, pageNo)]
    {
      hide ChainedHash.HashTable.Valid, Ring, FramesOf, Evicted, Inv, Distinct, FrameOK, IndexedOK;
      ghost var p := Abs();
      status, index := AllocBuf();
      if status != OK {
        return;
      }
      InvEvicted(p);
      EvictedForgets(p, Key(file, pageNo));
      if PageExists(p.disk, Key(file, pageNo)) {
        InvEvictedPage(p, Key(file, pageNo));
      }
      status := ReadInto(index, file, pageNo);
    }

    /** What the hash table says of a resident page. */
    lemma Resident(k: Key)
      requires Valid() && k in hashTable.M
      ensures var i := hashTable.M[k]; var p := Abs();
        && 0 <= i < numBufs && p.index[k] == i && p.frames[i] == bufTable[i].ToFrame()
        && bufTable[i].valid && bufTable[i].file == k.file && bufTable[i].pageNo == k.pageNo
        && PageExists(p.disk, k) && 0 <= bufTable[i].pinCnt && (i in upl <==> bufTable[i].pinCnt == 0)
        && |p.frames| == numBufs
    {
      var i := hashTable.M[k];
      assert IndexedOK(Abs(), k) && FrameOK(Abs(), i);
      FramesUpdate(bufTable[..], i, bufTable[i]);
    }

    /** One more pin on frame i, taking it off the list if it had none. */
    method AddPin(i: int)
      requires Wired() && 0 <= i < numBufs && (i in upl <==> bufTable[i].pinCnt == 0)
      modifies this, bufTable
      ensures Wired() && upl == if old(bufTable[i].pinCnt) == 0 then Without(old(upl), i) else old(upl)
      ensures FramesOf(bufTable[..]) ==
        old(var s := FramesOf(bufTable[..]); s[i := s[i].(pinCnt := s[i].pinCnt + 1)])
    {
      hide ChainedHash.HashTable.Valid, Ring, FramesOf, Without, Distinct;
      RingDistinct(bufTable[..], upl, numBufs);
      FramesUpdate(bufTable[..], i, bufTable[i]);
      if bufTable[i].pinCnt == 0 {
        ghost var b :| 0 <= b < |upl| && upl[b] == i;
        WithoutElements(upl, i);
        Unlink(i, b);
        FramesUpdate(bufTable[..], i, bufTable[i]);
        Update(i, bufTable[i].(next := NULL, prior := NULL, pinCnt := bufTable[i].pinCnt + 1));
      } else {
        Update(i, bufTable[i].(pinCnt := bufTable[i].pinCnt + 1));
      }
    }

    /** One pin less on frame i, putting it on the list if that was the last. */
    method DropPin(i: int, dirty: bool, loveIt: bool)
      requires Wired() && 0 <= i < numBufs && bufTable[i].pinCnt > 0 && i !in upl
      modifies this, bufTable
      ensures Wired()
      ensures upl == if old(bufTable[i].pinCnt) > 1 then old(upl) else if loveIt then old(upl) + [i] else [i] + old(upl)
      ensures FramesOf(bufTable[..]) ==
        old(var s := FramesOf(bufTable[..]); s[i := s[i].(pinCnt := s[i].pinCnt - 1, dirty := s[i].dirty || dirty)])
    {
      hide ChainedHash.HashTable.Valid, Ring, FramesOf, Distinct;
      FramesUpdate(bufTable[..], i, bufTable[i]);
      if dirty {
        Update(i, bufTable[i].(dirty := true));
      }
      Update(i, bufTable[i].(pinCnt := bufTable[i].pinCnt - 1));
      if bufTable[i].pinCnt == 0 {
        if loveIt {
          LinkFront(i);
        } else {
          LinkRear(i);
        }
      }
    }

    /** The part of readPage for a resident page: one more pin. */
    method ReadHit(ghost k: Key, index: int)
      requires Valid() && k in hashTable.M && index == hashTable.M[k]
      modifies this, bufTable
      ensures Wired() && Abs() == PinnedAgain(old(Abs()), k)
    {
      hide ChainedHash.HashTable.Valid, Ring, FramesOf, Without, Inv;
      Resident(k);
      AddPin(index);
    }

    /** readPage: on success the page is in frame `index`, pinned once more. */
    method ReadPage(file: FileRef, pageNo: int) returns (status: Status, index: int)
      requires Valid()
      modifies this, bufTable, hashTable, hashTable.ht, hashTable.Repr, disk, mems
      ensures Valid() && fresh(hashTable.Repr - old(hashTable.Repr))
      ensures status == ReadStatus(old(Abs()), Key(file, pageNo))
      ensures Abs() == AfterRead(old(Abs()), Key(file, pageNo))
      ensures status == OK ==> Key(file, pageNo) in Abs().index && index == Abs().index[Key(file, pageNo)]
    {
      hide ChainedHash.HashTable.Valid, Ring, FramesOf, Inv, Evicted, PinnedAgain;
      InvRead(Abs(), Key(file, pageNo));
      index := -1;
      if file == NullFile {
        return BADFILE, index;
      }
      status, index := hashTable.Lookup(Key(file, pageNo));
      if status == HASHNOTFOUND {
        status, index := ReadMiss(file, pageNo);
      } else {
        ReadHit(Key(file, pageNo), index);
        status := OK;
      }
    }

    /** unPinPage. */
    method UnPinPage(file: FileRef, pageNo: int, dirty: bool, loveIt: bool) returns (status: Status)
      requires Valid()
      modifies this, bufTable
      ensures Valid()
      ensures status == UnPinStatus(old(Abs()), Key(file, pageNo))
      ensures Abs() == AfterUnPin(old(Abs()), Key(file, pageNo), dirty, loveIt)
    {
      hide ChainedHash.HashTable.Valid, Ring, FramesOf, Inv;
      ghost var k := Key(file, pageNo);
      InvUnPin(Abs(), k, dirty, loveIt);
      var index;
      status, index := hashTable.Lookup(Key(file, pageNo));
      assert Abs() == old(Abs());
      if status == HASHNOTFOUND {
        return;
      }
      Resident(k);
      if bufTable[index].pinCnt == 0 {
        return PAGENOTPINNED;
      }
      DropPin(index, dirty, loveIt);
      assert Abs() == AfterUnPin(old(Abs()), k, dirty, loveIt);
      return OK;
    }

    /** Writes frame i back if it is dirty and empties it, where it stands on the list. */
    method FlushFrame(i: int)
      requires Valid() && 0 <= i < numBufs && bufTable[i].valid && bufTable[i].pinCnt == 0
      modifies bufTable, hashTable, hashTable.ht, hashTable.Repr, disk
      ensures Valid() && fresh(hashTable.Repr - old(hashTable.Repr))
      ensures bufTable[i].ToFrame() == Cleared
      ensures var p := old(Abs());
        |p.frames| == numBufs && p.frames[i].valid && p.frames[i].pinCnt == 0 && Abs() == Flushed(p, i)
    {
      hide ChainedHash.HashTable.Valid, Ring, FramesOf, Inv;
      ghost var p := Abs();
      Described(i);
      InvFlushed(p, i);
      var status;
      if bufTable[i].dirty {
        status := disk.WritePage(bufTable[i].file, bufTable[i].pageNo, bufPool[i].mem[..]);
        Update(i, bufTable[i].(dirty := false));
      }
      status := hashTable.Remove(Key(bufTable[i].file, bufTable[i].pageNo));
      Update(i, bufTable[i].(file := NullFile, pageNo := -1, valid := false));
      assert Abs() == Flushed(p, i);
    }

    /** A descriptor and the frame it stands for. */
    lemma Described(i: int)
      requires Valid() && 0 <= i < numBufs
      ensures |Abs().frames| == numBufs && Abs().frames[i] == bufTable[i].ToFrame() && FrameOK(Abs(), i)
    {
      FramesUpdate(bufTable[..], i, bufTable[i]);
      assert FrameOK(Abs(), i);
    }

    /** flushFile. */
    method FlushFile(file: FileRef) returns (status: Status)
      requires Valid()
      modifies bufTable, hashTable, hashTable.ht, hashTable.Repr, disk
      ensures Valid() && fresh(hashTable.Repr - old(hashTable.Repr))
      ensures status == FlushStatus(old(Abs()), file, 0)
      ensures Abs() == AfterFlush(old(Abs()), file, 0)
    {
      hide ChainedHash.HashTable.Valid, Ring, FramesOf, Inv, Flushed, FrameOK;
      ghost var p := Abs();
      ghost var n := numBufs;
      for i := 0 to numBufs
        invariant Valid() && fresh(hashTable.Repr - old(hashTable.Repr))
        invariant |p.frames| == |Abs().frames| == numBufs
        invariant FlushStatus(Abs(), file, i) == FlushStatus(p, file, 0)
        invariant AfterFlush(Abs(), file, i) == AfterFlush(p, file, 0)
      {
        Described(i);
        if bufTable[i].valid && bufTable[i].file == file {
          if bufTable[i].pinCnt > 0 {
            return PAGEPINNED;
          }
          FrameFields(Abs(), i);
          ghost var q := Abs();
          FlushFrame(i);
          FlushStatusFrame(q, Abs(), file, i + 1);
        } else if !bufTable[i].valid && bufTable[i].file == file {
          return BADBUFFER;
        }
      }
      return OK;
    }

    /** disposePage. */
    method DisposePage(file: FileRef, pageNo: int) returns (status: Status)
      requires Valid()
      modifies bufTable, hashTable, hashTable.ht, hashTable.Repr, disk
      ensures Valid() && fresh(hashTable.Repr - old(hashTable.Repr))
      ensures status == DisposeStatus(old(Abs()), Key(file, pageNo))
      ensures Abs() == AfterDispose(old(Abs()), Key(file, pageNo))
    {
      hide ChainedHash.HashTable.Valid, Ring, FramesOf, Inv, Disposed;
      ghost var k := Key(file, pageNo);
      InvDispose(Abs(), k);
      var index;
      status, index := hashTable.Lookup(Key(file, pageNo));
      assert Abs() == old(Abs());
      if status == HASHNOTFOUND {
        return;
      }
      Resident(k);
      if bufTable[index].pinCnt > 0 {
        return PAGEPINNED;
      }
      FileOfResident(Abs(), k);
      status := hashTable.Remove(Key(file, pageNo));
      Update(index, bufTable[index].(file := NullFile, pageNo := -1, dirty := false, valid := false));
      status := disk.DisposePage(file, pageNo);
      assert Abs() == AfterDispose(old(Abs()), k);
    }

    /** The part of allocPage after the page has been taken from the file: a frame for it. */
    method TakeFrame(file: FileRef, pageNo: int) returns (status: Status, index: int)
      requires Valid() && file in disk.files
      modifies this, bufTable, hashTable, hashTable.ht, hashTable.Repr, disk
      ensures Wired() && fresh(hashTable.Repr - old(hashTable.Repr))
      ensures old(upl) == [] ==> status == BUFFEREXCEEDED && Abs() == old(Abs())
      ensures old(upl) != [] ==>
        var q := old(Abs()); var i := q.upl[0]; var k := Key(file, pageNo);
        && 0 <= i < |Evicted(q).frames| == |Evicted(q).mem|
        && (if k in Evicted(q).index then status == HASHTBLERROR && Abs() == Released(Evicted(q), i)
            else status == OK && index == i && Abs() == Loaded(Evicted(q), i, k, q.mem[i]))
    {
      hide ChainedHash.HashTable.Valid, Ring, FramesOf, Inv, Evicted;
      ghost var q := Abs();
      status, index := AllocBuf();
      if status != OK {
        return;
      }
      InvEvicted(q);
      EvictedSize(q, file);
      status := Install(index, file, pageNo);
    }

    /** allocPage: on success the page is in frame `index`, pinned, its bytes stale. */
    method AllocPage(file: FileRef) returns (status: Status, pageNo: int, index: int)
      requires Valid() && file in disk.files && CanAllocate(disk.files[file])
      modifies this, bufTable, hashTable, hashTable.ht, hashTable.Repr, disk
      ensures Valid() && fresh(hashTable.Repr - old(hashTable.Repr))
      ensures status == AllocStatus(old(Abs()), file)
      ensures Abs() == AfterAlloc(old(Abs()), file)
      ensures pageNo == AllocatedPage(old(disk.files)[file])
      ensures status == OK ==> Key(file, pageNo) in Abs().index && index == Abs().index[Key(file, pageNo)]
    {
      hide ChainedHash.HashTable.Valid, Ring, FramesOf, Inv, Allocated, CanAllocate, Evicted;
      ghost var p := Abs();
      InvAlloc(p, file);
      InvAllocDisk(p, file);
      FileFacts(p, file);
      status, pageNo := disk.AllocatePage(file);
      ghost var q := Abs();
      assert q == AllocDisk(p, file);
      AllocLoads(p, file);
      status, index := TakeFrame(file, pageNo);
    }

    /** The frame of a resident page. */
    lemma FrameOfPage(k: Key)
      requires Valid() && k in Abs().index
      ensures var i := Abs().index[k];
        && 0 <= i < |bufPool| == |Abs().mem| && bufPool[i].Sized() && bufPool[i].mem in mems
        && Abs().mem[i] == bufPool[i].mem[..]
    {
      hide ChainedHash.HashTable.Valid, Ring, FramesOf;
      assert IndexedOK(Abs(), k);
    }

    lemma FramesApart(i: int, j: int)
      requires Wired() && 0 <= i < |bufPool| && 0 <= j < |bufPool| && i != j
      ensures bufPool[i].mem != bufPool[j].mem
    {
      hide ChainedHash.HashTable.Valid, Ring;
      assert i < j || j < i;
    }

    /** A client that changes the bytes of frame i, and nothing else, changes the pool so. */
    twostate lemma FrameChanged(i: int)
      requires old(Valid()) && 0 <= i < |bufPool|
      requires unchanged(this) && unchanged(bufTable) && unchanged(hashTable) && unchanged(hashTable.ht)
      requires unchanged(hashTable.Repr) && unchanged(disk)
      requires forall j :: 0 <= j < |bufPool| && bufPool[j].mem != bufPool[i].mem ==> unchanged(bufPool[j].mem)
      ensures Wired() && Abs() == Written(old(Abs()), i, bufPool[i].mem[..])
    {
      hide ChainedHash.HashTable.Valid, Ring, FramesOf, Inv;
      forall j | 0 <= j < |bufPool| && j != i
        ensures Memory()[j] == old(Memory())[j]
      {
        assert bufPool[j].mem != bufPool[i].mem;
      }
      assert Memory() == old(Memory())[i := bufPool[i].mem[..]];
      assert bufTable[..] == old(bufTable[..]);
    }
  }
}
