/** External merge sort (sort.C): the merge, on one open scan for each run, and the sort as a whole. */
module Sorts {
  import opened Bytes
  import opened StatusCodes
  import opened PageSpec
  import opened FileSpec
  import opened Disks
  import opened PoolSpec
  import opened PoolRefinement
  import opened BufMgrs
  import opened HeapSpec
  import opened HeapLayout
  import opened HeapClient
  import opened HeapSession
  import opened Interference
  import opened HeapFiles
  import opened OpenFiles
  import opened Queries
  import opened Comparing
  import opened Together
  import opened SortSpec
  import opened SortRuns
  import ChainedHash
  import PoolRing

  // ----- The scans of the runs -----

  /** An unfiltered scan through which nothing has been changed. */
  ghost predicate OpenScan(f: HeapFile, bm: BufMgr, t: set<Key>)
    reads f, bm, bm.bufTable, bm.hashTable, bm.hashTable.ht, bm.hashTable.Repr, bm.disk, bm.mems
  {
    f.bm == bm && f.touched == t && Scanning(f) && |f.Contents()| < DIRCNT
  }

  /** Such scans of different files on one pool. */
  ghost predicate Scans(bm: BufMgr, fs: seq<HeapFile>, t: set<Key>)
    reads fs, bm, bm.bufTable, bm.hashTable, bm.hashTable.ht, bm.hashTable.Repr, bm.disk, bm.mems
  {
    && (forall i :: 0 <= i < |fs| ==> OpenScan(fs[i], bm, t))
    && (forall i, j :: 0 <= i < j < |fs| ==> fs[i] != fs[j] && fs[i].filePtr != fs[j].filePtr)
  }

  /** A scan opened on one more run.  It takes two frames, and fails when there are fewer. */
  method OpenNext(bm: BufMgr, f: FileRef, float: seq<byte> -> real, fs: seq<HeapFile>, ghost t: set<Key>)
    returns (status: Status, hfs: HeapFile)
    requires bm.Valid() && Scans(bm, fs, t) && Stored(bm.Abs(), f, t) && |HeapIn(bm.Abs(), f, t)| < DIRCNT
    requires forall i :: 0 <= i < |fs| ==> fs[i].filePtr != f
    modifies bm, bm.bufTable, bm.hashTable, bm.hashTable.ht, bm.hashTable.Repr, bm.disk, bm.mems
    ensures fresh(bm.hashTable.Repr - old(bm.hashTable.Repr)) && bm.Valid() && fresh(hfs)
    ensures hfs.filePtr == f && hfs.bm == bm
    ensures status == if |old(bm.Abs()).upl| >= 2 then OK else BUFFEREXCEEDED
    ensures status != OK ==> bm.Abs().upl == []
    ensures status == OK ==> OpenScan(hfs, bm, t) && hfs.Contents() == old(HeapIn(bm.Abs(), f, t))
    ensures status == OK ==> hfs.Ahead() == AllEntries(hfs.Contents()) && Scans(bm, fs + [hfs], t)
    ensures status == OK ==> forall i :: 0 <= i < |fs| ==>
      fs[i].Contents() == old(fs[i].Contents()) && fs[i].Ahead() == old(fs[i].Ahead())
    ensures status == OK ==> |bm.Abs().upl| == |old(bm.Abs()).upl| - 2
    ensures status == OK ==> LeavesOthers(old(bm.Abs()), t, bm.Abs(), t, f)
  {
    hide ChainedHash.HashTable.Valid, BufMgr.Wired, BufMgr.Abs, BufMgr.Valid, Inv, LeavesOthers, Stored, HeapIn;
    hide HeapFile.Valid, HeapFile.Open, HeapFile.Sole, HeapFile.PoolNow, HeapFile.View, HeapFile.Contents;
    hide HeapFile.Ahead, HeapFile.Insertion, HeapFile.AtRecord, HeapFile.CurrentEntry, AllEntries;
    status, hfs := NewScan(bm, f, NoFilter, float, t);
    if status == OK {
      OpenNow(hfs);
      forall i | 0 <= i < |fs|
        ensures fs[i].Valid() && fs[i].Sole()
        ensures fs[i].Contents() == old(fs[i].Contents()) && fs[i].Ahead() == old(fs[i].Ahead())
      {
        assert old(OpenScan(fs[i], bm, t));
        fs[i].Undisturbed(f);
      }
    }
  }

  /** The runs from the i-th on are in files that nobody has open. */
  ghost predicate StoredFrom(p: Pool, t: set<Key>, fileName: string, rs: seq<Run>, i: nat) {
    forall j :: i <= j < |rs| ==>
      Stored(p, RunFile(fileName, j), t) && HeapIn(p, RunFile(fileName, j), t) == rs[j].file
  }

  lemma StillStored(p: Pool, q: Pool, t: set<Key>, fileName: string, rs: seq<Run>, i: nat)
    requires StoredFrom(p, t, fileName, rs, i) && LeavesOthers(p, t, q, t, RunFile(fileName, i))
    ensures StoredFrom(q, t, fileName, rs, i + 1)
  {
    hide Stored, HeapIn, LeavesOthers, RunName;
    forall j | i + 1 <= j < |rs|
      ensures Stored(q, RunFile(fileName, j), t) && HeapIn(q, RunFile(fileName, j), t) == rs[j].file
    {
      RunNamesApart(fileName, i, j);
      StaysStored(p, t, q, t, RunFile(fileName, i), RunFile(fileName, j));
    }
  }

  /** Scan i is on run i, with nothing fetched yet. */
  ghost predicate Begun(fs: seq<HeapFile>, bm: BufMgr, fileName: string, rs: seq<Run>)
    requires |fs| <= |rs|
    reads fs, bm, bm.bufTable, bm.hashTable, bm.hashTable.ht, bm.hashTable.Repr, bm.disk, bm.mems
  {
    forall i :: 0 <= i < |fs| ==>
      && fs[i].bm == bm && fs[i].filePtr == RunFile(fileName, i)
      && fs[i].Contents() == rs[i].file && fs[i].Ahead() == AllEntries(rs[i].file)
  }

  lemma BegunNext(fs: seq<HeapFile>, hfs: HeapFile, bm: BufMgr, fileName: string, rs: seq<Run>)
    requires |fs| < |rs| && Begun(fs, bm, fileName, rs) && hfs.bm == bm && hfs.filePtr == RunFile(fileName, |fs|)
    requires hfs.Contents() == rs[|fs|].file && hfs.Ahead() == AllEntries(rs[|fs|].file)
    ensures Begun(fs + [hfs], bm, fileName, rs)
  {
    hide HeapFile.Ahead, HeapFile.Contents, AllEntries, RunName;
  }

  /** One round of startScans. */
  method StartNext(bm: BufMgr, fileName: string, float: seq<byte> -> real, fs: seq<HeapFile>, ghost rs: seq<Run>,
      ghost t: set<Key>) returns (status: Status, fs': seq<HeapFile>)
    requires bm.Valid() && Scans(bm, fs, t) && |fs| < |rs| && StoredFrom(bm.Abs(), t, fileName, rs, |fs|)
    requires Begun(fs, bm, fileName, rs) && forall i :: 0 <= i < |rs| ==> |rs[i].file| < DIRCNT
    modifies bm, bm.bufTable, bm.hashTable, bm.hashTable.ht, bm.hashTable.Repr, bm.disk, bm.mems
    ensures fresh(bm.hashTable.Repr - old(bm.hashTable.Repr)) && bm.Valid()
    ensures |fs'| == |fs| + 1 && fs'[..|fs|] == fs && fresh(fs'[|fs|])
    ensures status == if |old(bm.Abs()).upl| >= 2 then OK else BUFFEREXCEEDED
    ensures status != OK ==> bm.Abs().upl == []
    ensures status == OK ==> Scans(bm, fs', t) && Begun(fs', bm, fileName, rs)
    ensures status == OK ==> StoredFrom(bm.Abs(), t, fileName, rs, |fs'|)
    ensures status == OK ==> |bm.Abs().upl| == |old(bm.Abs()).upl| - 2
  {
    hide ChainedHash.HashTable.Valid, BufMgr.Wired, BufMgr.Abs, Inv, LeavesOthers, Stored, HeapIn, OpenScan, RunName;
    hide HeapFile.Ahead, HeapFile.Contents, AllEntries;
    forall i | 0 <= i < |fs|
      ensures fs[i].filePtr != RunFile(fileName, |fs|)
    {
      RunNamesApart(fileName, i, |fs|);
    }
    ghost var p := bm.Abs();
    assert HeapIn(p, RunFile(fileName, |fs|), t) == rs[|fs|].file;
    var hfs;
    status, hfs := OpenNext(bm, RunFile(fileName, |fs|), float, fs, t);
    fs' := fs + [hfs];
    if status == OK {
      StillStored(p, bm.Abs(), t, fileName, rs, |fs|);
      BegunNext(fs, hfs, bm, fileName, rs);
    }
  }

  /** startScans: a scan opened on every run.  Each takes two frames and keeps them, so it succeeds
      exactly when there are twice as many frames as runs. */
  method StartScans(bm: BufMgr, fileName: string, float: seq<byte> -> real, count: nat, ghost rs: seq<Run>,
      ghost t: set<Key>) returns (status: Status, fs: seq<HeapFile>)
    requires bm.Valid() && count == |rs| && RunsOn(bm.Abs(), t, fileName, rs)
    requires forall i :: 0 <= i < |rs| ==> |rs[i].file| < DIRCNT
    modifies bm, bm.bufTable, bm.hashTable, bm.hashTable.ht, bm.hashTable.Repr, bm.disk, bm.mems
    ensures fresh(bm.hashTable.Repr - old(bm.hashTable.Repr)) && bm.Valid()
    ensures status == if 2 * count <= |old(bm.Abs()).upl| then OK else BUFFEREXCEEDED
    ensures forall i :: 0 <= i < |fs| ==> fresh(fs[i])
    ensures status == OK ==> |fs| == count && Scans(bm, fs, t) && Begun(fs, bm, fileName, rs)
    ensures |bm.Abs().upl| == if status == OK then |old(bm.Abs()).upl| - 2 * count else 0
  {
    hide ChainedHash.HashTable.Valid, BufMgr.Wired, BufMgr.Abs, Inv, LeavesOthers, Stored, HeapIn, OpenScan, RunName;
    hide HeapFile.Ahead, HeapFile.Contents, AllEntries, Scans, Begun, StoredFrom;
    fs, status := [], OK;
    NoScans(bm, fileName, rs, t);
    while status == OK && |fs| < count
      invariant fresh(bm.hashTable.Repr - old(bm.hashTable.Repr)) && bm.Valid() && |fs| <= count
      invariant forall i :: 0 <= i < |fs| ==> fresh(fs[i])
      invariant status == OK ==> Scans(bm, fs, t) && Begun(fs, bm, fileName, rs)
      invariant status == OK ==> StoredFrom(bm.Abs(), t, fileName, rs, |fs|)
      invariant status == OK ==> |bm.Abs().upl| == |old(bm.Abs()).upl| - 2 * |fs|
      invariant status != OK ==>
        status == BUFFEREXCEEDED && 2 * count > |old(bm.Abs()).upl| && bm.Abs().upl == []
      decreases count - |fs|
    {
      status, fs := StartNext(bm, fileName, float, fs, rs, t);
    }
  }

  lemma NoScans(bm: BufMgr, fileName: string, rs: seq<Run>, t: set<Key>)
    requires bm.Valid() && RunsOn(bm.Abs(), t, fileName, rs)
    ensures Scans(bm, [], t) && Begun([], bm, fileName, rs) && StoredFrom(bm.Abs(), t, fileName, rs, 0)
  {
    hide ChainedHash.HashTable.Valid, BufMgr.Wired, BufMgr.Abs, Inv, Stored, HeapIn, RunName;
  }

  // ----- Fetching from a run -----

  /** What next remembers of a run: the record fetched last, if it has not been given away (`valid`). */
  datatype Held = Held(valid: bool, rid: RID, rec: Rec)

  /** The scan and what is held of it make up run r.  A record that is held is the one under the cursor,
      so its bytes are in a page that the scan keeps pinned. */
  ghost predicate Shows(f: HeapFile, x: Held, r: Run)
    reads f, f.bm, f.bm.bufTable, f.bm.hashTable, f.bm.hashTable.ht, f.bm.hashTable.Repr, f.bm.disk, f.bm.mems
  {
    && f.Contents() == r.file && r.pos <= |AllEntries(r.file)| && f.Ahead() == AllEntries(r.file)[r.pos..]
    && x == Held(r.valid, r.rid, r.rec)
    && (Holding(r) ==> f.AtRecord() && f.CurrentEntry() == Entry(r.rid, r.rec))
  }

  ghost predicate AllShow(bm: BufMgr, fs: seq<HeapFile>, xs: seq<Held>, rs: seq<Run>)
    reads fs, bm, bm.bufTable, bm.hashTable, bm.hashTable.ht, bm.hashTable.Repr, bm.disk, bm.mems
  {
    |fs| == |xs| == |rs| && forall i :: 0 <= i < |fs| ==> fs[i].bm == bm && Shows(fs[i], xs[i], rs[i])
  }

  /** A scan that was left alone still shows its run. */
  twostate predicate SameScan(f: HeapFile)
    reads f, f.bm, f.bm.bufTable, f.bm.hashTable, f.bm.hashTable.ht, f.bm.hashTable.Repr, f.bm.disk, f.bm.mems
  {
    && f.Contents() == old(f.Contents()) && f.Ahead() == old(f.Ahead())
    && (old(f.AtRecord()) ==> f.AtRecord() && f.CurrentEntry() == old(f.CurrentEntry()))
  }

  /** scanNext and getRecord on run i, the scans of the other runs being open. */
  method FetchFrom(bm: BufMgr, ghost fs: seq<HeapFile>, i: nat, f: HeapFile, ghost t: set<Key>)
    returns (status: Status, e: Entry)
    requires Scans(bm, fs, t) && i < |fs| && f == fs[i]
    modifies f`curPage, f`curPageNo, f`touched, f`curIdx, f`curRec
    modifies bm, bm.bufTable, bm.hashTable, bm.hashTable.ht, bm.hashTable.Repr, bm.disk, bm.mems
    ensures fresh(bm.hashTable.Repr - old(bm.hashTable.Repr)) && Scans(bm, fs, t)
    ensures status == if old(f.Ahead()) == [] then FILEEOF else OK
    ensures f.Contents() == old(f.Contents())
    ensures status == OK ==>
      f.AtRecord() && f.CurrentEntry() == e && old(f.Ahead()) == [e] + f.Ahead()
    ensures status == FILEEOF ==> f.Ahead() == []
    ensures forall j :: 0 <= j < |fs| && j != i ==> fs[j].bm == bm && SameScan(fs[j])
  {
    hide ChainedHash.HashTable.Valid, BufMgr.Wired, BufMgr.Abs, BufMgr.Valid, Inv, LeavesOthers;
    hide HeapFile.Valid, HeapFile.Open, HeapFile.Sole, HeapFile.PoolNow, HeapFile.View, HeapFile.Contents;
    hide HeapFile.Ahead, HeapFile.Insertion, HeapFile.AtRecord, HeapFile.CurrentEntry;
    assert OpenScan(f, bm, t);
    OpenNow(f);
    status, e := FetchAny(f);
    OpenNow(f);
    forall j | 0 <= j < |fs| && j != i
      ensures OpenScan(fs[j], bm, t) && SameScan(fs[j])
    {
      assert old(OpenScan(fs[j], bm, t));
      fs[j].Undisturbed(f.filePtr);
    }
  }

  /** What the constructor returns.  With good arguments, no name of a run must be taken, and each run
      takes two frames at the same time as all the others. */
  ghost function SortStatus(db: DB, fileName: string, k: SortKey, maxItems: int, owed: set<Key>): Status
    reads db, db.openFiles, db.openFiles.ht, db.openFiles.Repr, db.files
    reads db.bm, db.bm.bufTable, db.bm.hashTable, db.bm.hashTable.ht, db.bm.hashTable.Repr, db.bm.disk, db.bm.mems
  {
    if !KeyOK(k) then BADSORTPARM else if maxItems < 2 then INSUFMEM
    else if db.Valid() then
      var n := |AllEntries(SourceOf(db, fileName, owed))|;
      if RunTaken(db.Counts(), db.PoolNow().disk, fileName, n, maxItems) then FILEEXISTS
      else if 2 * Batches(n, maxItems) > |db.PoolNow().upl| then BUFFEREXCEEDED else OK
    else OK
  }

  /** The frames left afterwards: whether it succeeds or fails, the constructor closes no scan that it
      has opened. */
  function Spared(status: Status, frames: int, runs: int): int {
    match status
    case OK => frames - 2 * runs
    case FILEEXISTS => frames - 2
    case _ => 0
  }

  /** What the constructor asks for when its arguments are good. */
  ghost predicate MaySort(db: DB, fileName: string, k: SortKey, maxItems: int, owed: set<Key>)
    reads db, db.openFiles, db.openFiles.ht, db.openFiles.Repr, db.files
    reads db.bm, db.bm.bufTable, db.bm.hashTable, db.bm.hashTable.ht, db.bm.hashTable.Repr, db.bm.disk, db.bm.mems
  {
    KeyOK(k) && 2 <= maxItems ==> SourceReady(db, fileName, k, maxItems, owed)
  }

  /** What next remembers after scanNext and, if there is a record, getRecord. */
  function HeldNext(x: Held, status: Status, e: Entry): Held {
    if status == FILEEOF then Held(true, RID(-1, x.rid.slotNo), x.rec) else Held(true, e.rid, e.rec)
  }

  lemma FetchedShows(f: HeapFile, x: Held, r: Run, status: Status, e: Entry)
    requires f.Contents() == r.file && r.pos <= |AllEntries(r.file)| && !r.valid && x == Held(r.valid, r.rid, r.rec)
    requires status == if AllEntries(r.file)[r.pos..] == [] then FILEEOF else OK
    requires status == OK ==>
      f.AtRecord() && f.CurrentEntry() == e && AllEntries(r.file)[r.pos..] == [e] + f.Ahead()
    requires status == FILEEOF ==> f.Ahead() == []
    ensures Shows(f, HeldNext(x, status, e), FetchedRun(r))
  {
    hide HeapFile.Contents, HeapFile.Ahead, HeapFile.AtRecord, HeapFile.CurrentEntry, AllEntries;
    var es := AllEntries(r.file);
    if status == OK {
      assert es[r.pos..][0] == es[r.pos];
      assert es[r.pos + 1..] == f.Ahead();
    }
  }

  lemma NothingShown(bm: BufMgr, fileName: string, fs: seq<HeapFile>, xs: seq<Held>, rs: seq<Run>)
    requires |fs| == |xs| == |rs| && Begun(fs, bm, fileName, rs)
    requires forall i :: 0 <= i < |rs| ==> xs[i] == Held(false, NULLRID, []) && rs[i] == Unread(rs[i].file)
    ensures AllShow(bm, fs, xs, rs)
  {
    hide HeapFile.Contents, HeapFile.Ahead, AllEntries;
    forall i | 0 <= i < |fs|
      ensures fs[i].bm == bm && Shows(fs[i], xs[i], rs[i])
    {
      var es := AllEntries(rs[i].file);
      assert es[0..] == es;
    }
  }

  // ----- sortFile -----

  /** The runs deliver records of the source, each in key order if the keys of the source are comparable. */
  ghost predicate MergeOK(k: SortKey, all: multiset<Rec>, rs: seq<Run>) {
    Keyed(k, all) && RunsOK(rs) && Rest(rs) <= all && (Sortable(k, all) ==> RunsSorted(k, rs))
  }

  /** All of file h in runs of at most maxItems records. */
  ghost predicate AllIn(k: SortKey, h: Heap, maxItems: int, rs: seq<Run>) {
    && MergeOK(k, multiset(Records(AllEntries(h))), rs) && Rest(rs) == multiset(Records(AllEntries(h)))
    && 0 < maxItems && |rs| == Batches(|AllEntries(h)|, maxItems)
    && forall i :: 0 <= i < |rs| ==> 1 <= |RunRecords(rs[i])| <= maxItems
  }

  lemma SplitIsAllIn(k: SortKey, h: Heap, m: int, rs: seq<Run>)
    requires 0 < m && SplitUpTo(k, h, m, rs, |AllEntries(h)|) && |rs| == Batches(|AllEntries(h)|, m)
    requires Keyed(k, multiset(Records(AllEntries(h))))
    ensures AllIn(k, h, m, rs)
    ensures forall i :: 0 <= i < |rs| ==> |rs[i].file| < DIRCNT && rs[i] == Unread(rs[i].file)
  {
    hide AllEntries, RunsOK, Rest, Sortable, RunsSorted, RunRecords;
    assert AllEntries(h)[..|AllEntries(h)|] == AllEntries(h);
  }

  lemma AllInMerges(k: SortKey, h: Heap, maxItems: int)
    ensures forall rs :: AllIn(k, h, maxItems, rs) ==> MergeOK(k, multiset(Records(AllEntries(h))), rs)
  {
    hide AllEntries, MergeOK;
  }

  /** startScans, and what next remembers at first. */
  method OpenRuns(bm: BufMgr, k: SortKey, fileName: string, maxItems: int, float: seq<byte> -> real, count: nat,
      ghost rs: seq<Run>, ghost t: set<Key>, ghost h: Heap) returns (status: Status, fs: seq<HeapFile>, xs: seq<Held>)
    requires bm.Valid() && RunsOn(bm.Abs(), t, fileName, rs) && count == |rs| && 0 < maxItems
    requires SplitUpTo(k, h, maxItems, rs, |AllEntries(h)|) && count == Batches(|AllEntries(h)|, maxItems)
    requires Keyed(k, multiset(Records(AllEntries(h))))
    modifies bm, bm.bufTable, bm.hashTable, bm.hashTable.ht, bm.hashTable.Repr, bm.disk, bm.mems
    ensures fresh(bm.hashTable.Repr - old(bm.hashTable.Repr)) && bm.Valid()
    ensures status == if 2 * count <= |old(bm.Abs()).upl| then OK else BUFFEREXCEEDED
    ensures |bm.Abs().upl| == if status == OK then |old(bm.Abs()).upl| - 2 * count else 0
    ensures status == OK ==> Scans(bm, fs, t) && AllShow(bm, fs, xs, rs) && AllIn(k, h, maxItems, rs)
    ensures forall i :: 0 <= i < |fs| ==> fresh(fs[i])
  {
    hide ChainedHash.HashTable.Valid, BufMgr.Wired, BufMgr.Abs, BufMgr.Valid, Inv, AllEntries, Scans, SplitUpTo;
    hide RunsOn, Begun, AllShow, RunsOK, Rest, RunsSorted, Sortable, RunRecords, AllIn;
    SplitIsAllIn(k, h, maxItems, rs);
    status, fs := StartScans(bm, fileName, float, count, rs, t);
    xs := [];
    if status == OK {
      xs := seq(count, i => Held(false, NULLRID, []));
      NothingShown(bm, fileName, fs, xs, rs);
    }
  }

  lemma ReadySource(db: DB, k: SortKey, fileName: string, maxItems: int, owed: set<Key>)
    requires SourceReady(db, fileName, k, maxItems, owed)
    ensures db.Valid() && Keyed(k, multiset(Records(AllEntries(SourceOf(db, fileName, owed)))))
  {
    hide DB.Valid, DB.PoolNow, SourceOf, RunsFit, AllEntries, HeapInv;
  }

  /** sortFile: makes the runs and opens a scan on each. */
  method SortFile(db: DB, fileName: string, k: SortKey, maxItems: int, float: seq<byte> -> real, ghost owed: set<Key>)
    returns (status: Status, fs: seq<HeapFile>, xs: seq<Held>, ghost rs: seq<Run>, ghost t: set<Key>)
    requires SourceReady(db, fileName, k, maxItems, owed) && KeyOK(k) && 2 <= maxItems
    modifies db`files, db.openFiles, db.openFiles.ht, db.openFiles.Repr, db.files
    modifies db.bm, db.bm.bufTable, db.bm.hashTable, db.bm.hashTable.ht, db.bm.hashTable.Repr, db.bm.disk, db.bm.mems
    ensures fresh(db.openFiles.Repr - old(db.openFiles.Repr)) && fresh(db.bm.hashTable.Repr - old(db.bm.hashTable.Repr))
    ensures fresh(db.files - old(db.files))
    ensures status == old(SortStatus(db, fileName, k, maxItems, owed))
    ensures status == OK ==> Scans(db.bm, fs, t) && AllShow(db.bm, fs, xs, rs)
    ensures status == OK ==> AllIn(k, old(SourceOf(db, fileName, owed)), maxItems, rs)
    ensures db.bm.Valid() && |db.bm.Abs().upl| == Spared(status, |old(db.PoolNow()).upl|, |rs|)
    ensures forall i :: 0 <= i < |fs| ==> fresh(fs[i])
  {
    hide ChainedHash.HashTable.Valid, BufMgr.Wired, BufMgr.Abs, BufMgr.Valid, Inv, AllEntries, SplitUpTo, Scans;
    hide DB.Valid, DB.Counts, DB.PoolNow, SourceReady, SourceOf, RunTaken, RunsOn, AllShow, AllIn, Keyed;
    hide SortStatus;
    var buffer := new SortRec[maxItems](i => SortRec(NULLRID, []));
    status, fs, xs, rs, t := SplitAndOpen(db, fileName, k, buffer, float, owed);
  }

  /** The same, with the buffer of the keys. */
  method SplitAndOpen(db: DB, fileName: string, k: SortKey, buffer: array<SortRec>, float: seq<byte> -> real,
      ghost owed: set<Key>)
    returns (status: Status, fs: seq<HeapFile>, xs: seq<Held>, ghost rs: seq<Run>, ghost t: set<Key>)
    requires SourceReady(db, fileName, k, buffer.Length, owed) && KeyOK(k) && 2 <= buffer.Length
    modifies buffer, db`files, db.openFiles, db.openFiles.ht, db.openFiles.Repr, db.files
    modifies db.bm, db.bm.bufTable, db.bm.hashTable, db.bm.hashTable.ht, db.bm.hashTable.Repr, db.bm.disk, db.bm.mems
    ensures fresh(db.openFiles.Repr - old(db.openFiles.Repr)) && fresh(db.bm.hashTable.Repr - old(db.bm.hashTable.Repr))
    ensures fresh(db.files - old(db.files))
    ensures status == old(SortStatus(db, fileName, k, buffer.Length, owed))
    ensures status == OK ==> Scans(db.bm, fs, t) && AllShow(db.bm, fs, xs, rs)
    ensures status == OK ==> AllIn(k, old(SourceOf(db, fileName, owed)), buffer.Length, rs)
    ensures db.bm.Valid() && |db.bm.Abs().upl| == Spared(status, |old(db.PoolNow()).upl|, |rs|)
    ensures forall i :: 0 <= i < |fs| ==> fresh(fs[i])
  {
    hide ChainedHash.HashTable.Valid, BufMgr.Wired, BufMgr.Abs, BufMgr.Valid, Inv, AllEntries, SplitUpTo, Scans;
    hide DB.Valid, DB.Counts, DB.PoolNow, SourceReady, SourceOf, RunTaken, RunsOn, AllShow, AllIn, Keyed;
    ghost var maxItems := buffer.Length;
    ghost var h := SourceOf(db, fileName, owed);
    ReadySource(db, k, fileName, maxItems, owed);
    fs, xs := [], [];
    var count;
    status, count, rs, t := MakeRuns(db, fileName, k, float, buffer, owed);
    if status == OK {
      status, fs, xs := OpenRuns(db.bm, k, fileName, buffer.Length, float, count, rs, t, h);
    }
  }

  /** What the constructor does before it has an object to speak of: checks its arguments, and sorts. */
  method CheckAndSort(db: DB, fileName: string, k: SortKey, maxItems: int, float: seq<byte> -> real,
      ghost owed: set<Key>)
    returns (status: Status, fs: seq<HeapFile>, xs: seq<Held>, ghost rs: seq<Run>, ghost t: set<Key>)
    requires MaySort(db, fileName, k, maxItems, owed)
    modifies db`files, db.openFiles, db.openFiles.ht, db.openFiles.Repr, db.files
    modifies db.bm, db.bm.bufTable, db.bm.hashTable, db.bm.hashTable.ht, db.bm.hashTable.Repr, db.bm.disk, db.bm.mems
    ensures fresh(db.openFiles.Repr - old(db.openFiles.Repr)) && fresh(db.bm.hashTable.Repr - old(db.bm.hashTable.Repr))
    ensures fresh(db.files - old(db.files))
    ensures status == old(SortStatus(db, fileName, k, maxItems, owed))
    ensures status == OK ==> Scans(db.bm, fs, t) && AllShow(db.bm, fs, xs, rs)
    ensures status == OK ==> AllIn(k, old(SourceOf(db, fileName, owed)), maxItems, rs)
    ensures KeyOK(k) && 2 <= maxItems ==>
      db.bm.Valid() && |db.bm.Abs().upl| == Spared(status, |old(db.PoolNow()).upl|, |rs|)
    ensures forall i :: 0 <= i < |fs| ==> fresh(fs[i])
  {
    hide ChainedHash.HashTable.Valid, BufMgr.Wired, BufMgr.Abs, BufMgr.Valid, Inv, AllEntries, Scans, AllShow;
    hide DB.Valid, DB.Counts, DB.PoolNow, SourceReady, SourceOf, RunTaken, AllIn;
    status, fs, xs, rs, t := OK, [], [], [], owed;
    if k.offset < 0 || k.length < 1 {
      status := BADSORTPARM;
    } else if (k.attr == INTEGER && k.length != 4) || (k.attr == FLOAT && k.length != 4) {
      status := BADSORTPARM;
    }
    if status == OK {
      if maxItems < 2 {
        status := INSUFMEM;
      } else {
        status, fs, xs, rs, t := SortFile(db, fileName, k, maxItems, float, owed);
      }
    }
  }

  class SortedFile {
    const bm: BufMgr
    const key: SortKey
    var inFiles: seq<HeapFile>    // the scan of each run
    var held: seq<Held>           // and what next has fetched of it
    const status: Status          // what the constructor returns
    ghost const all: multiset<Rec>    // the records of the source
    ghost var runs: seq<Run>
    ghost var owed: set<Key>

    /** No difference of two integer keys of the source overflows. */
    ghost predicate SourceSortable() { Sortable(key, all) }

    /** The scans are open and show the runs. */
    ghost predicate ScansOK()
      reads this, inFiles, bm, bm.bufTable, bm.hashTable, bm.hashTable.ht, bm.hashTable.Repr, bm.disk, bm.mems
    {
      Scans(bm, inFiles, owed) && AllShow(bm, inFiles, held, runs)
    }

    ghost predicate Valid()
      reads this, inFiles, bm, bm.bufTable, bm.hashTable, bm.hashTable.ht, bm.hashTable.Repr, bm.disk, bm.mems
    {
      ScansOK() && MergeOK(key, all, runs)
    }

    /** The constructor: checks its arguments, splits the source into sorted runs and opens a scan on
        each. */
    constructor (db: DB, fileName: string, key: SortKey, maxItems: int, float: seq<byte> -> real, ghost owed: set<Key>)
      requires MaySort(db, fileName, key, maxItems, owed)
      modifies db`files, db.openFiles, db.openFiles.ht, db.openFiles.Repr, db.files
      modifies db.bm, db.bm.bufTable, db.bm.hashTable, db.bm.hashTable.ht, db.bm.hashTable.Repr, db.bm.disk, db.bm.mems
      ensures fresh(db.openFiles.Repr - old(db.openFiles.Repr))
      ensures fresh(db.bm.hashTable.Repr - old(db.bm.hashTable.Repr))
      ensures fresh(db.files - old(db.files))
      ensures this.bm == db.bm && this.key == key
      ensures all == multiset(Records(AllEntries(old(SourceOf(db, fileName, owed)))))
      ensures status == old(SortStatus(db, fileName, key, maxItems, owed))
      ensures status == OK ==> Valid() && AllIn(key, old(SourceOf(db, fileName, owed)), maxItems, runs)
      ensures KeyOK(key) && 2 <= maxItems ==>
        db.bm.Valid() && |db.bm.Abs().upl| == Spared(status, |old(db.PoolNow()).upl|, |runs|)
      ensures forall i :: 0 <= i < |inFiles| ==> fresh(inFiles[i])
    {
      hide ChainedHash.HashTable.Valid, BufMgr.Wired, BufMgr.Abs, BufMgr.Valid, Inv, AllEntries, Scans, AllShow;
      hide DB.Valid, DB.Counts, DB.PoolNow, SourceReady, SourceOf, RunTaken, SortStatus, MergeOK, AllIn, MaySort;
      this.bm, this.key := db.bm, key;
      all := multiset(Records(AllEntries(SourceOf(db, fileName, owed))));
      var st, fs, xs;
      ghost var rs, t;
      AllInMerges(key, SourceOf(db, fileName, owed), maxItems);
      st, fs, xs, rs, t := CheckAndSort(db, fileName, key, maxItems, float, owed);
      status, inFiles, held := st, fs, xs;
      runs, this.owed := rs, t;
    }

    /** The part of next that makes sure that the next record of run i is in memory. */
    method PeekNext(i: nat)
      requires ScansOK() && i < |runs|
      modifies `held, `runs, inFiles, bm, bm.bufTable, bm.hashTable, bm.hashTable.ht, bm.hashTable.Repr
      modifies bm.disk, bm.mems
      ensures fresh(bm.hashTable.Repr - old(bm.hashTable.Repr)) && ScansOK()
      ensures old(runs)[i].pos <= |AllEntries(old(runs)[i].file)|
      ensures runs == old(runs)[i := FetchedRun(old(runs)[i])]
    {
      hide ChainedHash.HashTable.Valid, BufMgr.Wired, BufMgr.Abs, BufMgr.Valid, Inv, AllEntries, Scans, FetchedRun;
      hide HeapFile.Contents, HeapFile.Ahead, HeapFile.AtRecord, HeapFile.CurrentEntry, HeapFile.Valid, Holding;
      ghost var r := runs[i];
      assert Shows(inFiles[i], held[i], r);
      if held[i].valid {
        NothingFetched(runs, i);
        return;
      }
      var status, e := FetchFrom(bm, inFiles, i, inFiles[i], owed);
      FetchedShows(inFiles[i], held[i], r, status, e);
      held := held[i := HeldNext(held[i], status, e)];
      runs := runs[i := FetchedRun(r)];
      forall j | 0 <= j < |inFiles|
        ensures inFiles[j].bm == bm && Shows(inFiles[j], held[j], runs[j])
      {
        if j != i {
          assert old(Shows(inFiles[j], held[j], runs[j])) && SameScan(inFiles[j]);
        }
      }
    }

    /** Fetches the next record of run i if it is not in memory. */
    method FetchRun(i: nat)
      requires Valid() && i < |runs|
      modifies `held, `runs, inFiles, bm, bm.bufTable, bm.hashTable, bm.hashTable.ht, bm.hashTable.Repr
      modifies bm.disk, bm.mems
      ensures fresh(bm.hashTable.Repr - old(bm.hashTable.Repr)) && Valid()
      ensures RunsOK(old(runs)) && Rest(runs) == Rest(old(runs))
      ensures runs == old(runs)[i := FetchedRun(old(runs)[i])] && runs[i].valid
    {
      hide ChainedHash.HashTable.Valid, BufMgr.Wired, BufMgr.Abs, BufMgr.Valid, Inv, AllEntries, Scans, AllShow;
      hide Sorted, Left, FetchedRun, Rest, Sortable;
      assert RunOK(runs[i]);
      FetchKeeps(runs[i]);
      RestReplace(runs, i, FetchedRun(runs[i]), multiset{});
      SortedReplace(key, runs, i, FetchedRun(runs[i]));
      PeekNext(i);
    }

    /** What is held of a run is what it holds. */
    lemma HeldIs(i: nat)
      requires Valid() && i < |runs|
      ensures i < |held| && held[i] == Held(runs[i].valid, runs[i].rid, runs[i].rec)
    {
      hide AllEntries, HeapFile.Contents, HeapFile.Ahead, HeapFile.AtRecord, HeapFile.CurrentEntry, Scans, MergeOK;
      assert Shows(inFiles[i], held[i], runs[i]);
    }

    /** A record that a run holds has the key. */
    lemma HeldKey(i: nat)
      requires Valid() && i < |runs| && Holding(runs[i])
      ensures HasKey(key, runs[i].rec) && KeyOK(key)
    {
      hide AllEntries, RunsOK, Rest, Holding, Scans, AllShow, Sortable;
      HeldIn(runs, all, i);
    }

    /** One round of the comparison loop of next, on run i. */
    method Compare(i: nat, smallest: int) returns (smallest': int)
      requires Valid() && i < |runs| && -1 <= smallest < i && FoundHeld(runs, i, smallest)
      requires SourceSortable() ==> LeastHeld(key, runs, i, smallest)
      requires forall j :: 0 <= j < i ==> runs[j].valid
      modifies `held, `runs, inFiles, bm, bm.bufTable, bm.hashTable, bm.hashTable.ht, bm.hashTable.Repr
      modifies bm.disk, bm.mems
      ensures fresh(bm.hashTable.Repr - old(bm.hashTable.Repr)) && Valid()
      ensures RunsOK(old(runs)) && Rest(runs) == Rest(old(runs)) && |runs| == |old(runs)|
      ensures forall j :: 0 <= j < i + 1 ==> runs[j].valid
      ensures -1 <= smallest' < i + 1 && FoundHeld(runs, i + 1, smallest')
      ensures SourceSortable() ==> LeastHeld(key, runs, i + 1, smallest')
    {
      hide ChainedHash.HashTable.Valid, BufMgr.Wired, BufMgr.Abs, BufMgr.Valid, Inv, AllEntries, Scans, AllShow;
      hide Sorted, Left, RunOK, RecCmp, FoundHeld, LeastHeld, FetchedRun, Rest, Holding, HasKey, Sortable, RunsSorted;
      ghost var before := runs;
      FetchRun(i);
      SameHeld(key, before, runs, i, smallest);
      FoundStep(runs, i, smallest);
      if SourceSortable() {
        LeastStep(key, runs, all, i, smallest);
      }
      HeldIs(i);
      smallest' := smallest;
      if held[i].rid.pageNo < 0 {
        return;
      }
      HeldKey(i);
      if smallest < 0 {
        smallest' := i;
      } else {
        HeldIs(smallest);
        HeldKey(smallest);
        if RecCmp(key.attr, key.float, Field(key, held[smallest].rec), Field(key, held[i].rec)) > 0 {
          smallest' := i;
        }
      }
    }

    /** The comparison loop of next: a run that holds its next record, or -1 when none does; the
        record is the least of those held when keys are comparable. */
    method Smallest() returns (smallest: int)
      requires Valid()
      modifies `held, `runs, inFiles, bm, bm.bufTable, bm.hashTable, bm.hashTable.ht, bm.hashTable.Repr
      modifies bm.disk, bm.mems
      ensures fresh(bm.hashTable.Repr - old(bm.hashTable.Repr)) && Valid()
      ensures RunsOK(old(runs)) && Rest(runs) == Rest(old(runs)) && |runs| == |old(runs)|
      ensures forall j :: 0 <= j < |runs| ==> runs[j].valid
      ensures -1 <= smallest < |runs| && FoundHeld(runs, |runs|, smallest)
      ensures SourceSortable() ==> LeastHeld(key, runs, |runs|, smallest)
    {
      hide ChainedHash.HashTable.Valid, BufMgr.Wired, BufMgr.Abs, BufMgr.Valid, Inv, AllEntries, Scans, AllShow;
      hide Sorted, Left, RunOK, RecCmp, FoundHeld, LeastHeld, FetchedRun, Rest, Holding, Sortable, RunsSorted;
      hide SortedFile.Valid;
      smallest := -1;
      NoneHeld(key, runs);
      Lengths();
      var i := 0;
      while i < |inFiles|
        invariant fresh(bm.hashTable.Repr - old(bm.hashTable.Repr)) && Valid() && i <= |runs| == |inFiles|
        invariant RunsOK(old(runs)) && RunsOK(runs) && Rest(runs) == Rest(old(runs)) && |runs| == |old(runs)|
        invariant forall j :: 0 <= j < i ==> runs[j].valid
        invariant -1 <= smallest < i && FoundHeld(runs, i, smallest)
        invariant SourceSortable() ==> LeastHeld(key, runs, i, smallest)
        decreases |inFiles| - i
      {
        smallest := Compare(i, smallest);
        Lengths();
        i := i + 1;
      }
    }

    lemma Lengths()
      requires Valid()
      ensures |runs| == |inFiles| == |held| && RunsOK(runs) && Rest(runs) <= all
      ensures Keyed(key, all) && (SourceSortable() ==> RunsSorted(key, runs))
    {
      hide RunsOK, Rest, Scans, RunsSorted, Sortable, HasKey;
    }

    /** SortedFile::next: one of the records left, the least of them when keys are comparable, or
        FILEEOF when none is left. */
    method Next() returns (status: Status, rec: Rec)
      requires Valid()
      modifies `held, `runs, inFiles, bm, bm.bufTable, bm.hashTable, bm.hashTable.ht, bm.hashTable.Repr
      modifies bm.disk, bm.mems
      ensures fresh(bm.hashTable.Repr - old(bm.hashTable.Repr)) && Valid()
      ensures RunsOK(old(runs)) && RunsOK(runs)
      ensures status == if Rest(old(runs)) == multiset{} then FILEEOF else OK
      ensures status == FILEEOF ==> Rest(runs) == multiset{}
      ensures status == OK ==> Rest(old(runs)) == Rest(runs) + multiset{rec}
      ensures status == OK && SourceSortable() ==>
        forall r :: r in Rest(old(runs)) ==> Le(key, rec, r) && KeyLe(key, rec, r)
    {
      hide ChainedHash.HashTable.Valid, BufMgr.Wired, BufMgr.Abs, BufMgr.Valid, Inv, AllEntries, Scans, AllShow;
      hide Sorted, Left, RunOK, RecCmp, HasKey, FetchedRun, Le, KeyLe, LeastHeld, SortedFile.Valid, RunsOK, Sortable;
      hide RunsSorted;
      hide Holding;
      Lengths();
      if |inFiles| <= 0 {
        NoRuns(runs);
        return FILEEOF, [];
      }
      var smallest := Smallest();
      Lengths();
      if smallest < 0 {
        NothingHeld(runs);
        return FILEEOF, [];
      }
      if SourceSortable() {
        LeastOfAll(key, runs, all, smallest);
      }
      HeldIs(smallest);
      rec := held[smallest].rec;
      GiveAway(smallest);
      return OK, rec;
    }

    /** The record of run i is the caller's; the next must be fetched. */
    method GiveAway(i: nat)
      requires Valid() && i < |runs| && FoundHeld(runs, |runs|, i)
      modifies `held, `runs
      ensures Valid() && |runs| == |old(runs)| && RunsOK(old(runs)) && RunsOK(runs)
      ensures Rest(old(runs)) == Rest(runs) + multiset{old(runs)[i].rec}
    {
      hide ChainedHash.HashTable.Valid, BufMgr.Wired, BufMgr.Abs, BufMgr.Valid, Inv, AllEntries, Scans, AllShow;
      hide Sorted, Left, Rest, Sortable;
      ghost var r := runs[i];
      assert RunOK(r) && Holding(r);
      Lengths();
      GivenAway(r);
      RestReplace(runs, i, r.(valid := false), multiset{r.rec});
      SortedReplace(key, runs, i, r.(valid := false));
      LetGo(bm, inFiles, held, runs, i);
      held := held[i := held[i].(valid := false)];
      runs := runs[i := r.(valid := false)];
    }
  }

  lemma LetGo(bm: BufMgr, fs: seq<HeapFile>, xs: seq<Held>, rs: seq<Run>, i: nat)
    requires AllShow(bm, fs, xs, rs) && i < |rs|
    ensures AllShow(bm, fs, xs[i := xs[i].(valid := false)], rs[i := rs[i].(valid := false)])
  {
    hide AllEntries, HeapFile.Contents, HeapFile.Ahead, HeapFile.AtRecord, HeapFile.CurrentEntry;
    var xs', rs' := xs[i := xs[i].(valid := false)], rs[i := rs[i].(valid := false)];
    forall j | 0 <= j < |fs|
      ensures fs[j].bm == bm && Shows(fs[j], xs'[j], rs'[j])
    {
      assert Shows(fs[j], xs[j], rs[j]);
    }
  }

  lemma NoRuns(rs: seq<Run>)
    requires RunsOK(rs) && rs == []
    ensures Rest(rs) == multiset{}
  {
  }

  lemma LeastOfAll(k: SortKey, rs: seq<Run>, all: multiset<Rec>, s: nat)
    requires RunsOK(rs) && RunsSorted(k, rs) && Rest(rs) <= all && Sortable(k, all) && s < |rs|
    requires forall j :: 0 <= j < |rs| ==> rs[j].valid
    requires LeastHeld(k, rs, |rs|, s)
    ensures forall r :: r in Rest(rs) ==> Le(k, rs[s].rec, r) && KeyLe(k, rs[s].rec, r)
  {
    hide Le, KeyLe, LeastHeld, Rest, RunsOK, RunsSorted, Sortable;
    forall r | r in Rest(rs)
      ensures Le(k, rs[s].rec, r) && KeyLe(k, rs[s].rec, r)
    {
      LeastOfRest(k, rs, all, s, r);
    }
  }

  lemma NoneHeld(k: SortKey, runs: seq<Run>)
    ensures FoundHeld(runs, 0, -1) && LeastHeld(k, runs, 0, -1)
  {
  }

  /** Fetching run n does not disturb the comparison of the runs before it. */
  lemma SameHeld(k: SortKey, before: seq<Run>, after: seq<Run>, n: nat, s: int)
    requires n < |before| == |after| && after == before[n := after[n]] && FoundHeld(before, n, s)
    ensures FoundHeld(after, n, s) && (LeastHeld(k, before, n, s) ==> LeastHeld(k, after, n, s))
  {
    hide Le;
  }

  /** A run that holds its next record may be taken, and must be when no other was found. */
  lemma FoundStep(runs: seq<Run>, n: nat, s: int)
    requires n < |runs| && FoundHeld(runs, n, s) && runs[n].valid
    ensures runs[n].rid.pageNo >= 0 <==> Holding(runs[n])
    ensures Holding(runs[n]) ==> FoundHeld(runs, n + 1, n)
    ensures !Holding(runs[n]) || s >= 0 ==> FoundHeld(runs, n + 1, s)
    ensures s >= 0 ==> s < n && Holding(runs[s])
  {
  }

  lemma NothingHeld(runs: seq<Run>)
    requires RunsOK(runs) && FoundHeld(runs, |runs|, -1) && forall j :: 0 <= j < |runs| ==> runs[j].valid
    ensures Rest(runs) == multiset{}
  {
    hide Left, Rest;
    forall i | 0 <= i < |runs|
      ensures RunOK(runs[i]) && Left(runs[i]) == []
    {
      FetchedHead(runs[i]);
    }
    RestEmpty(runs);
  }

  lemma NothingFetched(rs: seq<Run>, i: nat)
    requires i < |rs| && rs[i].valid && rs[i].pos <= |AllEntries(rs[i].file)|
    ensures rs[i := FetchedRun(rs[i])] == rs
  {
    hide AllEntries;
  }

  /** Calling next until FILEEOF yields a permutation of what is left, sorted when keys are
      comparable; after that nothing is left, so next goes on returning FILEEOF. */
  method Drain(file: SortedFile) returns (out: seq<Rec>)
    requires file.Valid()
    modifies file`held, file`runs, file.inFiles, file.bm, file.bm.bufTable, file.bm.hashTable, file.bm.hashTable.ht
    modifies file.bm.hashTable.Repr, file.bm.disk, file.bm.mems
    ensures fresh(file.bm.hashTable.Repr - old(file.bm.hashTable.Repr))
    ensures file.Valid() && RunsOK(file.runs) && Rest(file.runs) == multiset{}
    ensures RunsOK(old(file.runs)) && multiset(out) == Rest(old(file.runs))
    ensures file.SourceSortable() ==> Sorted(file.key, out)
  {
    hide ChainedHash.HashTable.Valid, BufMgr.Wired, BufMgr.Abs, BufMgr.Valid, Inv, AllEntries, SortedFile.Valid;
    hide Sortable, Rest, Le, RunsOK, RunsSorted;
    out := [];
    file.Lengths();
    var status := OK;
    while status == OK
      invariant fresh(file.bm.hashTable.Repr - old(file.bm.hashTable.Repr))
      invariant file.Valid() && RunsOK(file.runs) && RunsOK(old(file.runs))
      invariant multiset(out) + Rest(file.runs) == Rest(old(file.runs))
      invariant file.SourceSortable() ==> Sorted(file.key, out)
      invariant file.SourceSortable() ==> forall x, r :: x in out && r in Rest(file.runs) ==> Le(file.key, x, r)
      invariant status in {OK, FILEEOF} && (status == FILEEOF ==> Rest(file.runs) == multiset{})
      decreases |Rest(file.runs)|, if status == OK then 1 else 0
    {
      var rec;
      status, rec := file.Next();
      if status == OK {
        out := out + [rec];
      }
    }
  }

  /** External sort: the records of the source, each as often as it occurs, and in key order when no
      difference of two integer keys overflows. */
  method SortThenDrain(db: DB, fileName: string, key: SortKey, maxItems: int, float: seq<byte> -> real,
      ghost owed: set<Key>) returns (status: Status, out: seq<Rec>)
    requires MaySort(db, fileName, key, maxItems, owed)
    modifies db`files, db.openFiles, db.openFiles.ht, db.openFiles.Repr, db.files
    modifies db.bm, db.bm.bufTable, db.bm.hashTable, db.bm.hashTable.ht, db.bm.hashTable.Repr, db.bm.disk, db.bm.mems
    ensures status == old(SortStatus(db, fileName, key, maxItems, owed))
    ensures var all := multiset(Records(AllEntries(old(SourceOf(db, fileName, owed)))));
      status == OK ==> multiset(out) == all && (Sortable(key, all) ==> InKeyOrder(key, out))
    ensures status != OK ==> out == []
  {
    hide ChainedHash.HashTable.Valid, BufMgr.Wired, BufMgr.Abs, BufMgr.Valid, Inv, AllEntries, SortedFile.Valid;
    hide Sortable, Sorted, InKeyOrder, Rest, Le, RunsOK, MaySort, SourceOf, SortStatus;
    var file := new SortedFile(db, fileName, key, maxItems, float, owed);
    status := file.status;
    out := [];
    if status == OK {
      out := Drain(file);
      if Sortable(key, multiset(out)) {
        SortedInKeyOrder(key, out);
      }
    }
  }

  // ----- The sort as it is written -----

  /** The source opened and its first batch read. */
  method ReadFirst(db: DB, fileName: string, k: SortKey, float: seq<byte> -> real, buffer: array<SortRec>,
      ghost owed: set<Key>) returns (hfs: HeapFile, numItems: nat)
    requires SourceThere(db, fileName, k, owed) && KeyOK(k) && 0 < buffer.Length
    modifies buffer
    modifies db.bm, db.bm.bufTable, db.bm.hashTable, db.bm.hashTable.ht, db.bm.hashTable.Repr, db.bm.disk, db.bm.mems
    ensures fresh(db.bm.hashTable.Repr - old(db.bm.hashTable.Repr)) && fresh(hfs)
    ensures Over(db, hfs) && hfs.filePtr == FileRef(fileName)
    ensures numItems <= buffer.Length && (numItems == 0 <==> AllEntries(old(SourceOf(db, fileName, owed))) == [])
    ensures FirstTaken(db, fileName) == old(FirstTaken(db, fileName))
    ensures |Now(db, hfs).pool.upl| == |old(db.PoolNow()).upl| - 2
  {
    hide ChainedHash.HashTable.Valid, BufMgr.Wired, BufMgr.Abs, BufMgr.Valid, Inv, LeavesOthers, Stored, HeapIn;
    hide TableOK, CountsOf, AllEntries, SourceOK, FromSource, RunName, Scanning, Now, Over, DB.Valid, KeepsStored;
    hide SourceOf, DB.Counts, DB.PoolNow;
    ghost var p := db.PoolNow();
    hfs := OpenSource(db, fileName, k, float, owed);
    ghost var n := Now(db, hfs);
    SameName(p, owed, n.pool, n.owed, fileName, 0);
    numItems := FillOver(db, hfs, k, buffer, old(SourceOf(db, fileName, owed)), 0);
    FirstKept(db, hfs, n, fileName);
  }

  /** The name of the first run has been taken. */
  ghost predicate FirstTaken(db: DB, fileName: string)
    reads db, db.openFiles, db.openFiles.ht, db.openFiles.Repr, db.files
    reads db.bm, db.bm.bufTable, db.bm.hashTable, db.bm.hashTable.ht, db.bm.hashTable.Repr, db.bm.disk, db.bm.mems
  {
    db.Valid() && NameTaken(db.Counts(), db.PoolNow().disk, RunName(fileName, 0))
  }

  lemma FirstKept(db: DB, hfs: HeapFile, n: Snapshot, fileName: string)
    requires var n' := Now(db, hfs); var f := FileRef(fileName);
      Over(db, hfs) && KeepsStored(n.pool, n.owed, n'.pool, n'.owed, f, f)
    requires Now(db, hfs).counts == n.counts
    ensures FirstTaken(db, fileName) <==> Taken(n, RunName(fileName, 0))
  {
    hide ChainedHash.HashTable.Valid, BufMgr.Wired, BufMgr.Abs, BufMgr.Valid, Inv, Stored, HeapIn, RunName;
    hide DB.Counts, DB.PoolNow, DB.Valid, Over, Now, Scanning;
    NowIs(db, hfs);
    OverPool(db, hfs);
    RunNamesApart(fileName, 0, 0);
  }

  lemma SameName(p: Pool, s: set<Key>, q: Pool, t: set<Key>, fileName: string, i: nat)
    requires LeavesOthers(p, s, q, t, FileRef(fileName))
    ensures FileRef(RunName(fileName, i)) in p.disk <==> FileRef(RunName(fileName, i)) in q.disk
  {
    hide RunName, Inv, Coherent, SameTo, SameAside, Anchored;
    RunNamesApart(fileName, i, i);
  }

  /** What comes of the constructor as it is written: with good arguments it succeeds exactly for an empty
      source.  UNIXERR is what openFile returns for the run file; HeapFile's constructor drops it and goes
      on through a File that openFile has deleted, so from there on nothing is certain. */
  ghost function WrittenStatus(db: DB, fileName: string, k: SortKey, maxItems: int, owed: set<Key>): (status: Status)
    reads db, db.openFiles, db.openFiles.ht, db.openFiles.Repr, db.files
    reads db.bm, db.bm.bufTable, db.bm.hashTable, db.bm.hashTable.ht, db.bm.hashTable.Repr, db.bm.disk, db.bm.mems
    requires KeyOK(k) && 2 <= maxItems ==> db.Valid()
    ensures status == OK <==> KeyOK(k) && 2 <= maxItems && AllEntries(SourceOf(db, fileName, owed)) == []
  {
    if !KeyOK(k) then BADSORTPARM
    else if maxItems < 2 then INSUFMEM
    else if AllEntries(SourceOf(db, fileName, owed)) == [] then OK
    else if FirstTaken(db, fileName) then FILEEXISTS
    else UNIXERR
  }

  /** The constructor as it is written, where generateRun destroys its run file before it opens it. */
  method SortAsWritten(db: DB, fileName: string, k: SortKey, maxItems: int, float: seq<byte> -> real,
      ghost owed: set<Key>) returns (status: Status)
    requires KeyOK(k) && 2 <= maxItems ==> SourceThere(db, fileName, k, owed)
    modifies db`files, db.openFiles, db.openFiles.ht, db.openFiles.Repr, db.files
    modifies db.bm, db.bm.bufTable, db.bm.hashTable, db.bm.hashTable.ht, db.bm.hashTable.Repr, db.bm.disk, db.bm.mems
    ensures status == old(WrittenStatus(db, fileName, k, maxItems, owed))
    ensures KeyOK(k) && 2 <= maxItems ==>
      db.bm.Valid() && |db.bm.Abs().upl| == |old(db.PoolNow()).upl| - if status == OK then 0 else 2
  {
    if k.offset < 0 || k.length < 1 {
      return BADSORTPARM;
    }
    if (k.attr == INTEGER && k.length != 4) || (k.attr == FLOAT && k.length != 4) {
      return BADSORTPARM;
    }
    if maxItems < 2 {
      return INSUFMEM;
    }
    status := SplitAsWritten(db, fileName, k, maxItems, float, owed);
  }

  /** sortFile as it is written: it ends at its first run. */
  method SplitAsWritten(db: DB, fileName: string, k: SortKey, maxItems: int, float: seq<byte> -> real,
      ghost owed: set<Key>) returns (status: Status)
    requires SourceThere(db, fileName, k, owed) && KeyOK(k) && 2 <= maxItems
    modifies db`files, db.openFiles, db.openFiles.ht, db.openFiles.Repr, db.files
    modifies db.bm, db.bm.bufTable, db.bm.hashTable, db.bm.hashTable.ht, db.bm.hashTable.Repr, db.bm.disk, db.bm.mems
    ensures status == old(WrittenStatus(db, fileName, k, maxItems, owed))
    ensures db.bm.Valid() && |db.bm.Abs().upl| == |old(db.PoolNow()).upl| - if status == OK then 0 else 2
  {
    hide ChainedHash.HashTable.Valid, BufMgr.Wired, BufMgr.Abs, BufMgr.Valid, Inv, AllEntries, SourceOf, Stored;
    hide DB.Valid, DB.Counts, DB.PoolNow, FirstTaken, SourceOK, Over, Now;
    var buffer := new SortRec[maxItems](i => SortRec(NULLRID, []));
    status := FirstAsWritten(db, fileName, k, buffer, float, owed);
  }

  /** The same, with the buffer of the keys. */
  method FirstAsWritten(db: DB, fileName: string, k: SortKey, buffer: array<SortRec>, float: seq<byte> -> real,
      ghost owed: set<Key>) returns (status: Status)
    requires SourceThere(db, fileName, k, owed) && KeyOK(k) && 2 <= buffer.Length
    modifies buffer, db`files, db.openFiles, db.openFiles.ht, db.openFiles.Repr, db.files
    modifies db.bm, db.bm.bufTable, db.bm.hashTable, db.bm.hashTable.ht, db.bm.hashTable.Repr, db.bm.disk, db.bm.mems
    ensures status == old(WrittenStatus(db, fileName, k, buffer.Length, owed))
    ensures db.bm.Valid() && |db.bm.Abs().upl| == |old(db.PoolNow()).upl| - if status == OK then 0 else 2
  {
    hide ChainedHash.HashTable.Valid, BufMgr.Wired, BufMgr.Abs, BufMgr.Valid, Inv, AllEntries, SourceOf, Stored;
    hide DB.Valid, DB.Counts, DB.PoolNow, FirstTaken, SourceOK, Over, Now;
    var hfs, numItems := ReadFirst(db, fileName, k, float, buffer, owed);
    status := EndAsWritten(db, hfs, k, buffer, numItems, fileName);
  }

  /** The rest of it: an empty source is closed, any other gets its first run. */
  method EndAsWritten(db: DB, hfs: HeapFile, k: SortKey, buffer: array<SortRec>, items: nat, fileName: string)
    returns (status: Status)
    requires Over(db, hfs) && hfs.filePtr == FileRef(fileName) && items <= buffer.Length
    modifies buffer, hfs`touched, db`files, db.openFiles, db.openFiles.ht, db.openFiles.Repr, db.files
    modifies db.bm, db.bm.bufTable, db.bm.hashTable, db.bm.hashTable.ht, db.bm.hashTable.Repr, db.bm.disk, db.bm.mems
    ensures status == if items == 0 then OK else if old(FirstTaken(db, fileName)) then FILEEXISTS else UNIXERR
    ensures db.bm.Valid() && |db.bm.Abs().upl| == |old(Now(db, hfs)).pool.upl| + if items == 0 then 2 else 0
  {
    hide ChainedHash.HashTable.Valid, BufMgr.Wired, BufMgr.Abs, BufMgr.Valid, Inv, AllEntries, SourceOf, Stored;
    hide DB.Valid, DB.Counts, DB.PoolNow, FirstTaken, SourceOK, Over, Now;
    if items == 0 {
      CloseSource(db, hfs, fileName, []);
      status := OK;
    } else {
      NowIs(db, hfs);
      OverPool(db, hfs);
      status := RunAsWritten(db, hfs, k, buffer, items, fileName);
    }
  }

  /** generateRun as it is written, for the first run. */
  method RunAsWritten(db: DB, hfs: HeapFile, k: SortKey, buffer: array<SortRec>, items: nat, fileName: string)
    returns (status: Status)
    requires Over(db, hfs) && items <= buffer.Length
    modifies buffer, db`files, db.openFiles, db.openFiles.ht, db.files, db.bm.disk
    ensures status == if old(FirstTaken(db, fileName)) then FILEEXISTS else UNIXERR
    ensures db.bm.Valid() && db.bm.Abs() == old(db.bm.Abs())
  {
    hide ChainedHash.HashTable.Valid, BufMgr.Wired, BufMgr.Valid, Inv, AllEntries, FieldLe, FieldsComparable;
    hide FieldsSorted, RunName, TableOK, CountsOf, Scanning, PoolRing.Ring, PoolRing.FramesOf;
    db.BufValid();
    RunNamesApart(fileName, 0, 0);
    QSort(k, buffer, items);
    var file;
    status, file := db.OpenTested(RunName(fileName, 0));
  }
}
