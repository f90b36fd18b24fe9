/** The first part of part3/testfile.C: create a heap file, fill it, scan it. */
module RoundTrips {
  import opened StatusCodes
  import opened PageSpec
  import opened FileSpec
  import opened Disks
  import opened PoolSpec
  import opened PoolRefinement
  import opened PoolClient
  import opened PoolRing
  import opened BufMgrs
  import opened HeapSpec
  import opened HeapLayout
  import opened HeapSession
  import opened HeapCreation
  import opened Interference
  import opened OpenFiles
  import opened Queries
  import opened Bytes
  import ChainedHash

  /** A heap file just created, filled and scanned. */
  method FillScan(db: DB, f: FileRef, float: seq<byte> -> real, rs: seq<Rec>, ghost owed: set<Key>)
    returns (out: seq<Entry>, ghost owed': set<Key>)
    requires db.Valid() && Sealed(db.bm.Abs(), f, owed)
    requires (forall i :: 0 <= i < |rs| ==> 1 <= |rs[i]| <= MAXREC) && Fits(FreshInserting(FIRSTDATA), rs)
    modifies db.bm, db.bm.bufTable, db.bm.hashTable, db.bm.hashTable.ht, db.bm.hashTable.Repr, db.bm.disk, db.bm.mems
    ensures fresh(db.bm.hashTable.Repr - old(db.bm.hashTable.Repr)) && db.Valid() && db.Counts() == old(db.Counts())
    ensures Records(out) == rs && Openable(db.bm.Abs(), f, owed') && Closed(db.bm.Abs(), f)
    ensures |db.bm.Abs().disk[f]| == InsertAll(FreshInserting(FIRSTDATA), rs).next
  {
    hide ChainedHash.HashTable.Valid, BufMgr.Valid, BufMgr.Wired, BufMgr.Abs, Inv, Coherent, HeapInv, PageInv;
    hide InsertAll, AllEntries, TableOK, CountsOf, Fits, Openable, Closed, ViewOf, Described;
    db.BufValid();
    FirstIs(db.bm.Abs(), f, owed);
    assert HeapOf(ViewOf(db.bm.Abs(), f)) == FreshHeap(FIRSTDATA);
    out, owed' := LoadThenScan(db.bm, f, float, rs, owed);
    db.BufValid();
  }

  /** A heap file just created, filled and closed. */
  method FillStored(db: DB, f: FileRef, float: seq<byte> -> real, rs: seq<Rec>, ghost owed: set<Key>)
    returns (ghost owed': set<Key>)
    requires db.Valid() && Sealed(db.bm.Abs(), f, owed)
    requires (forall i :: 0 <= i < |rs| ==> 1 <= |rs[i]| <= MAXREC) && Fits(FreshInserting(FIRSTDATA), rs)
    modifies db.bm, db.bm.bufTable, db.bm.hashTable, db.bm.hashTable.ht, db.bm.hashTable.Repr, db.bm.disk, db.bm.mems
    ensures fresh(db.bm.hashTable.Repr - old(db.bm.hashTable.Repr)) && db.Valid() && db.Counts() == old(db.Counts())
    ensures Stored(db.PoolNow(), f, owed') && Records(AllEntries(HeapIn(db.PoolNow(), f, owed'))) == rs
    ensures HeapIn(db.PoolNow(), f, owed') == InsertAll(FreshInserting(FIRSTDATA), rs).file
    ensures RightCount(ViewOf(db.PoolNow(), f))
    ensures LeavesOthers(old(db.PoolNow()), owed, db.PoolNow(), owed', f)
    ensures |db.PoolNow().upl| == |old(db.PoolNow()).upl|
  {
    hide ChainedHash.HashTable.Valid, BufMgr.Valid, BufMgr.Wired, BufMgr.Abs, Inv, Coherent, HeapInv, PageInv;
    hide InsertAll, AllEntries, TableOK, CountsOf, Fits, IsHeapFile, Closed, ViewOf, Described, LeavesOthers;
    hide RightCount;
    db.BufValid();
    FirstIs(db.bm.Abs(), f, owed);
    assert HeapOf(ViewOf(db.bm.Abs(), f)) == FreshHeap(FIRSTDATA);
    FreshCount(ViewOf(db.bm.Abs(), f));
    owed' := LoadFile(db.bm, f, float, rs, owed);
    FreshScan(FIRSTDATA, rs);
    db.BufValid();
  }

  /** The record count of a new file is right. */
  lemma FreshCount(v: FileView)
    requires HeapOK(v) && HeapOf(v) == FreshHeap(FIRSTDATA) && CountIn(v) == 0
    ensures RightCount(v)
  {
    FreshIsPacked(FIRSTDATA, 1);
  }

  /** A new heap file, filled and closed. */
  method CreateFill(db: DB, fileName: string, float: seq<byte> -> real, rs: seq<Rec>, ghost owed: set<Key>)
    returns (status: Status, ghost owed': set<Key>)
    requires db.Valid() && Coherent(db.bm.Abs(), owed) && NoneOf(owed, FileRef(fileName)) && |db.bm.Abs().upl| >= 2
    requires (forall i :: 0 <= i < |rs| ==> 1 <= |rs[i]| <= MAXREC) && Fits(FreshInserting(FIRSTDATA), rs)
    modifies db`files, db.openFiles, db.openFiles.ht, db.openFiles.Repr, db.files
    modifies db.bm, db.bm.bufTable, db.bm.hashTable, db.bm.hashTable.ht, db.bm.hashTable.Repr, db.bm.disk, db.bm.mems
    ensures fresh(db.openFiles.Repr - old(db.openFiles.Repr)) && fresh(db.bm.hashTable.Repr - old(db.bm.hashTable.Repr))
    ensures fresh(db.files - old(db.files)) && db.Valid() && db.Counts() == old(db.Counts())
    ensures status == if fileName == "" then BADFILE
      else if fileName in old(db.Counts()) || FileRef(fileName) in old(db.bm.disk.files) then FILEEXISTS else OK
    ensures var p, f := db.PoolNow(), FileRef(fileName); status == OK ==>
      && Stored(p, f, owed') && Records(AllEntries(HeapIn(p, f, owed'))) == rs
      && HeapIn(p, f, owed') == InsertAll(FreshInserting(FIRSTDATA), rs).file && RightCount(ViewOf(p, f))
      && LeavesOthers(old(db.PoolNow()), owed, p, owed', f) && |p.upl| == |old(db.PoolNow()).upl|
  {
    hide ChainedHash.HashTable.Valid, BufMgr.Valid, BufMgr.Wired, BufMgr.Abs, Inv, Coherent, HeapInv, PageInv;
    hide Openable, Stored, HeapIn, Closed, ViewOf, Described, LeavesOthers, DB.PoolNow, DB.Valid, DB.Counts;
    hide RightCount;
    hide InsertAll, AllEntries, TableOK, CountsOf, NoneOf, OnDisk, Fits, Sealed;
    owed' := owed;
    status := CreateHeapFile(db, fileName, owed);
    if status == OK {
      ghost var q := db.PoolNow();
      owed' := FillStored(db, FileRef(fileName), float, rs, owed);
      LeavesTrans(old(db.PoolNow()), owed, q, owed, db.PoolNow(), owed', FileRef(fileName));
    }
  }

  /** A new heap file filled through one insertion scan scans back the records in order, and the
      unix file has exactly the pages that the insertions call for. */
  method CreateFillScan(db: DB, fileName: string, float: seq<byte> -> real, rs: seq<Rec>, ghost owed: set<Key>)
    returns (status: Status, out: seq<Entry>, ghost owed': set<Key>)
    requires db.Valid() && Coherent(db.bm.Abs(), owed) && NoneOf(owed, FileRef(fileName)) && |db.bm.Abs().upl| >= 2
    requires (forall i :: 0 <= i < |rs| ==> 1 <= |rs[i]| <= MAXREC) && Fits(FreshInserting(FIRSTDATA), rs)
    modifies db`files, db.openFiles, db.openFiles.ht, db.openFiles.Repr, db.files
    modifies db.bm, db.bm.bufTable, db.bm.hashTable, db.bm.hashTable.ht, db.bm.hashTable.Repr, db.bm.disk, db.bm.mems
    ensures fresh(db.openFiles.Repr - old(db.openFiles.Repr)) && fresh(db.bm.hashTable.Repr - old(db.bm.hashTable.Repr))
    ensures db.Valid() && db.Counts() == old(db.Counts())
    ensures status == if fileName == "" then BADFILE
      else if fileName in old(db.Counts()) || FileRef(fileName) in old(db.bm.disk.files) then FILEEXISTS else OK
    ensures status == OK ==> Records(out) == rs
    ensures status == OK ==> var f := FileRef(fileName);
      Openable(db.bm.Abs(), f, owed') && Closed(db.bm.Abs(), f)
    ensures status == OK ==> |db.bm.Abs().disk[FileRef(fileName)]| == InsertAll(FreshInserting(FIRSTDATA), rs).next
  {
    hide ChainedHash.HashTable.Valid, BufMgr.Valid, BufMgr.Wired, BufMgr.Abs, Inv, Coherent, HeapInv, PageInv, Openable;
    hide Closed, ViewOf, Described, DB.PoolNow, DB.Valid, DB.Counts, LeavesOthers;
    hide InsertAll, AllEntries, TableOK, CountsOf, NoneOf, OnDisk, Fits, Sealed;
    out, owed' := [], owed;
    status := CreateHeapFile(db, fileName, owed);
    if status == OK {
      out, owed' := FillScan(db, FileRef(fileName), float, rs, owed);
    }
  }

  /** A database of one heap file, filled and closed, over a pool of `bufs` frames. */
  ghost predicate OneFile(db: DB, bufs: nat, fileName: string, rs: seq<Rec>, owed: set<Key>)
    reads db, db.openFiles, db.openFiles.ht, db.openFiles.Repr, db.files
    reads db.bm, db.bm.bufTable, db.bm.hashTable, db.bm.hashTable.ht, db.bm.hashTable.Repr, db.bm.disk, db.bm.mems
  {
    var p, f := db.PoolNow(), FileRef(fileName);
    && db.Valid() && db.Counts() == map[] && |p.upl| == bufs && (forall g: FileRef :: g in p.disk ==> g == f)
    && Stored(p, f, owed) && HeapIn(p, f, owed) == InsertAll(FreshInserting(FIRSTDATA), rs).file
    && Records(AllEntries(HeapIn(p, f, owed))) == rs
  }

  /** No file on disk and none open. */
  method NewDatabase(bufs: nat, pageHash: Key -> int, nameHash: string -> int) returns (db: DB)
    requires 0 < bufs
    ensures fresh(db) && fresh(db.openFiles) && fresh(db.openFiles.ht) && fresh(db.openFiles.Repr) && fresh(db.files)
    ensures fresh(db.bm) && fresh(db.bm.bufTable) && fresh(db.bm.hashTable) && fresh(db.bm.hashTable.ht)
    ensures fresh(db.bm.hashTable.Repr) && fresh(db.bm.disk) && fresh(db.bm.mems)
    ensures db.Valid() && db.Counts() == map[] && Coherent(db.PoolNow(), {})
    ensures |db.PoolNow().upl| == bufs && db.PoolNow().disk == map[] == db.bm.disk.files
  {
    hide ChainedHash.HashTable.Valid, BufMgr.Wired, BufMgr.Abs, BufMgr.Memory, Inv, TableOK;
    var disk := new Disk();
    var bm := new BufMgr(bufs, disk, pageHash);
    EmptyFacts(bm, bufs);
    db := new DB(bm, nameHash);
    db.BufValid();
  }

  lemma EmptyFacts(bm: BufMgr, bufs: nat)
    requires bm.Valid() && bm.numBufs == bufs && bm.disk.files == map[]
    requires bm.Abs() == EmptyPool(bufs, bm.Memory(), map[])
    ensures Inv(bm.Abs()) && Coherent(bm.Abs(), {}) && |bm.Abs().upl| == bufs && bm.Abs().disk == map[]
  {
    hide ChainedHash.HashTable.Valid;
    EmptyShowsDisk(bufs, bm.Memory(), map[], map[], Key(FileRef(""), 0));
  }

  /** A new database with a file of the given records. */
  method NewFile(bufs: nat, pageHash: Key -> int, nameHash: string -> int, float: seq<byte> -> real, fileName: string,
      rs: seq<Rec>) returns (db: DB, ghost owed: set<Key>)
    requires 2 <= bufs && fileName != ""
    requires (forall i :: 0 <= i < |rs| ==> 1 <= |rs[i]| <= MAXREC) && Fits(FreshInserting(FIRSTDATA), rs)
    ensures fresh(db) && fresh(db.openFiles) && fresh(db.openFiles.ht) && fresh(db.openFiles.Repr) && fresh(db.files)
    ensures fresh(db.bm) && fresh(db.bm.bufTable) && fresh(db.bm.hashTable) && fresh(db.bm.hashTable.ht)
    ensures fresh(db.bm.hashTable.Repr) && fresh(db.bm.disk) && fresh(db.bm.mems)
    ensures OneFile(db, bufs, fileName, rs, owed)
  {
    hide ChainedHash.HashTable.Valid, BufMgr.Wired, BufMgr.Abs, BufMgr.Valid, Inv, TableOK, CountsOf, Coherent;
    hide Stored, HeapIn, InsertAll, AllEntries, LeavesOthers, Fits, DB.Valid, DB.Counts, DB.PoolNow;
    hide RightCount, ViewOf;
    db := NewDatabase(bufs, pageHash, nameHash);
    db.BufValid();
    ghost var p := db.PoolNow();
    var status;
    status, owed := CreateFill(db, fileName, float, rs, {});
    OnlyFile(p, {}, db.PoolNow(), owed, FileRef(fileName));
  }

  lemma OnlyFile(p: Pool, s: set<Key>, q: Pool, t: set<Key>, f: FileRef)
    requires LeavesOthers(p, s, q, t, f) && forall g: FileRef :: g in p.disk ==> g == f
    ensures forall g: FileRef :: g in q.disk ==> g == f
  {
    hide Inv, Coherent, SameTo, SameAside;
  }

  /** The 10000 records of 72 bytes of the test fit, and the file that CreateFillScan makes of them
      has 782336 bytes. */
  lemma TestFileSize(rs: seq<Rec>)
    requires |rs| == 10000 && forall i :: 0 <= i < |rs| ==> |rs[i]| == 72
    ensures Fits(FreshInserting(FIRSTDATA), rs)
    ensures InsertAll(FreshInserting(FIRSTDATA), rs).next * PAGESIZE == 782336
  {
    hide InsertAll, PagesFor, AllEntries;
    FreshFill(FIRSTDATA, rs, 72);
    TestPages();
  }

  lemma TestPages()
    ensures PagesFor(10000, 72) == 189
  {
  }
}
