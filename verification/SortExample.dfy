/** The sort of a small file over the 100 frames that the program gives its pool: where it stops working
    as it is meant, and that it does not work at all as it is written. */
module SortExamples {
  import opened StatusCodes
  import opened PageSpec
  import opened Disks
  import opened PoolSpec
  import opened HeapSpec
  import opened Bytes
  import opened BufMgrs
  import opened HeapSession
  import opened HeapLayout
  import opened OpenFiles
  import opened Queries
  import opened RoundTrips
  import opened SortSpec
  import opened SortRuns
  import opened Sorts
  import ChainedHash

  /** Records that have the sort key, few enough for any run of them to fit in its file. */
  predicate Small(k: SortKey, rs: seq<Rec>) {
    1 <= |rs| <= DIRCNT - 2 && forall i :: 0 <= i < |rs| ==> HasKey(k, rs[i]) && |rs[i]| <= MAXREC
  }

  lemma SmallFits(k: SortKey, rs: seq<Rec>)
    requires Small(k, rs)
    ensures (forall i :: 0 <= i < |rs| ==> 1 <= |rs[i]| <= MAXREC) && Fits(FreshInserting(FIRSTDATA), rs)
  {
    hide Fits;
    SmallRunsFit(multiset(rs), |rs|);
  }

  lemma SmallSource(db: DB, fileName: string, k: SortKey, rs: seq<Rec>, owed: set<Key>)
    requires Small(k, rs) && OneFile(db, 100, fileName, rs, owed)
    ensures SourceReady(db, fileName, k, 2, owed) && Records(AllEntries(SourceOf(db, fileName, owed))) == rs
    ensures |AllEntries(SourceOf(db, fileName, owed))| == |rs| && !FirstTaken(db, fileName)
    ensures forall n: nat :: !RunTaken(db.Counts(), db.PoolNow().disk, fileName, n, 2)
  {
    hide ChainedHash.HashTable.Valid, BufMgr.Wired, BufMgr.Abs, BufMgr.Valid, Inv, InsertAll, AllEntries, HeapInv;
    hide DB.Valid, DB.Counts, DB.PoolNow, RunName, Stored, HeapIn, RunsFit;
    forall i: nat ensures FileRef(RunName(fileName, i)) !in db.PoolNow().disk {
      RunNamesApart(fileName, i, i);
    }
    PageEach(FIRSTDATA, rs);
    FreshScan(FIRSTDATA, rs);
    forall e: nat | e < |AllEntries(SourceOf(db, fileName, owed))|
      ensures |AllEntries(SourceOf(db, fileName, owed))[e].rec| <= MAXREC
    {
      assert rs[e] == AllEntries(SourceOf(db, fileName, owed))[e].rec;
    }
    SmallRunsFit(multiset(Records(AllEntries(SourceOf(db, fileName, owed)))), 2);
  }

  /** What comes of sorting it two records at a time. */
  lemma SmallStatus(db: DB, fileName: string, k: SortKey, rs: seq<Rec>, owed: set<Key>)
    requires Small(k, rs) && OneFile(db, 100, fileName, rs, owed)
    ensures MaySort(db, fileName, k, 2, owed) && SourceThere(db, fileName, k, owed) && db.Valid()
    ensures Records(AllEntries(SourceOf(db, fileName, owed))) == rs
    ensures SortStatus(db, fileName, k, 2, owed) == if |rs| <= 100 then OK else BUFFEREXCEEDED
    ensures WrittenStatus(db, fileName, k, 2, owed) == UNIXERR
  {
    hide ChainedHash.HashTable.Valid, BufMgr.Wired, BufMgr.Abs, BufMgr.Valid, Inv, AllEntries, HeapInv, Stored, HeapIn;
    hide DB.Valid, DB.Counts, DB.PoolNow, RunsFit, SourceOf, InsertAll, RunTaken, FirstTaken;
    SmallSource(db, fileName, k, rs, owed);
    assert HasKey(k, rs[0]);
  }

  /** Over the 100 frames of the program, a sort two records at a time sorts 100 records, and no
      more: 101 records make 51 runs, whose scans would pin 102 frames. */
  method FiftyOneRuns(pageHash: Key -> int, nameHash: string -> int, float: seq<byte> -> real, k: SortKey,
      rs: seq<Rec>) returns (status: Status, out: seq<Rec>)
    requires Small(k, rs)
    ensures status == if |rs| <= 100 then OK else BUFFEREXCEEDED
    ensures status == OK ==> multiset(out) == multiset(rs) && (Sortable(k, multiset(rs)) ==> InKeyOrder(k, out))
  {
    hide ChainedHash.HashTable.Valid, BufMgr.Wired, BufMgr.Abs, BufMgr.Valid, Inv, InsertAll, AllEntries, HeapInv;
    hide DB.Valid, DB.Counts, DB.PoolNow, OneFile, SourceThere, Fits, SourceOf, Sortable, InKeyOrder, Small, SortStatus;
    hide MaySort, WrittenStatus;
    SmallFits(k, rs);
    var db, owed := NewFile(100, pageHash, nameHash, float, "f", rs);
    SmallStatus(db, "f", k, rs, owed);
    status, out := SortThenDrain(db, "f", k, 2, float, owed);
  }

  /** As it is written, the sort of those records cannot open its first run, whatever their number. */
  method FirstRunMissing(pageHash: Key -> int, nameHash: string -> int, float: seq<byte> -> real, k: SortKey,
      rs: seq<Rec>) returns (status: Status)
    requires Small(k, rs)
    ensures status == UNIXERR
  {
    hide ChainedHash.HashTable.Valid, BufMgr.Wired, BufMgr.Abs, BufMgr.Valid, Inv, InsertAll, AllEntries, HeapInv;
    hide DB.Valid, DB.Counts, DB.PoolNow, OneFile, SourceThere, Fits, SourceOf, Sortable, InKeyOrder, Small, SortStatus;
    hide MaySort, WrittenStatus;
    SmallFits(k, rs);
    var db, owed := NewFile(100, pageHash, nameHash, float, "f", rs);
    SmallStatus(db, "f", k, rs, owed);
    status := SortAsWritten(db, "f", k, 2, float, owed);
  }
}
