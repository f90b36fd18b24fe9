/** Generating the runs of an external sort (sort.C): batches of keys are read from a scan of the
    source, sorted in memory, and the records they were copied from written to run files. */
module SortRuns {
  import opened Bytes
  import opened StatusCodes
  import opened PageSpec
  import opened FileSpec
  import opened Disks
  import opened PoolSpec
  import opened PoolRefinement
  import opened PoolClient
  import opened BufMgrs
  import opened HeapSpec
  import opened HeapLayout
  import opened HeapClient
  import opened HeapSession
  import opened Interference
  import opened HeapFiles
  import opened OpenFiles
  import opened HeapCreation
  import opened Queries
  import opened Comparing
  import opened Together
  import opened SharedFiles
  import opened SortSpec
  import ChainedHash
  import PoolRing

  // ----- Names of run files -----

  function Digit(d: nat): char
    requires d < 10
  {
    "0123456789"[d]
  }

  function Decimal(n: nat): (s: string)
    ensures s != ""
  {
    if n < 10 then [Digit(n)] else Decimal(n / 10) + [Digit(n % 10)]
  }

  lemma {:induction false} DecimalApart(m: nat, n: nat)
    requires Decimal(m) == Decimal(n)
    ensures m == n
  {
    var s, t := Decimal(m), Decimal(n);
    assert s[|s| - 1] == Digit(m % 10) && t[|t| - 1] == Digit(n % 10);
    assert s[..|s| - 1] == if m < 10 then "" else Decimal(m / 10);
    assert t[..|t| - 1] == if n < 10 then "" else Decimal(n / 10);
    if m >= 10 && n >= 10 {
      DecimalApart(m / 10, n / 10);
    }
  }

  /** The name of the run of a file that comes after i others. */
  function RunName(fileName: string, i: nat): string { fileName + ".sort." + Decimal(i + 1) }

  /** The number that a string of digits writes. */
  function NumberIn(s: string): int {
    if s == "" then 0 else 10 * NumberIn(s[..|s| - 1]) + (s[|s| - 1] as int - '0' as int)
  }

  lemma {:induction false} DecimalIs(n: nat)
    ensures NumberIn(Decimal(n)) == n && (forall c :: c in Decimal(n) ==> '0' <= c <= '9')
    ensures Decimal(n)[0] != '0' || n == 0
  {
    var s := Decimal(n);
    assert Digit(n % 10) as int == n % 10 + '0' as int;
    if n >= 10 {
      DecimalIs(n / 10);
      assert s[..|s| - 1] == Decimal(n / 10);
    } else {
      assert s[..0] == "";
    }
  }

  /** The runs are numbered from 1 on: "f.sort.1", "f.sort.2" and so on. */
  lemma RunNameIs(fileName: string, i: nat)
    ensures var n := |fileName| + 6;
      && |RunName(fileName, i)| > n && RunName(fileName, i)[..n] == fileName + ".sort."
      && NumberIn(RunName(fileName, i)[n..]) == i + 1 && RunName(fileName, i)[n] != '0'
      && forall c :: c in RunName(fileName, i)[n..] ==> '0' <= c <= '9'
  {
    DecimalIs(i + 1);
    var n := |fileName| + 6;
    assert RunName(fileName, i)[n..] == Decimal(i + 1) && RunName(fileName, i)[..n] == fileName + ".sort.";
    assert RunName(fileName, i)[n] == RunName(fileName, i)[n..][0];
  }

  lemma RunNamesApart(fileName: string, i: nat, j: nat)
    ensures RunName(fileName, i) == RunName(fileName, j) ==> i == j
    ensures RunName(fileName, i) != fileName && RunName(fileName, i) != ""
  {
    var n := |fileName| + |".sort."|;
    assert RunName(fileName, i)[n..] == Decimal(i + 1) && RunName(fileName, j)[n..] == Decimal(j + 1);
    if RunName(fileName, i) == RunName(fileName, j) {
      DecimalApart(i + 1, j + 1);
    }
  }

  // ----- The buffer -----

  /** The records that the sort records stand for. */
  function Fetched(h: Heap, s: seq<SortRec>): (rs: seq<Rec>)
    ensures |rs| == |s|
  {
    seq(|s|, i requires 0 <= i < |s| => RecordAt(h, s[i].rid))
  }

  /** x is a key copied from a record of the file. */
  ghost predicate Tagged(k: SortKey, h: Heap, x: SortRec) {
    && SlotThere(h, x.rid) && LiveThere(h, x.rid)
    && HasKey(k, RecordAt(h, x.rid)) && Field(k, RecordAt(h, x.rid)) == x.field
  }

  lemma {:induction false} FetchedElements(h: Heap, s: seq<SortRec>, t: seq<SortRec>)
    requires multiset(s) == multiset(t)
    ensures multiset(Fetched(h, s)) == multiset(Fetched(h, t))
    decreases |s|
  {
    hide RecordAt;
    SameSize(s, t);
    if s != [] {
      assert s[0] in multiset(t);
      var j :| 0 <= j < |t| && t[j] == s[0];
      var rest := t[..j] + t[j + 1..];
      RemoveBoth(s, t, j);
      FetchedElements(h, s[1..], rest);
      FetchedSplit(h, t, j);
      assert Fetched(h, s) == [RecordAt(h, s[0].rid)] + Fetched(h, s[1..]);
    }
  }

  lemma RemoveBoth(s: seq<SortRec>, t: seq<SortRec>, j: nat)
    requires multiset(s) == multiset(t) && s != [] && j < |t| && t[j] == s[0]
    ensures multiset(s[1..]) == multiset(t[..j] + t[j + 1..])
  {
    var x := [s[0]];
    Joined(x, s[1..], []);
    Joined(t[..j], x, t[j + 1..]);
    assert s == x + s[1..] + [] && t == t[..j] + x + t[j + 1..];
    Cancel(multiset(s[1..]), multiset(t[..j] + t[j + 1..]), multiset(x));
  }

  lemma Joined(a: seq<SortRec>, b: seq<SortRec>, c: seq<SortRec>)
    ensures multiset(a + b + c) == multiset(a + c) + multiset(b) == multiset(b + c) + multiset(a)
  {
  }

  lemma Cancel(a: multiset<SortRec>, b: multiset<SortRec>, c: multiset<SortRec>)
    requires a + c == b + c
    ensures a == b
  {
    assert a == (a + c) - c && b == (b + c) - c;
  }

  lemma FetchedSplit(h: Heap, t: seq<SortRec>, j: nat)
    requires j < |t|
    ensures multiset(Fetched(h, t)) == multiset{RecordAt(h, t[j].rid)} + multiset(Fetched(h, t[..j] + t[j + 1..]))
  {
    var rest := t[..j] + t[j + 1..];
    var a, b := Fetched(h, t[..j]), Fetched(h, t[j + 1..]);
    assert Fetched(h, t) == a + [RecordAt(h, t[j].rid)] + b;
    assert Fetched(h, rest) == a + b;
  }

  /** Keys in order mean records in order. */
  lemma FetchedSorted(k: SortKey, h: Heap, s: seq<SortRec>)
    requires FieldsSorted(k, s) && forall i :: 0 <= i < |s| ==> Tagged(k, h, s[i])
    ensures Sorted(k, Fetched(h, s))
  {
    hide RecCmp, RecordAt;
    var rs := Fetched(h, s);
    forall i, j | 0 <= i < j < |rs|
      ensures Le(k, rs[i], rs[j])
    {
      assert FieldLe(k, s[i], s[j]) && Tagged(k, h, s[i]) && Tagged(k, h, s[j]);
    }
  }

  /** What generateRun needs of the buffer: keys copied from the records of the source. */
  ghost predicate FromSource(k: SortKey, h: Heap, es: seq<Entry>, s: seq<SortRec>) {
    |s| == |es| &&
      forall i :: 0 <= i < |s| ==>
        es[i] in AllEntries(h) && HasKey(k, es[i].rec) && s[i] == SortRec(es[i].rid, Field(k, es[i].rec))
  }

  lemma NoneFromSource(k: SortKey, h: Heap, a: nat)
    ensures a <= |AllEntries(h)| ==> FromSource(k, h, AllEntries(h)[a..a + 0], [])
  {
  }

  /** One record more read into the buffer. */
  lemma FromSourceNext(k: SortKey, h: Heap, es: seq<Entry>, a: nat, s: seq<SortRec>)
    requires es == AllEntries(h) && a + |s| < |es| && FromSource(k, h, es[a..a + |s|], s) && HasKey(k, es[a + |s|].rec)
    ensures FromSource(k, h, es[a..a + |s| + 1], s + [SortRec(es[a + |s|].rid, Field(k, es[a + |s|].rec))])
  {
    hide AllEntries, HasKey;
    var n := |s|;
    var es' := es[a..a + n + 1];
    var s' := s + [SortRec(es[a + n].rid, Field(k, es[a + n].rec))];
    assert es' == es[a..a + n] + [es[a + n]];
    forall i | 0 <= i <= n
      ensures es'[i] in es && HasKey(k, es'[i].rec) && s'[i] == SortRec(es'[i].rid, Field(k, es'[i].rec))
    {
    }
  }

  /** The buffer stands for the records it was filled from. */
  lemma FromSourceFetched(k: SortKey, h: Heap, es: seq<Entry>, s: seq<SortRec>)
    requires HeapInv(h) && FromSource(k, h, es, s)
    ensures Fetched(h, s) == Records(es) && forall i :: 0 <= i < |s| ==> Tagged(k, h, s[i])
  {
    hide RecordAt, AllEntries, HeapInv;
    forall i | 0 <= i < |s|
      ensures RecordAt(h, s[i].rid) == es[i].rec && Tagged(k, h, s[i])
    {
      EntryRecord(h, es[i]);
    }
  }

  lemma TaggedElements(k: SortKey, h: Heap, s: seq<SortRec>, t: seq<SortRec>)
    requires multiset(s) == multiset(t) && forall i :: 0 <= i < |s| ==> Tagged(k, h, s[i])
    ensures forall i :: 0 <= i < |t| ==> Tagged(k, h, t[i])
  {
    hide Tagged;
    forall i | 0 <= i < |t|
      ensures Tagged(k, h, t[i])
    {
      assert t[i] in multiset(t);
    }
  }

  lemma FromSourceComparable(k: SortKey, h: Heap, es: seq<Entry>, s: seq<SortRec>)
    requires FromSource(k, h, es, s) && Sortable(k, multiset(Records(es)))
    ensures s != [] ==> FieldsComparable(k, s)
  {
    hide AllEntries, Comparable;
    var rs := Records(es);
    forall i, j | 0 <= i < |s| && 0 <= j < |s|
      ensures Comparable(k.attr, s[i].field, s[j].field)
    {
      assert rs[i] in multiset(rs) && rs[j] in multiset(rs);
      assert Comparable(k.attr, Field(k, rs[i]), Field(k, rs[j]));
    }
    if s != [] {
      assert HasKey(k, es[0].rec);
    }
  }

  ghost predicate DataPages(h: Heap) { forall j :: 0 <= j < |h| ==> h[j].no >= FIRSTDATA }

  lemma OneInserted(x: Inserting, r: Rec)
    requires x.at <= |x.file| && DataPages(x.file) && x.next >= FIRSTDATA
    ensures DataPages(InsertOne(x, r).file) && InsertOne(x, r).next >= FIRSTDATA
  {
    hide Target, Inserted;
  }

  /** The pages of a run file come after its header page. */
  lemma {:induction false} FilledPages(rs: seq<Rec>)
    ensures var t := InsertAll(FreshInserting(FIRSTDATA), rs); DataPages(t.file) && t.next >= FIRSTDATA
  {
    hide InsertOne;
    if rs != [] {
      FilledPages(rs[..|rs| - 1]);
      OneInserted(InsertAll(FreshInserting(FIRSTDATA), rs[..|rs| - 1]), rs[|rs| - 1]);
    }
  }

  /** The run that the sorted buffer makes. */
  lemma RunMade(k: SortKey, h: Heap, es: seq<Entry>, s: seq<SortRec>, t: seq<SortRec>, file: Heap)
    requires HeapInv(h) && FromSource(k, h, es, s) && multiset(s) == multiset(t)
    requires FieldsComparable(k, s) ==> FieldsSorted(k, t)
    requires forall i :: 0 <= i < |es| ==> |es[i].rec| <= MAXREC
    requires file == InsertAll(FreshInserting(FIRSTDATA), Fetched(h, t)).file
    ensures var r := Run(file, 0, false, NULLRID, []);
      && RunOK(r) && multiset(Left(r)) == multiset(Records(es)) && |RunRecords(r)| == |es|
    ensures Sortable(k, multiset(Records(es))) ==> Sorted(k, RunRecords(Run(file, 0, false, NULLRID, [])))
  {
    hide RecordAt, HeapInv, FromSource, FieldsComparable, Sortable, Tagged, FieldsSorted, InsertAll, AllEntries, Sorted;
    FromSourceFetched(k, h, es, s);
    FetchedElements(h, s, t);
    TaggedElements(k, h, s, t);
    SameSize(s, t);
    if Sortable(k, multiset(Records(es))) {
      FromSourceComparable(k, h, es, s);
      if s == [] {
        NothingSorted(k, t);
      }
      FetchedSorted(k, h, t);
    }
    var rs := Fetched(h, t);
    forall i | 0 <= i < |rs|
      ensures |rs[i]| <= MAXREC
    {
      assert rs[i] in multiset(rs);
      assert rs[i] in multiset(Records(es));
    }
    FreshScan(FIRSTDATA, rs);
    FilledPages(rs);
    forall e | e in AllEntries(file)
      ensures e.rid.pageNo >= 0
    {
      EntryRecord(file, e);
    }
    var r := Run(file, 0, false, NULLRID, []);
    assert RunRecords(r)[0..] == RunRecords(r);
  }

  lemma NothingSorted(k: SortKey, t: seq<SortRec>)
    requires t == []
    ensures FieldsSorted(k, t)
  {
  }

  // ----- Batches -----

  /** `count` batches of m items, only the last of which may be short, make pos of n items. */
  ghost predicate FullBatches(count: nat, m: int, pos: nat, n: nat) {
    (count - 1) * m < pos <= count * m && (pos < n ==> pos == count * m)
  }

  lemma NoBatches(m: int, n: nat)
    requires 0 < m
    ensures FullBatches(0, m, 0, n)
  {
  }

  lemma OneMoreBatch(count: nat, m: int, pos: nat, items: nat, n: nat)
    requires FullBatches(count, m, pos, n) && 0 < items <= m && pos + items <= n && (items < m ==> pos + items == n)
    ensures FullBatches(count + 1, m, pos + items, n)
  {
    assert (count + 1) * m == count * m + m;
  }

  lemma BatchCount(count: nat, m: int, n: nat)
    requires 0 < m && FullBatches(count, m, n, n)
    ensures count == (n + m - 1) / m
  {
    Quotient(n + m - 1, count, m, n + m - 1 - count * m);
  }


  // ----- Reading the source -----

  /** What the sort asks of its source: a heap file whose records have the key. */
  ghost predicate SourceOK(k: SortKey, h: Heap) {
    && HeapInv(h) && |h| < DIRCNT && Keyed(k, multiset(Records(AllEntries(h))))
    && forall i :: 0 <= i < |AllEntries(h)| ==> |AllEntries(h)[i].rec| <= MAXREC
  }

  lemma SourceKeyed(k: SortKey, h: Heap, i: nat)
    requires SourceOK(k, h) && i < |AllEntries(h)|
    ensures HasKey(k, AllEntries(h)[i].rec) && |h| < DIRCNT
  {
    hide AllEntries, HeapInv, HasKey;
    assert Records(AllEntries(h))[i] == AllEntries(h)[i].rec;
    assert Records(AllEntries(h))[i] in multiset(Records(AllEntries(h)));
  }

  /** An unfiltered scan of a file that nobody else has open, which owes nothing. */
  ghost predicate Scanning(hfs: HeapFile)
    reads hfs, hfs.bm, hfs.bm.bufTable, hfs.bm.hashTable, hfs.bm.hashTable.ht, hfs.bm.hashTable.Repr, hfs.bm.disk
    reads hfs.bm.mems
  {
    hfs.Valid() && hfs.Sole() && Clean(hfs) && hfs.filter == NoFilter
  }

  /** The scan has passed the first `a` records of the file; the last of them are in the buffer. */
  ghost predicate Passed(hfs: HeapFile, k: SortKey, h: Heap, a: nat, s: seq<SortRec>)
    reads hfs, hfs.bm, hfs.bm.bufTable, hfs.bm.hashTable, hfs.bm.hashTable.ht, hfs.bm.hashTable.Repr, hfs.bm.disk
    reads hfs.bm.mems
  {
    && Scanning(hfs) && hfs.Contents() == h && |s| <= a <= |AllEntries(h)| && hfs.Ahead() == AllEntries(h)[a..]
    && FromSource(k, h, AllEntries(h)[a - |s|..a], s)
  }

  lemma PassedSole(hfs: HeapFile, k: SortKey, h: Heap, a: nat, s: seq<SortRec>)
    requires Passed(hfs, k, h, a, s)
    ensures Scanning(hfs) && hfs.Contents() == h && a <= |AllEntries(h)|
  {
  }

  /** One item more read into the buffer, if there is a record left. */
  method ReadItem(hfs: HeapFile, k: SortKey, buffer: array<SortRec>, n: nat, ghost h: Heap, ghost a: nat)
    returns (status: Status)
    requires SourceOK(k, h) && KeyOK(k) && n < buffer.Length && Passed(hfs, k, h, a, buffer[..n])
    modifies hfs`curPage, hfs`curPageNo, hfs`touched, hfs`curIdx, hfs`curRec, buffer
    modifies hfs.bm, hfs.bm.bufTable, hfs.bm.hashTable, hfs.bm.hashTable.ht, hfs.bm.hashTable.Repr, hfs.bm.disk
    modifies hfs.bm.mems
    ensures fresh(hfs.bm.hashTable.Repr - old(hfs.bm.hashTable.Repr))
    ensures status == if a == |AllEntries(h)| then FILEEOF else OK
    ensures status == FILEEOF ==> Passed(hfs, k, h, a, buffer[..n])
    ensures status == OK ==> Passed(hfs, k, h, a + 1, buffer[..n + 1])
    ensures hfs.Spares() && hfs.touched == old(hfs.touched)
  {
    hide ChainedHash.HashTable.Valid, BufMgr.Valid, BufMgr.Wired, BufMgr.Abs, Inv, LeavesOthers, HeapInv, AllEntries;
    hide HeapFile.Valid, HeapFile.Open, HeapFile.View, HeapFile.Sole, HeapFile.Ahead, HeapFile.Contents;
    hide HeapFile.AtRecord, HeapFile.CurrentEntry, HeapFile.PoolNow, FromSource, HasKey, Keyed, SourceOK;
    ghost var es, s := AllEntries(h), buffer[..n];
    SourceRoom(k, h);
    var e;
    status, e := FetchAny(hfs);
    if status == OK {
      assert e == es[a] && hfs.Ahead() == es[a + 1..];
      SourceKeyed(k, h, a);
      buffer[n] := SortRec(e.rid, Field(k, e.rec));
      FromSourceNext(k, h, es, a - n, s);
      assert buffer[..n + 1] == s + [buffer[n]];
    }
  }

  lemma SourceRoom(k: SortKey, h: Heap)
    requires SourceOK(k, h)
    ensures |h| < DIRCNT && HeapInv(h)
  {
    hide AllEntries, HeapInv;
  }

  /** One batch of sortFile: up to maxItems records of the source read into the buffer. */
  method FillBuffer(hfs: HeapFile, k: SortKey, buffer: array<SortRec>, ghost h: Heap, ghost a: nat)
    returns (numItems: nat)
    requires SourceOK(k, h) && KeyOK(k) && Passed(hfs, k, h, a, [])
    modifies hfs`curPage, hfs`curPageNo, hfs`touched, hfs`curIdx, hfs`curRec, buffer
    modifies hfs.bm, hfs.bm.bufTable, hfs.bm.hashTable, hfs.bm.hashTable.ht, hfs.bm.hashTable.Repr, hfs.bm.disk
    modifies hfs.bm.mems
    ensures fresh(hfs.bm.hashTable.Repr - old(hfs.bm.hashTable.Repr)) && numItems <= buffer.Length
    ensures Passed(hfs, k, h, a + numItems, buffer[..numItems])
    ensures numItems < buffer.Length ==> a + numItems == |AllEntries(h)|
    ensures hfs.Spares() && hfs.touched == old(hfs.touched)
  {
    hide ChainedHash.HashTable.Valid, BufMgr.Valid, BufMgr.Wired, BufMgr.Abs, Inv, LeavesOthers, HeapInv, AllEntries;
    hide HeapFile.Valid, HeapFile.Open, HeapFile.View, HeapFile.Sole, HeapFile.Ahead, HeapFile.Contents;
    hide HeapFile.PoolNow, SourceOK, Passed;
    numItems := 0;
    assert buffer[..0] == [];
    LeavesSelf(hfs.PoolNow(), hfs.touched, hfs.filePtr);
    while numItems < buffer.Length
      invariant fresh(hfs.bm.hashTable.Repr - old(hfs.bm.hashTable.Repr)) && numItems <= buffer.Length
      invariant Passed(hfs, k, h, a + numItems, buffer[..numItems])
      invariant hfs.Spares() && hfs.touched == old(hfs.touched)
    {
      ghost var q := hfs.PoolNow();
      PassedSole(hfs, k, h, a + numItems, buffer[..numItems]);
      var status := ReadItem(hfs, k, buffer, numItems, h, a + numItems);
      LeavesTrans(old(hfs.PoolNow()), hfs.touched, q, hfs.touched, hfs.PoolNow(), hfs.touched, hfs.filePtr);
      if status == FILEEOF {
        break;
      }
      numItems := numItems + 1;
    }
  }

  // ----- Writing a run -----

  /** Files f and g aside, no file comes or goes, and heap files that nobody has open stay so, with
      the same records. */
  ghost predicate KeepsStored(p: Pool, s: set<Key>, q: Pool, t: set<Key>, f: FileRef, g: FileRef) {
    && (forall x: FileRef :: x != f && x != g ==> (x in q.disk <==> x in p.disk))
    && (forall x: FileRef :: x != f && x != g && Stored(p, x, s) ==>
          Stored(q, x, t) && HeapIn(q, x, t) == HeapIn(p, x, s))
  }

  lemma LeavesStored(p: Pool, s: set<Key>, q: Pool, t: set<Key>, f: FileRef, g: FileRef)
    requires LeavesOthers(p, s, q, t, f) || LeavesOthers(p, s, q, t, g)
    ensures KeepsStored(p, s, q, t, f, g)
  {
    hide Stored, HeapIn, Inv, Coherent, Anchored, SameTo, SameAside;
    var h := if LeavesOthers(p, s, q, t, f) then f else g;
    forall x: FileRef | x != f && x != g && Stored(p, x, s)
      ensures Stored(q, x, t) && HeapIn(q, x, t) == HeapIn(p, x, s)
    {
      StaysStored(p, s, q, t, h, x);
    }
  }

  lemma KeepsTrans(p: Pool, s: set<Key>, q: Pool, t: set<Key>, r: Pool, u: set<Key>, f: FileRef, g: FileRef)
    requires KeepsStored(p, s, q, t, f, g) && KeepsStored(q, t, r, u, f, g)
    ensures KeepsStored(p, s, r, u, f, g)
  {
    hide Stored, HeapIn;
  }

  /** The records that the scan hfs has found are fetched through hfile and inserted in outFile. */
  ghost predicate Copying(hfs: HeapFile, hfile: HeapFile, outFile: HeapFile)
    reads hfs, hfs.bm, hfs.bm.bufTable, hfs.bm.hashTable, hfs.bm.hashTable.ht, hfs.bm.hashTable.Repr, hfs.bm.disk
    reads hfs.bm.mems, hfile, outFile
  {
    && Twins(hfs, hfile) && FramesLeft(hfs, hfile) >= 1 && outFile != hfs && outFile != hfile
    && outFile.bm == hfs.bm && outFile.filePtr != hfs.filePtr && outFile.touched == hfs.touched
    && outFile.Valid() && outFile.Sole()
  }

  lemma PoolOfTwins(hfs: HeapFile, hfile: HeapFile)
    requires Twins(hfs, hfile)
    ensures hfs.Open() && hfile.Open() && hfs.bm.Valid() && hfs.bm.Wired()
    ensures hfs.PoolNow() == hfile.PoolNow() == hfs.bm.Abs()
  {
    hide ChainedHash.HashTable.Valid, BufMgr.Wired, BufMgr.Abs, Inv, Twin, Anchored, FrameHolds, Positioned;
  }

  /** One getRecord through the second object. */
  method FetchToCopy(hfs: HeapFile, hfile: HeapFile, outFile: HeapFile, rid: RID) returns (rec: Rec)
    requires Copying(hfs, hfile, outFile) && SlotThere(hfs.Contents(), rid) && LiveThere(hfs.Contents(), rid)
    modifies hfile`curPage, hfile`curPageNo, hfile`touched, hfile`curDirtyFlag, hfile`curRec
    modifies hfs.bm, hfs.bm.bufTable, hfs.bm.hashTable, hfs.bm.hashTable.ht, hfs.bm.hashTable.Repr, hfs.bm.disk
    modifies hfs.bm.mems
    ensures fresh(hfs.bm.hashTable.Repr - old(hfs.bm.hashTable.Repr)) && rec == RecordAt(old(hfs.Contents()), rid)
    ensures Copying(hfs, hfile, outFile) && FramesLeft(hfs, hfile) == old(FramesLeft(hfs, hfile))
    ensures hfs.Contents() == old(hfs.Contents()) && hfs.Ahead() == old(hfs.Ahead())
    ensures outFile.Insertion() == old(outFile.Insertion())
    ensures LeavesOthers(old(hfs.PoolNow()), hfs.touched, hfs.PoolNow(), hfs.touched, hfs.filePtr)
  {
    hide ChainedHash.HashTable.Valid, BufMgr.Wired, BufMgr.Abs, BufMgr.Valid, Inv, LeavesOthers, Twins, FramesLeft;
    hide SlotThere, LiveThere, RecordAt;
    hide HeapFile.Valid, HeapFile.Open, HeapFile.Sole, HeapFile.PoolNow, HeapFile.View, HeapFile.Contents;
    hide HeapFile.Ahead, HeapFile.Insertion, HeapFile.AtRecord, HeapFile.CurrentEntry;
    PoolOfTwins(hfs, hfile);
    var status;
    status, rec := FetchTwin(hfs, hfile, rid);
    PoolOfTwins(hfs, hfile);
    TwinFields(hfs, hfile);
    outFile.Undisturbed(hfs.filePtr);
  }

  lemma TwinFields(hfs: HeapFile, hfile: HeapFile)
    requires Twins(hfs, hfile)
    ensures hfile.touched == hfs.touched && hfile.bm == hfs.bm && hfile.filePtr == hfs.filePtr && hfs != hfile
    ensures Clean(hfs) && Clean(hfile) && hfs.Valid() && hfile.Open()
    ensures Twin(hfs.PoolNow(), hfs.filePtr, hfs.touched, hfs.curPageNo, hfile.curPageNo)
  {
  }

  /** One insertRecord beside the two. */
  method InsertCopy(hfs: HeapFile, hfile: HeapFile, outFile: HeapFile, rec: Rec)
    requires Copying(hfs, hfile, outFile) && 1 <= |rec| <= MAXREC
    requires |outFile.Contents()| < DIRCNT && outFile.FileSize() < MAXPAGES
    modifies outFile`curPage, outFile`curPageNo, outFile`curDirtyFlag, outFile`touched, outFile`curIdx
    modifies outFile`curRec, outFile`hdrDirtyFlag, hfs`touched, hfile`touched
    modifies hfs.bm, hfs.bm.bufTable, hfs.bm.hashTable, hfs.bm.hashTable.ht, hfs.bm.hashTable.Repr, hfs.bm.disk
    modifies hfs.bm.mems
    ensures fresh(hfs.bm.hashTable.Repr - old(hfs.bm.hashTable.Repr))
    ensures Copying(hfs, hfile, outFile) && FramesLeft(hfs, hfile) == old(FramesLeft(hfs, hfile))
    ensures hfs.Contents() == old(hfs.Contents()) && hfs.Ahead() == old(hfs.Ahead())
    ensures old(outFile.Insertion()).at <= |old(outFile.Insertion()).file|
    ensures outFile.Insertion() == InsertOne(old(outFile.Insertion()), rec)
    ensures LeavesOthers(old(hfs.PoolNow()), old(hfs.touched), hfs.PoolNow(), hfs.touched, outFile.filePtr)
  {
    hide ChainedHash.HashTable.Valid, BufMgr.Wired, BufMgr.Abs, BufMgr.Valid, Inv, LeavesOthers, InsertOne, Twin;
    hide SeesSame, HeapFile.CountRight, HeapFile.RecordCount, CountIn, AllEntries, One, Anchored, Coherent, Alone;
    hide HeapFile.Valid, HeapFile.Open, HeapFile.Sole, HeapFile.PoolNow, HeapFile.View, HeapFile.Contents;
    hide HeapFile.Ahead, HeapFile.Insertion, HeapFile.AtRecord, HeapFile.CurrentEntry, HeapFile.FileSize;
    ghost var p, s := hfs.PoolNow(), hfs.touched;
    PoolOfTwins(hfs, hfile);
    OpenNow(outFile);
    var status, rid := outFile.InsertRecord(rec);
    OpenNow(outFile);
    hfs.touched := outFile.touched;
    hfile.touched := outFile.touched;
    TwinKept(p, s, outFile.PoolNow(), outFile.touched, outFile.filePtr, hfs.filePtr, hfs.curPageNo, hfile.curPageNo);
    hfs.StillOpen();
    hfs.StillPositioned();
    hfile.StillOpen();
  }

  /** Every item of the buffer names a record of the file. */
  ghost predicate Named(h: Heap, s: seq<SortRec>) {
    forall i :: 0 <= i < |s| ==>
      SlotThere(h, s[i].rid) && LiveThere(h, s[i].rid) && 1 <= |RecordAt(h, s[i].rid)| <= MAXREC
  }

  /** One record fetched and inserted. */
  method CopyRecord(hfs: HeapFile, hfile: HeapFile, outFile: HeapFile, rid: RID, ghost h: Heap)
    requires Copying(hfs, hfile, outFile) && hfs.Contents() == h && SlotThere(h, rid) && LiveThere(h, rid)
    requires 1 <= |RecordAt(h, rid)| <= MAXREC
    requires |outFile.Insertion().file| < DIRCNT && outFile.Insertion().next < MAXPAGES
    modifies hfile`curPage, hfile`curPageNo, hfile`touched, hfile`curDirtyFlag, hfile`curRec, hfs`touched
    modifies outFile`curPage, outFile`curPageNo, outFile`curDirtyFlag, outFile`touched, outFile`curIdx
    modifies outFile`curRec, outFile`hdrDirtyFlag
    modifies hfs.bm, hfs.bm.bufTable, hfs.bm.hashTable, hfs.bm.hashTable.ht, hfs.bm.hashTable.Repr, hfs.bm.disk
    modifies hfs.bm.mems
    ensures fresh(hfs.bm.hashTable.Repr - old(hfs.bm.hashTable.Repr))
    ensures Copying(hfs, hfile, outFile) && FramesLeft(hfs, hfile) == old(FramesLeft(hfs, hfile))
    ensures hfs.Contents() == h && hfs.Ahead() == old(hfs.Ahead())
    ensures old(outFile.Insertion()).at <= |old(outFile.Insertion()).file|
    ensures outFile.Insertion() == InsertOne(old(outFile.Insertion()), RecordAt(h, rid))
    ensures KeepsStored(old(hfs.PoolNow()), old(hfs.touched), hfs.PoolNow(), hfs.touched,
      hfs.filePtr, outFile.filePtr)
  {
    hide ChainedHash.HashTable.Valid, BufMgr.Wired, BufMgr.Abs, BufMgr.Valid, Inv, LeavesOthers, InsertOne, Twins;
    hide KeepsStored, SlotThere, LiveThere, RecordAt, FramesLeft;
    hide HeapFile.Valid, HeapFile.Open, HeapFile.Sole, HeapFile.PoolNow, HeapFile.View, HeapFile.Contents;
    hide HeapFile.Ahead, HeapFile.Insertion, HeapFile.AtRecord, HeapFile.CurrentEntry, HeapFile.FileSize;
    InsertionRoom(outFile);
    ghost var p, s := hfs.PoolNow(), hfs.touched;
    var record := FetchToCopy(hfs, hfile, outFile, rid);
    ghost var q := hfs.PoolNow();
    LeavesStored(p, s, q, s, hfs.filePtr, outFile.filePtr);
    InsertionRoom(outFile);
    InsertCopy(hfs, hfile, outFile, record);
    LeavesStored(q, s, hfs.PoolNow(), hfs.touched, hfs.filePtr, outFile.filePtr);
    KeepsTrans(p, s, q, s, hfs.PoolNow(), hfs.touched, hfs.filePtr, outFile.filePtr);
  }

  /** The loop of generateRun. */
  method CopyRecords(hfs: HeapFile, hfile: HeapFile, outFile: HeapFile, buffer: array<SortRec>, items: nat,
      ghost h: Heap)
    requires Copying(hfs, hfile, outFile) && hfs.Contents() == h && items <= buffer.Length && Named(h, buffer[..items])
    requires outFile.Insertion() == FreshInserting(FIRSTDATA)
    requires Fits(FreshInserting(FIRSTDATA), Fetched(h, buffer[..items]))
    modifies hfile`curPage, hfile`curPageNo, hfile`touched, hfile`curDirtyFlag, hfile`curRec, hfs`touched
    modifies outFile`curPage, outFile`curPageNo, outFile`curDirtyFlag, outFile`touched, outFile`curIdx
    modifies outFile`curRec, outFile`hdrDirtyFlag
    modifies hfs.bm, hfs.bm.bufTable, hfs.bm.hashTable, hfs.bm.hashTable.ht, hfs.bm.hashTable.Repr, hfs.bm.disk
    modifies hfs.bm.mems
    ensures fresh(hfs.bm.hashTable.Repr - old(hfs.bm.hashTable.Repr)) && buffer[..] == old(buffer[..])
    ensures Copying(hfs, hfile, outFile) && FramesLeft(hfs, hfile) == old(FramesLeft(hfs, hfile))
    ensures hfs.Contents() == h && hfs.Ahead() == old(hfs.Ahead())
    ensures outFile.Insertion() == InsertAll(FreshInserting(FIRSTDATA), Fetched(h, buffer[..items]))
    ensures KeepsStored(old(hfs.PoolNow()), old(hfs.touched), hfs.PoolNow(), hfs.touched,
      hfs.filePtr, outFile.filePtr)
  {
    hide ChainedHash.HashTable.Valid, BufMgr.Wired, BufMgr.Abs, BufMgr.Valid, Inv, LeavesOthers, InsertOne, InsertAll;
    hide KeepsStored, SlotThere, LiveThere, RecordAt, FramesLeft, Copying, Fits, Fetched, FreshInserting;
    hide HeapFile.Valid, HeapFile.Open, HeapFile.Sole, HeapFile.PoolNow, HeapFile.View, HeapFile.Contents;
    hide HeapFile.Ahead, HeapFile.Insertion, HeapFile.AtRecord, HeapFile.CurrentEntry, HeapFile.FileSize;
    ghost var t, x0 := buffer[..items], FreshInserting(FIRSTDATA);
    ghost var rs := Fetched(h, t);
    KeepsSelf(hfs.PoolNow(), hfs.touched, hfs.filePtr, outFile.filePtr);
    NoneCopied(x0, rs);
    for i := 0 to items
      invariant fresh(hfs.bm.hashTable.Repr - old(hfs.bm.hashTable.Repr)) && buffer[..] == old(buffer[..])
      invariant Copying(hfs, hfile, outFile) && FramesLeft(hfs, hfile) == old(FramesLeft(hfs, hfile))
      invariant hfs.Contents() == h && hfs.Ahead() == old(hfs.Ahead())
      invariant x0.at <= |x0.file| && outFile.Insertion() == InsertAll(x0, rs[..i])
      invariant KeepsStored(old(hfs.PoolNow()), old(hfs.touched), hfs.PoolNow(), hfs.touched,
        hfs.filePtr, outFile.filePtr)
    {
      ghost var q, u := hfs.PoolNow(), hfs.touched;
      assert t[i] == buffer[i];
      NextCopied(h, t, i);
      CopyRecord(hfs, hfile, outFile, buffer[i].rid, h);
      KeepsTrans(old(hfs.PoolNow()), old(hfs.touched), q, u, hfs.PoolNow(), hfs.touched,
        hfs.filePtr, outFile.filePtr);
    }
    assert rs[..items] == rs;
  }

  lemma KeepsSelf(p: Pool, s: set<Key>, f: FileRef, g: FileRef)
    ensures KeepsStored(p, s, p, s, f, g)
  {
    hide Stored, HeapIn;
  }

  lemma NoneCopied(x0: Inserting, rs: seq<Rec>)
    requires x0 == FreshInserting(FIRSTDATA)
    ensures x0.at <= |x0.file| && InsertAll(x0, rs[..0]) == x0
  {
  }

  lemma NextCopied(h: Heap, t: seq<SortRec>, i: nat)
    requires i < |t| && Named(h, t) && Fits(FreshInserting(FIRSTDATA), Fetched(h, t))
    ensures var x0, rs := FreshInserting(FIRSTDATA), Fetched(h, t);
      && |rs| == |t| && rs[i] == RecordAt(h, t[i].rid) && x0.at <= |x0.file|
      && InsertAll(x0, rs[..i + 1]) == InsertOne(InsertAll(x0, rs[..i]), RecordAt(h, t[i].rid))
      && |InsertAll(x0, rs[..i]).file| < DIRCNT && InsertAll(x0, rs[..i]).next < MAXPAGES
    ensures SlotThere(h, t[i].rid) && LiveThere(h, t[i].rid) && 1 <= |RecordAt(h, t[i].rid)| <= MAXREC
  {
    hide InsertAll, InsertOne, Fits, SlotThere, LiveThere, RecordAt;
    InsertedNext(FreshInserting(FIRSTDATA), Fetched(h, t), i);
  }

  lemma ScanPool(hfs: HeapFile)
    requires Scanning(hfs)
    ensures hfs.Open() && hfs.bm.Valid() && hfs.bm.Wired() && hfs.PoolNow() == hfs.bm.Abs() && Inv(hfs.bm.Abs())
    ensures hfs.Valid() && hfs.Sole()
  {
    hide ChainedHash.HashTable.Valid, BufMgr.Wired, BufMgr.Abs, Inv, Anchored, FrameHolds, Positioned;
    OpenNow(hfs);
  }

  /** The insertion scan of a new run file. */
  method OpenOut(hfs: HeapFile, f: FileRef) returns (outFile: HeapFile)
    requires Scanning(hfs) && Sealed(hfs.PoolNow(), f, hfs.touched) && f != hfs.filePtr
    modifies hfs.bm, hfs.bm.bufTable, hfs.bm.hashTable, hfs.bm.hashTable.ht, hfs.bm.hashTable.Repr, hfs.bm.disk
    modifies hfs.bm.mems
    ensures fresh(hfs.bm.hashTable.Repr - old(hfs.bm.hashTable.Repr)) && fresh(outFile)
    ensures Scanning(hfs) && hfs.Contents() == old(hfs.Contents()) && hfs.Ahead() == old(hfs.Ahead())
    ensures outFile.bm == hfs.bm && outFile.filePtr == f && outFile.touched == hfs.touched
    ensures outFile.Valid() && outFile.Sole() && outFile.Insertion() == FreshInserting(FIRSTDATA)
    ensures |hfs.PoolNow().upl| == |old(hfs.PoolNow()).upl| - 2
    ensures LeavesOthers(old(hfs.PoolNow()), hfs.touched, hfs.PoolNow(), hfs.touched, f)
  {
    hide ChainedHash.HashTable.Valid, BufMgr.Wired, BufMgr.Abs, BufMgr.Valid, Inv, LeavesOthers, IsHeapFile, Closed;
    hide OpenStatus, HeapOf, HeapOK, ViewOf, FirstNo, Described;
    hide HeapFile.Open, HeapFile.Sole, HeapFile.PoolNow, HeapFile.View;
    hide HeapFile.Ahead, HeapFile.AtRecord, HeapFile.CurrentEntry, HeapFile.FileSize;
    ScanPool(hfs);
    FirstIs(hfs.bm.Abs(), f, hfs.touched);
    outFile := new HeapFile(hfs.bm, f, hfs.float, hfs.touched);
    OpenNow(outFile);
    hfs.Undisturbed(f);
    OpenNow(hfs);
    InsertionRoom(outFile);
  }

  /** The run file complete, its insertion scan is closed. */
  method CloseOut(hfs: HeapFile, hfile: HeapFile, outFile: HeapFile)
    requires Copying(hfs, hfile, outFile)
    modifies outFile`touched, hfs`touched, hfile`touched
    modifies hfs.bm, hfs.bm.bufTable, hfs.bm.hashTable, hfs.bm.hashTable.ht, hfs.bm.hashTable.Repr, hfs.bm.disk
    modifies hfs.bm.mems
    ensures fresh(hfs.bm.hashTable.Repr - old(hfs.bm.hashTable.Repr))
    ensures Twins(hfs, hfile) && FramesLeft(hfs, hfile) == old(FramesLeft(hfs, hfile)) + 2
    ensures hfs.Contents() == old(hfs.Contents()) && hfs.Ahead() == old(hfs.Ahead())
    ensures Stored(hfs.PoolNow(), outFile.filePtr, hfs.touched)
    ensures HeapIn(hfs.PoolNow(), outFile.filePtr, hfs.touched) == old(outFile.Contents())
    ensures LeavesOthers(old(hfs.PoolNow()), old(hfs.touched), hfs.PoolNow(), hfs.touched, outFile.filePtr)
  {
    hide ChainedHash.HashTable.Valid, BufMgr.Wired, BufMgr.Abs, Inv, LeavesOthers, Twin, SeesSame, IsHeapFile, Closed;
    hide One, Anchored, Coherent, Alone, ViewOf, HeapOf, AllEntries, Described;
    hide HeapFile.Valid, HeapFile.Open, HeapFile.Sole, HeapFile.PoolNow, HeapFile.View;
    hide HeapFile.Ahead, HeapFile.Insertion, HeapFile.AtRecord, HeapFile.CurrentEntry, HeapFile.FileSize;
    ghost var p, s := hfs.PoolNow(), hfs.touched;
    PoolOfTwins(hfs, hfile);
    OpenNow(outFile);
    var status := outFile.Close();
    hfs.touched := outFile.touched;
    hfile.touched := outFile.touched;
    TwinKept(p, s, hfs.bm.Abs(), outFile.touched, outFile.filePtr, hfs.filePtr, hfs.curPageNo, hfile.curPageNo);
    hfs.StillOpen();
    hfs.StillPositioned();
    hfile.StillOpen();
  }

  /** The second object on the source, opened beside the insertion scan. */
  method BeginCopy(hfs: HeapFile, outFile: HeapFile) returns (hfile: HeapFile)
    requires Scanning(hfs) && outFile != hfs && outFile.bm == hfs.bm && outFile.filePtr != hfs.filePtr
    requires outFile.touched == hfs.touched && outFile.Valid() && outFile.Sole() && |hfs.PoolNow().upl| >= 1
    modifies hfs.bm, hfs.bm.bufTable, hfs.bm.hashTable, hfs.bm.hashTable.ht, hfs.bm.hashTable.Repr, hfs.bm.disk
    modifies hfs.bm.mems
    ensures fresh(hfs.bm.hashTable.Repr - old(hfs.bm.hashTable.Repr)) && fresh(hfile)
    ensures Copying(hfs, hfile, outFile) && FramesLeft(hfs, hfile) == |old(hfs.PoolNow()).upl|
    ensures hfs.Contents() == old(hfs.Contents()) && hfs.Ahead() == old(hfs.Ahead())
    ensures outFile.Insertion() == old(outFile.Insertion())
    ensures LeavesOthers(old(hfs.PoolNow()), hfs.touched, hfs.PoolNow(), hfs.touched, hfs.filePtr)
  {
    hide ChainedHash.HashTable.Valid, BufMgr.Wired, BufMgr.Abs, BufMgr.Valid, Inv, LeavesOthers, Twins, FramesLeft;
    hide HeapFile.Valid, HeapFile.Open, HeapFile.Sole, HeapFile.PoolNow, HeapFile.View, HeapFile.Contents;
    hide HeapFile.Ahead, HeapFile.Insertion, HeapFile.AtRecord, HeapFile.CurrentEntry;
    OpenNow(hfs);
    hfile := OpenTwin(hfs);
    PoolOfTwins(hfs, hfile);
    outFile.Undisturbed(hfs.filePtr);
  }

  /** Both closed again. */
  method EndCopy(hfs: HeapFile, hfile: HeapFile, outFile: HeapFile)
    requires Copying(hfs, hfile, outFile) && hfs.filter == NoFilter
    modifies outFile`touched, hfs`touched, hfile`touched
    modifies hfs.bm, hfs.bm.bufTable, hfs.bm.hashTable, hfs.bm.hashTable.ht, hfs.bm.hashTable.Repr, hfs.bm.disk
    modifies hfs.bm.mems
    ensures fresh(hfs.bm.hashTable.Repr - old(hfs.bm.hashTable.Repr))
    ensures Scanning(hfs) && |hfs.PoolNow().upl| == old(FramesLeft(hfs, hfile)) + 2
    ensures hfs.Contents() == old(hfs.Contents()) && hfs.Ahead() == old(hfs.Ahead())
    ensures Stored(hfs.PoolNow(), outFile.filePtr, hfs.touched)
    ensures HeapIn(hfs.PoolNow(), outFile.filePtr, hfs.touched) == old(outFile.Contents())
    ensures KeepsStored(old(hfs.PoolNow()), old(hfs.touched), hfs.PoolNow(), hfs.touched,
      hfs.filePtr, outFile.filePtr)
  {
    hide ChainedHash.HashTable.Valid, BufMgr.Wired, BufMgr.Abs, BufMgr.Valid, Inv, LeavesOthers, Stored, HeapIn;
    hide FramesLeft, KeepsStored, Twin;
    hide HeapFile.Valid, HeapFile.Open, HeapFile.Sole, HeapFile.PoolNow, HeapFile.View, HeapFile.Contents;
    hide HeapFile.Ahead, HeapFile.Insertion, HeapFile.AtRecord, HeapFile.CurrentEntry;
    ghost var p, s := hfs.PoolNow(), hfs.touched;
    CloseOut(hfs, hfile, outFile);
    ghost var q, t := hfs.PoolNow(), hfs.touched;
    CloseTwin(hfs, hfile);
    StaysStored(q, t, hfs.PoolNow(), t, hfs.filePtr, outFile.filePtr);
    LeavesStored(p, s, q, t, hfs.filePtr, outFile.filePtr);
    LeavesStored(q, t, hfs.PoolNow(), t, hfs.filePtr, outFile.filePtr);
    KeepsTrans(p, s, q, t, hfs.PoolNow(), t, hfs.filePtr, outFile.filePtr);
  }

  /** generateRun after the run file has been made: the records named in the buffer are written to it. */
  method CopyRun(hfs: HeapFile, f: FileRef, buffer: array<SortRec>, items: nat, ghost h: Heap)
    requires Scanning(hfs) && hfs.Contents() == h && f != hfs.filePtr && |hfs.PoolNow().upl| >= 3
    requires Sealed(hfs.PoolNow(), f, hfs.touched) && items <= buffer.Length && Named(h, buffer[..items])
    requires Fits(FreshInserting(FIRSTDATA), Fetched(h, buffer[..items]))
    modifies hfs`touched
    modifies hfs.bm, hfs.bm.bufTable, hfs.bm.hashTable, hfs.bm.hashTable.ht, hfs.bm.hashTable.Repr, hfs.bm.disk
    modifies hfs.bm.mems
    ensures fresh(hfs.bm.hashTable.Repr - old(hfs.bm.hashTable.Repr)) && buffer[..] == old(buffer[..])
    ensures Scanning(hfs) && hfs.Contents() == h && hfs.Ahead() == old(hfs.Ahead())
    ensures |hfs.PoolNow().upl| == |old(hfs.PoolNow()).upl|
    ensures Stored(hfs.PoolNow(), f, hfs.touched)
    ensures HeapIn(hfs.PoolNow(), f, hfs.touched) ==
      InsertAll(FreshInserting(FIRSTDATA), Fetched(h, buffer[..items])).file
    ensures KeepsStored(old(hfs.PoolNow()), old(hfs.touched), hfs.PoolNow(), hfs.touched, hfs.filePtr, f)
  {
    hide ChainedHash.HashTable.Valid, BufMgr.Wired, BufMgr.Abs, BufMgr.Valid, Inv, LeavesOthers, Stored, HeapIn;
    hide FramesLeft, KeepsStored, Twins, Copying, Fits, InsertAll, Fetched, Named, Sealed;
    hide HeapFile.Valid, HeapFile.Open, HeapFile.Sole, HeapFile.PoolNow, HeapFile.View, HeapFile.Contents;
    hide HeapFile.Ahead, HeapFile.Insertion, HeapFile.AtRecord, HeapFile.CurrentEntry;
    ghost var p, s := hfs.PoolNow(), hfs.touched;
    var outFile := OpenOut(hfs, f);
    ghost var p1 := hfs.PoolNow();
    LeavesStored(p, s, p1, s, hfs.filePtr, f);
    var hfile := BeginCopy(hfs, outFile);
    ghost var p2 := hfs.PoolNow();
    LeavesStored(p1, s, p2, s, hfs.filePtr, f);
    KeepsTrans(p, s, p1, s, p2, s, hfs.filePtr, f);
    CopyRecords(hfs, hfile, outFile, buffer, items, h);
    ghost var p3, t := hfs.PoolNow(), hfs.touched;
    KeepsTrans(p, s, p2, s, p3, t, hfs.filePtr, f);
    InsertedFile(hfs, hfile, outFile);
    EndCopy(hfs, hfile, outFile);
    KeepsTrans(p, s, p3, t, hfs.PoolNow(), hfs.touched, hfs.filePtr, f);
  }

  lemma InsertedFile(hfs: HeapFile, hfile: HeapFile, outFile: HeapFile)
    requires Copying(hfs, hfile, outFile)
    ensures outFile.Contents() == outFile.Insertion().file
  {
    hide Twins, HeapFile.Valid, HeapFile.Sole, HeapFile.FileSize, HeapFile.Contents;
  }

  // ----- generateRun -----

  lemma NothingOwing(p: Pool, t: set<Key>, f: FileRef)
    requires Inv(p) && Coherent(p, t) && f !in p.disk
    ensures NoneOf(t, f)
  {
    hide Inv;
    forall k | k in t
      ensures k.file != f
    {
      assert Pinned(p, k);
      FileOfResident(p, k);
    }
  }

  /** The scan of the source and the table of open files over one pool. */
  ghost predicate Over(db: DB, hfs: HeapFile)
    reads hfs, db, db.openFiles, db.openFiles.ht, db.openFiles.Repr, db.files
    reads db.bm, db.bm.bufTable, db.bm.hashTable, db.bm.hashTable.ht, db.bm.hashTable.Repr, db.bm.disk, db.bm.mems
  {
    hfs.bm == db.bm && db.Valid() && Scanning(hfs)
  }

  lemma OverPool(db: DB, hfs: HeapFile)
    requires Over(db, hfs)
    ensures db.Valid() && db.bm == hfs.bm && Scanning(hfs)
    ensures db.bm.Valid() && db.bm.Wired() && db.bm.Abs() == db.PoolNow() == hfs.PoolNow()
    ensures Inv(db.bm.Abs()) && Coherent(db.bm.Abs(), hfs.touched)
  {
    hide ChainedHash.HashTable.Valid, BufMgr.Wired, BufMgr.Abs, Inv, FrameHolds, Positioned, TableOK, Coherent;
    db.BufValid();
    OpenNow(hfs);
  }

  /** What the sort depends on: the pool and the changes owed to it, the open counts, the records of
      the source and those its scan has ahead. */
  datatype Snapshot = Snapshot(pool: Pool, owed: set<Key>, counts: map<string, int>, source: Heap, ahead: seq<Entry>)

  ghost function Now(db: DB, hfs: HeapFile): Snapshot
    reads hfs, db, db.openFiles, db.openFiles.ht, db.openFiles.Repr, db.files
    reads db.bm, db.bm.bufTable, db.bm.hashTable, db.bm.hashTable.ht, db.bm.hashTable.Repr, db.bm.disk, db.bm.mems
  {
    if Over(db, hfs) then Snapshot(hfs.PoolNow(), hfs.touched, db.Counts(), hfs.Contents(), hfs.Ahead())
    else Snapshot(Pool([], [], [], map[], map[]), {}, map[], [], [])
  }

  lemma NowIs(db: DB, hfs: HeapFile)
    requires Over(db, hfs)
    ensures var n := Now(db, hfs);
      && n.pool == hfs.PoolNow() && n.owed == hfs.touched && n.counts == db.Counts()
      && n.source == hfs.Contents() && n.ahead == hfs.Ahead()
    ensures hfs.bm == db.bm && db.Valid() && Scanning(hfs)
  {
    hide DB.Valid, DB.Counts, Scanning, HeapFile.PoolNow, HeapFile.Contents, HeapFile.Ahead;
  }

  /** The name has been taken, by an open file or by a file on disk. */
  ghost predicate Taken(n: Snapshot, name: string) { NameTaken(n.counts, n.pool.disk, name) }

  ghost predicate NameTaken(counts: map<string, int>, disk: map<FileRef, FileSpec.Pages>, name: string) {
    name in counts || FileRef(name) in disk
  }

  /** The source and its scan are as they were, and so are the open counts and the number of frames left. */
  ghost predicate SameSource(n: Snapshot, n': Snapshot) {
    n'.source == n.source && n'.ahead == n.ahead && n'.counts == n.counts && |n'.pool.upl| == |n.pool.upl|
  }

  /** File f has become a heap file with the given records, which nobody has open. */
  ghost predicate RunWritten(n: Snapshot, n': Snapshot, source: FileRef, f: FileRef, file: Heap) {
    && SameSource(n, n') && Stored(n'.pool, f, n'.owed) && HeapIn(n'.pool, f, n'.owed) == file
    && KeepsStored(n.pool, n.owed, n'.pool, n'.owed, source, f)
  }

  /** The run file made under a name that is free, as the comment in generateRun intends: an empty heap
      file. */
  method MakeFree(db: DB, hfs: HeapFile, name: string)
    requires Over(db, hfs) && name != "" && |Now(db, hfs).pool.upl| >= 2 && FileRef(name) != hfs.filePtr
    requires !Taken(Now(db, hfs), name)
    modifies db`files, db.openFiles, db.openFiles.ht, db.openFiles.Repr, db.files
    modifies db.bm, db.bm.bufTable, db.bm.hashTable, db.bm.hashTable.ht, db.bm.hashTable.Repr, db.bm.disk, db.bm.mems
    ensures fresh(db.openFiles.Repr - old(db.openFiles.Repr)) && fresh(db.bm.hashTable.Repr - old(db.bm.hashTable.Repr))
    ensures fresh(db.files - old(db.files))
    ensures Over(db, hfs) && SameSource(old(Now(db, hfs)), Now(db, hfs)) && Now(db, hfs).owed == old(Now(db, hfs)).owed
    ensures Sealed(Now(db, hfs).pool, FileRef(name), Now(db, hfs).owed)
    ensures LeavesOthers(old(Now(db, hfs)).pool, Now(db, hfs).owed, Now(db, hfs).pool, Now(db, hfs).owed, FileRef(name))
  {
    hide ChainedHash.HashTable.Valid, BufMgr.Wired, BufMgr.Abs, BufMgr.Valid, Inv, LeavesOthers, Coherent, NoneOf;
    hide Sealed, OnDisk, ViewOf, TableOK, CountsOf, DB.PoolNow, DB.Valid, DB.Counts, Scanning, Anchored, Alone;
    hide HeapFile.Valid, HeapFile.Open, HeapFile.Sole, HeapFile.PoolNow, HeapFile.View, HeapFile.Contents;
    hide HeapFile.Ahead, HeapFile.Insertion, HeapFile.AtRecord, HeapFile.CurrentEntry;
    OverPool(db, hfs);
    NameFree(db, name, hfs.touched);
    ScanAgain(hfs);
    var status := CreateHeapFile(db, name, hfs.touched);
    db.BufValid();
    hfs.Undisturbed(FileRef(name));
    OpenNow(hfs);
    ScanAgain(hfs);
  }

  lemma ScanAgain(hfs: HeapFile)
    ensures hfs.Valid() && hfs.Sole() && Clean(hfs) && hfs.filter == NoFilter <==> Scanning(hfs)
  {
    hide HeapFile.Valid, HeapFile.Sole;
  }

  /** The test of the name leaves everything as it was. */
  method TestRunName(db: DB, hfs: HeapFile, name: string) returns (status: Status)
    requires Over(db, hfs) && name != "" && FileRef(name) != hfs.filePtr
    modifies db.bm.disk
    ensures Over(db, hfs) && Now(db, hfs) == old(Now(db, hfs))
    ensures status == if Taken(Now(db, hfs), name) then FILEEXISTS else OK
  {
    hide ChainedHash.HashTable.Valid, BufMgr.Wired, BufMgr.Valid, Inv, LeavesOthers, PoolRing.Ring, PoolRing.FramesOf;
    hide TableOK, CountsOf, DB.PoolNow, DB.Valid, DB.Counts, Scanning, Anchored, Alone;
    hide HeapFile.Valid, HeapFile.Open, HeapFile.Sole, HeapFile.PoolNow, HeapFile.View, HeapFile.Contents;
    hide HeapFile.Ahead, HeapFile.Insertion, HeapFile.AtRecord, HeapFile.CurrentEntry;
    OverPool(db, hfs);
    ScanAgain(hfs);
    LeavesSelf(db.bm.Abs(), hfs.touched, FileRef(name));
    status := db.TestName(name);
    db.BufValid();
    hfs.Undisturbed(FileRef(name));
    OpenNow(hfs);
    ScanAgain(hfs);
  }

  lemma NameFree(db: DB, name: string, t: set<Key>)
    requires db.Valid() && Coherent(db.bm.Abs(), t) && FileRef(name) !in db.bm.Abs().disk
    ensures NoneOf(t, FileRef(name)) && db.bm.Valid() && db.PoolNow() == db.bm.Abs()
    ensures db.bm.disk.files == db.bm.Abs().disk
  {
    hide ChainedHash.HashTable.Valid, Inv, Coherent, TableOK;
    db.BufValid();
    NothingOwing(db.bm.Abs(), t, FileRef(name));
  }

  /** CopyRun, with the table of open files untouched. */
  method CopyRunOver(db: DB, hfs: HeapFile, f: FileRef, buffer: array<SortRec>, items: nat, ghost h: Heap)
    requires Over(db, hfs) && Now(db, hfs).source == h && f != hfs.filePtr && |Now(db, hfs).pool.upl| >= 3
    requires Sealed(Now(db, hfs).pool, f, Now(db, hfs).owed) && items <= buffer.Length && Named(h, buffer[..items])
    requires Fits(FreshInserting(FIRSTDATA), Fetched(h, buffer[..items]))
    modifies hfs`touched
    modifies db.bm, db.bm.bufTable, db.bm.hashTable, db.bm.hashTable.ht, db.bm.hashTable.Repr, db.bm.disk, db.bm.mems
    ensures fresh(db.bm.hashTable.Repr - old(db.bm.hashTable.Repr)) && Over(db, hfs)
    ensures RunWritten(old(Now(db, hfs)), Now(db, hfs), hfs.filePtr, f,
      InsertAll(FreshInserting(FIRSTDATA), Fetched(h, old(buffer[..items]))).file)
  {
    hide ChainedHash.HashTable.Valid, BufMgr.Wired, BufMgr.Abs, BufMgr.Valid, Inv, LeavesOthers, Stored, HeapIn;
    hide KeepsStored, Fits, InsertAll, Fetched, Named, Sealed, Scanning, TableOK, CountsOf, FreshInserting;
    hide HeapFile.Valid, HeapFile.Open, HeapFile.Sole, HeapFile.PoolNow, HeapFile.View, HeapFile.Contents;
    hide HeapFile.Ahead, HeapFile.Insertion, HeapFile.AtRecord, HeapFile.CurrentEntry;
    CopyRun(hfs, f, buffer, items, h);
    ScanPool(hfs);
  }

  /** Whatever records of the source make a run, they fit in its file. */
  ghost predicate RunsFit(all: multiset<Rec>, maxItems: int) {
    forall rs: seq<Rec> :: |rs| <= maxItems && multiset(rs) <= all ==> Fits(FreshInserting(FIRSTDATA), rs)
  }

  /** Every insertion adds a page at most. */
  lemma {:induction false} PageEach(no: int, rs: seq<Rec>)
    ensures |InsertAll(FreshInserting(no), rs).file| <= 1 + |rs|
    ensures InsertAll(FreshInserting(no), rs).next == no + |InsertAll(FreshInserting(no), rs).file|
  {
    hide Target, PutOn;
    if rs != [] {
      PageEach(no, rs[..|rs| - 1]);
    }
  }

  /** Runs of up to 502 records fit, whatever the records. */
  lemma SmallRunsFit(all: multiset<Rec>, maxItems: int)
    requires maxItems <= DIRCNT - 2
    ensures RunsFit(all, maxItems)
  {
    hide InsertAll, FreshInserting;
    forall rs: seq<Rec> | |rs| <= maxItems && multiset(rs) <= all ensures Fits(FreshInserting(FIRSTDATA), rs) {
      PageEach(FIRSTDATA, rs);
      FreshAt(FIRSTDATA);
    }
  }

  lemma FreshAt(no: int)
    ensures FreshInserting(no).at <= |FreshInserting(no).file|
  {
  }

  /** Runs of records of one length fit whenever a full run takes fewer than 504 pages. */
  lemma UniformRunsFit(all: multiset<Rec>, maxItems: nat, len: nat)
    requires 1 <= len <= MAXREC && (forall r :: r in all ==> |r| == len) && PagesFor(maxItems, len) < DIRCNT
    ensures RunsFit(all, maxItems)
  {
    hide InsertAll, FreshInserting, PagesFor;
    forall rs: seq<Rec> | |rs| <= maxItems && multiset(rs) <= all ensures Fits(FreshInserting(FIRSTDATA), rs) {
      forall i | 0 <= i < |rs| ensures |rs[i]| == len {
        assert rs[i] in multiset(rs);
      }
      FreshFill(FIRSTDATA, rs, len);
      FreshAt(FIRSTDATA);
      MorePages(|rs|, maxItems, len);
    }
  }

  lemma MorePages(m: nat, n: nat, len: nat)
    requires m <= n && 1 <= len <= MAXREC
    ensures PagesFor(m, len) <= PagesFor(n, len)
  {
    hide PerPage;
    PerPageBounds(len, 0);
    var c := PerPage(len);
    if m > 0 {
      Quotients(m + c - 1, n + c - 1, c);
    } else if n > 0 {
      Quotients(c, n + c - 1, c);
    }
  }

  lemma Quotients(a: int, b: int, m: int)
    requires a <= b && 0 < m
    ensures a / m <= b / m
  {
    if a / m > b / m {
      Monotone(b / m + 1, a / m, m);
    }
  }

  /** The buffer in any order stands for the same records. */
  lemma PermutedRecords(k: SortKey, h: Heap, es: seq<Entry>, s: seq<SortRec>, t: seq<SortRec>)
    requires HeapInv(h) && FromSource(k, h, es, s) && multiset(s) == multiset(t)
    ensures multiset(Fetched(h, t)) == multiset(Records(es)) && |t| == |es|
    ensures forall i :: 0 <= i < |t| ==> Tagged(k, h, t[i])
  {
    hide RecordAt, HeapInv, FromSource, Tagged, AllEntries, Fetched;
    FromSourceFetched(k, h, es, s);
    FetchedElements(h, s, t);
    TaggedElements(k, h, s, t);
    SameSize(s, t);
    SizeOf(k, h, es, s);
  }

  lemma PartOf(es: seq<Entry>, a: nat, b: nat)
    requires a <= b <= |es|
    ensures multiset(Records(es[a..b])) <= multiset(Records(es))
  {
    assert Records(es) == Records(es)[..a] + Records(es[a..b]) + Records(es)[b..];
  }

  lemma Lengths(k: SortKey, h: Heap, r: Rec)
    requires SourceOK(k, h) && r in multiset(Records(AllEntries(h)))
    ensures |r| <= MAXREC
  {
    hide AllEntries, HeapInv, HasKey;
    var i :| 0 <= i < |AllEntries(h)| && Records(AllEntries(h))[i] == r;
  }

  /** The buffer in any order names records of the source that fit. */
  lemma PermutedFits(k: SortKey, h: Heap, a: nat, n: nat, s: seq<SortRec>, t: seq<SortRec>, maxItems: int)
    requires SourceOK(k, h) && n <= a <= |AllEntries(h)| && n <= maxItems
    requires FromSource(k, h, AllEntries(h)[a - n..a], s) && multiset(s) == multiset(t)
    requires RunsFit(multiset(Records(AllEntries(h))), maxItems)
    ensures Named(h, t) && Fits(FreshInserting(FIRSTDATA), Fetched(h, t))
  {
    hide RecordAt, HeapInv, FromSource, Tagged, AllEntries, SlotThere, LiveThere, Fits, SourceOK;
    var all := AllEntries(h);
    SourceRoom(k, h);
    PermutedRecords(k, h, all[a - n..a], s, t);
    PartOf(all, a - n, a);
    forall i | 0 <= i < |t|
      ensures SlotThere(h, t[i].rid) && LiveThere(h, t[i].rid) && 1 <= |RecordAt(h, t[i].rid)| <= MAXREC
    {
      TaggedName(k, h, t[i]);
      assert Fetched(h, t)[i] == RecordAt(h, t[i].rid) && Fetched(h, t)[i] in multiset(Fetched(h, t));
      Lengths(k, h, RecordAt(h, t[i].rid));
    }
  }

  lemma TaggedName(k: SortKey, h: Heap, x: SortRec)
    requires Tagged(k, h, x)
    ensures SlotThere(h, x.rid) && LiveThere(h, x.rid) && 1 <= |RecordAt(h, x.rid)|
  {
    hide SlotThere, LiveThere, RecordAt;
  }

  lemma SizeOf(k: SortKey, h: Heap, es: seq<Entry>, s: seq<SortRec>)
    requires FromSource(k, h, es, s)
    ensures |s| == |es|
  {
  }

  /** The run file made and written. */
  method WriteRun(db: DB, hfs: HeapFile, buffer: array<SortRec>, items: nat, name: string, ghost h: Heap)
    requires Over(db, hfs) && Now(db, hfs).source == h && items <= buffer.Length && Named(h, buffer[..items])
    requires Fits(FreshInserting(FIRSTDATA), Fetched(h, buffer[..items]))
    requires name != "" && FileRef(name) != hfs.filePtr && |Now(db, hfs).pool.upl| >= 3 && !Taken(Now(db, hfs), name)
    modifies hfs`touched
    modifies db`files, db.openFiles, db.openFiles.ht, db.openFiles.Repr, db.files
    modifies db.bm, db.bm.bufTable, db.bm.hashTable, db.bm.hashTable.ht, db.bm.hashTable.Repr, db.bm.disk, db.bm.mems
    ensures fresh(db.openFiles.Repr - old(db.openFiles.Repr)) && fresh(db.bm.hashTable.Repr - old(db.bm.hashTable.Repr))
    ensures fresh(db.files - old(db.files))
    ensures Over(db, hfs)
    ensures RunWritten(old(Now(db, hfs)), Now(db, hfs), hfs.filePtr, FileRef(name),
      InsertAll(FreshInserting(FIRSTDATA), Fetched(h, old(buffer[..items]))).file)
  {
    hide ChainedHash.HashTable.Valid, BufMgr.Wired, BufMgr.Abs, BufMgr.Valid, Inv, LeavesOthers, Stored, HeapIn;
    hide KeepsStored, Fits, InsertAll, Fetched, Named, Sealed, Scanning, TableOK, CountsOf, FreshInserting;
    hide DB.Valid, DB.Counts, DB.PoolNow, Over, Now, Taken;
    hide HeapFile.Valid, HeapFile.Open, HeapFile.Sole, HeapFile.PoolNow, HeapFile.View, HeapFile.Contents;
    hide HeapFile.Ahead, HeapFile.Insertion, HeapFile.AtRecord, HeapFile.CurrentEntry;
    ghost var n := Now(db, hfs);
    MakeFree(db, hfs, name);
    ghost var n1 := Now(db, hfs);
    LeavesStored(n.pool, n.owed, n1.pool, n1.owed, hfs.filePtr, FileRef(name));
    CopyRunOver(db, hfs, FileRef(name), buffer, items, h);
    ghost var n2 := Now(db, hfs);
    KeepsTrans(n.pool, n.owed, n1.pool, n1.owed, n2.pool, n2.owed, hfs.filePtr, FileRef(name));
  }

  /** The name tested, and the run written under it. */
  method TestAndWrite(db: DB, hfs: HeapFile, buffer: array<SortRec>, items: nat, name: string, ghost h: Heap)
    returns (status: Status)
    requires Over(db, hfs) && Now(db, hfs).source == h && items <= buffer.Length && Named(h, buffer[..items])
    requires Fits(FreshInserting(FIRSTDATA), Fetched(h, buffer[..items]))
    requires name != "" && FileRef(name) != hfs.filePtr && |Now(db, hfs).pool.upl| >= 3
    modifies hfs`touched
    modifies db`files, db.openFiles, db.openFiles.ht, db.openFiles.Repr, db.files
    modifies db.bm, db.bm.bufTable, db.bm.hashTable, db.bm.hashTable.ht, db.bm.hashTable.Repr, db.bm.disk, db.bm.mems
    ensures fresh(db.openFiles.Repr - old(db.openFiles.Repr)) && fresh(db.bm.hashTable.Repr - old(db.bm.hashTable.Repr))
    ensures fresh(db.files - old(db.files))
    ensures Over(db, hfs) && status == if Taken(old(Now(db, hfs)), name) then FILEEXISTS else OK
    ensures status == OK ==> RunWritten(old(Now(db, hfs)), Now(db, hfs), hfs.filePtr, FileRef(name),
      InsertAll(FreshInserting(FIRSTDATA), Fetched(h, old(buffer[..items]))).file)
    ensures status != OK ==> Now(db, hfs) == old(Now(db, hfs))
  {
    hide ChainedHash.HashTable.Valid, BufMgr.Wired, BufMgr.Abs, BufMgr.Valid, Inv, LeavesOthers, Stored, HeapIn;
    hide KeepsStored, Fits, InsertAll, Fetched, Named, Sealed, Scanning, TableOK, CountsOf, FreshInserting;
    hide DB.Valid, DB.Counts, DB.PoolNow, Over, Now, Taken, RunWritten;
    hide HeapFile.Valid, HeapFile.Open, HeapFile.Sole, HeapFile.PoolNow, HeapFile.View, HeapFile.Contents;
    hide HeapFile.Ahead, HeapFile.Insertion, HeapFile.AtRecord, HeapFile.CurrentEntry;
    status := TestRunName(db, hfs, name);
    if status == OK {
      WriteRun(db, hfs, buffer, items, name, h);
    }
  }

  /** The keys in the buffer sorted; they name records of the source that fit in a run file. */
  method SortBuffer(db: DB, hfs: HeapFile, k: SortKey, buffer: array<SortRec>, items: nat, ghost h: Heap, ghost a: nat)
    requires Over(db, hfs) && SourceOK(k, h) && items <= buffer.Length && items <= a <= |AllEntries(h)|
    requires FromSource(k, h, AllEntries(h)[a - items..a], buffer[..items])
    requires RunsFit(multiset(Records(AllEntries(h))), buffer.Length)
    modifies buffer
    ensures Over(db, hfs) && Now(db, hfs) == old(Now(db, hfs))
    ensures multiset(buffer[..items]) == multiset(old(buffer[..items]))
    ensures FieldsComparable(k, old(buffer[..items])) ==> FieldsSorted(k, buffer[..items])
    ensures Named(h, buffer[..items]) && Fits(FreshInserting(FIRSTDATA), Fetched(h, buffer[..items]))
  {
    hide Fits, Fetched, Named, FreshInserting, AllEntries, FromSource, FieldsComparable, FieldsSorted, SourceOK;
    hide RunsFit;
    hide Over, Now;
    ghost var s := buffer[..items];
    QSort(k, buffer, items);
    PermutedFits(k, h, a, items, s, buffer[..items], buffer.Length);
  }

  /** A run of which nothing has been fetched. */
  function Unread(file: Heap): Run { Run(file, 0, false, NULLRID, []) }

  /** The run that is in a file nobody has open. */
  ghost function RunIn(p: Pool, f: FileRef, t: set<Key>): Run { Unread(HeapIn(p, f, t)) }

  /** What makes a good run of the records `rs` of a source with all records `all`. */
  ghost predicate GoodRun(k: SortKey, all: multiset<Rec>, rs: seq<Rec>, r: Run) {
    && RunOK(r) && r == Unread(r.file) && |RunRecords(r)| == |rs| && multiset(Left(r)) == multiset(rs)
    && |r.file| < DIRCNT
    && (Sortable(k, all) ==> Sorted(k, RunRecords(r)))
  }

  lemma BatchMade(k: SortKey, h: Heap, a: nat, n: nat, s: seq<SortRec>, t: seq<SortRec>, file: Heap)
    requires SourceOK(k, h) && n <= a <= |AllEntries(h)| && FromSource(k, h, AllEntries(h)[a - n..a], s)
    requires multiset(s) == multiset(t) && (FieldsComparable(k, s) ==> FieldsSorted(k, t))
    requires Fits(FreshInserting(FIRSTDATA), Fetched(h, t))
    requires file == InsertAll(FreshInserting(FIRSTDATA), Fetched(h, t)).file
    ensures GoodRun(k, multiset(Records(AllEntries(h))), Records(AllEntries(h)[a - n..a]), Unread(file))
  {
    hide HeapInv, FromSource, FieldsComparable, Sortable, FieldsSorted, InsertAll, AllEntries, Sorted, Fetched, Keyed;
    hide RunOK, Left;
    var all := AllEntries(h);
    PartOf(all, a - n, a);
    Smaller(k, multiset(Records(all)), multiset(Records(all[a - n..a])));
    RunMade(k, h, all[a - n..a], s, t, file);
  }

  /** The sort has passed the first `a` records of the source. */
  ghost predicate Reached(n: Snapshot, h: Heap, a: nat) {
    n.source == h && a <= |AllEntries(h)| && n.ahead == AllEntries(h)[a..]
  }

  /** generateRun: sorts the keys in the buffer, makes the run file, fetches the records they were
      copied from and inserts them in it. */
  method GenerateRun(db: DB, hfs: HeapFile, k: SortKey, buffer: array<SortRec>, items: nat, name: string,
      ghost h: Heap, ghost a: nat) returns (status: Status)
    requires Over(db, hfs) && SourceOK(k, h) && Reached(Now(db, hfs), h, a) && items <= a && items <= buffer.Length
    requires FromSource(k, h, AllEntries(h)[a - items..a], buffer[..items])
    requires RunsFit(multiset(Records(AllEntries(h))), buffer.Length)
    requires name != "" && FileRef(name) != hfs.filePtr && |Now(db, hfs).pool.upl| >= 3
    modifies buffer, hfs`touched
    modifies db`files, db.openFiles, db.openFiles.ht, db.openFiles.Repr, db.files
    modifies db.bm, db.bm.bufTable, db.bm.hashTable, db.bm.hashTable.ht, db.bm.hashTable.Repr, db.bm.disk, db.bm.mems
    ensures fresh(db.openFiles.Repr - old(db.openFiles.Repr)) && fresh(db.bm.hashTable.Repr - old(db.bm.hashTable.Repr))
    ensures fresh(db.files - old(db.files))
    ensures Over(db, hfs) && status == if Taken(old(Now(db, hfs)), name) then FILEEXISTS else OK
    ensures status != OK ==> Now(db, hfs) == old(Now(db, hfs))
    ensures status == OK ==> RunWritten(old(Now(db, hfs)), Now(db, hfs), hfs.filePtr, FileRef(name),
      HeapIn(Now(db, hfs).pool, FileRef(name), Now(db, hfs).owed))
    ensures status == OK ==>
      GoodRun(k, multiset(Records(AllEntries(h))), Records(AllEntries(h)[a - items..a]),
        RunIn(Now(db, hfs).pool, FileRef(name), Now(db, hfs).owed))
  {
    hide ChainedHash.HashTable.Valid, BufMgr.Wired, BufMgr.Abs, BufMgr.Valid, Inv, LeavesOthers, Stored, HeapIn;
    hide KeepsStored, Fits, InsertAll, Fetched, Named, Sealed, Scanning, TableOK, CountsOf, FreshInserting;
    hide DB.Valid, DB.Counts, DB.PoolNow, Over, Now, Taken, GoodRun;
    hide AllEntries, FromSource, FieldsComparable, FieldsSorted, SourceOK, RunsFit, FieldLe, Sortable;
    hide HeapFile.Valid, HeapFile.Open, HeapFile.Sole, HeapFile.PoolNow, HeapFile.View, HeapFile.Contents;
    hide HeapFile.Ahead, HeapFile.Insertion, HeapFile.AtRecord, HeapFile.CurrentEntry;
    ghost var s := buffer[..items];
    SortBuffer(db, hfs, k, buffer, items, h, a);
    ghost var t := buffer[..items];
    status := TestAndWrite(db, hfs, buffer, items, name, h);
    if status == OK {
      BatchMade(k, h, a, items, s, t, HeapIn(Now(db, hfs).pool, FileRef(name), Now(db, hfs).owed));
    }
  }

  // ----- sortFile -----

  /** Of the source h, the first `pos` records are in the runs rs; all runs but the last are full. */
  ghost predicate SplitUpTo(k: SortKey, h: Heap, m: int, rs: seq<Run>, pos: nat) {
    var es := AllEntries(h);
    && pos <= |es| && RunsOK(rs) && Rest(rs) == multiset(Records(es[..pos]))
    && (Sortable(k, multiset(Records(es))) ==> RunsSorted(k, rs))
    && (forall i :: 0 <= i < |rs| ==>
         1 <= |RunRecords(rs[i])| <= m && rs[i] == Unread(rs[i].file) && |rs[i].file| < DIRCNT)
    && FullBatches(|rs|, m, pos, |es|)
  }

  lemma SplitNone(k: SortKey, h: Heap, m: int)
    requires 0 < m
    ensures SplitUpTo(k, h, m, [], 0)
  {
    hide AllEntries, Sortable;
    assert AllEntries(h)[..0] == [] && Records([]) == [];
    NoBatches(m, |AllEntries(h)|);
  }

  /** One run more. */
  lemma SplitNext(k: SortKey, h: Heap, m: int, rs: seq<Run>, r: Run, pos: nat, items: nat)
    requires SplitUpTo(k, h, m, rs, pos) && 1 <= items <= m && pos + items <= |AllEntries(h)|
    requires (items < m ==> pos + items == |AllEntries(h)|)
    requires GoodRun(k, multiset(Records(AllEntries(h))), Records(AllEntries(h)[pos..pos + items]), r)
    ensures SplitUpTo(k, h, m, rs + [r], pos + items)
  {
    hide AllEntries, RunOK, Left, RunRecords, FullBatches, Rest, RunsOK, RunsSorted, Sorted, Sortable;
    var es := AllEntries(h);
    RestAppend(rs, r);
    if Sortable(k, multiset(Records(es))) {
      SortedAppend(k, rs, r);
    }
    assert es[..pos + items] == es[..pos] + es[pos..pos + items];
    assert Records(es[..pos + items]) == Records(es[..pos]) + Records(es[pos..pos + items]);
    OneMoreBatch(|rs|, m, pos, items, |es|);
  }

  function Batches(n: nat, m: int): int
    requires 0 < m
  {
    (n + m - 1) / m
  }

  /** A record that is left calls for one run more. */
  lemma RunMissing(count: nat, m: int, pos: nat, n: nat)
    requires 0 < m && FullBatches(count, m, pos, n) && pos < n
    ensures count + 1 <= Batches(n, m)
  {
    Quotient(n + m - 1, (n - 1) / m + 1, m, (n - 1) % m);
    if (n - 1) / m < count {
      Monotone((n - 1) / m + 1, count, m);
    }
  }

  lemma Monotone(a: int, b: int, m: int)
    requires a <= b && 0 < m
    ensures a * m <= b * m
  {
  }

  /** The file of that run. */
  function RunFile(fileName: string, i: nat): FileRef { FileRef(RunName(fileName, i)) }

  /** The runs are in files that nobody has open. */
  ghost predicate RunsOn(p: Pool, t: set<Key>, fileName: string, rs: seq<Run>) {
    forall i :: 0 <= i < |rs| ==>
      Stored(p, RunFile(fileName, i), t) && HeapIn(p, RunFile(fileName, i), t) == rs[i].file
  }

  /** The names of the runs made were free, and those of later runs are free or taken as they were. */
  ghost predicate NamesKept(n0: Snapshot, n: Snapshot, fileName: string, count: nat) {
    && (forall i: nat :: i < count ==> !Taken(n0, RunName(fileName, i)))
    && (forall i: nat :: i >= count ==> (Taken(n, RunName(fileName, i)) <==> Taken(n0, RunName(fileName, i))))
  }

  /** Where sortFile stands: it started at n0, is at n, and has made the runs rs. */
  ghost predicate Splitting(n0: Snapshot, n: Snapshot, k: SortKey, h: Heap, m: int, fileName: string, rs: seq<Run>,
      pos: nat) {
    && Reached(n, h, pos) && n.counts == n0.counts && |n.pool.upl| == |n0.pool.upl|
    && SplitUpTo(k, h, m, rs, pos) && RunsOn(n.pool, n.owed, fileName, rs) && NamesKept(n0, n, fileName, |rs|)
  }

  /** Work on the source alone keeps the runs. */
  lemma RunsKept(p: Pool, s: set<Key>, q: Pool, t: set<Key>, fileName: string, rs: seq<Run>, g: FileRef)
    requires RunsOn(p, s, fileName, rs) && KeepsStored(p, s, q, t, FileRef(fileName), g)
    requires forall i :: 0 <= i < |rs| ==> RunFile(fileName, i) != g
    ensures RunsOn(q, t, fileName, rs)
  {
    hide Stored, HeapIn;
    forall i | 0 <= i < |rs|
      ensures Stored(q, RunFile(fileName, i), t) && HeapIn(q, RunFile(fileName, i), t) == rs[i].file
    {
      RunNamesApart(fileName, i, i);
      assert Stored(p, RunFile(fileName, i), s) && HeapIn(p, RunFile(fileName, i), s) == rs[i].file;
    }
  }

  /** Reading on. */
  lemma SplittingRead(n0: Snapshot, n: Snapshot, n': Snapshot, fileName: string, count: nat)
    requires NamesKept(n0, n, fileName, count) && n'.counts == n.counts
    requires KeepsStored(n.pool, n.owed, n'.pool, n'.owed, FileRef(fileName), FileRef(fileName))
    ensures NamesKept(n0, n', fileName, count)
  {
    hide Stored, HeapIn;
    forall i: nat | i >= count
      ensures Taken(n', RunName(fileName, i)) <==> Taken(n, RunName(fileName, i))
    {
      RunNamesApart(fileName, i, i);
    }
  }

  /** One run more on the pool. */
  lemma SplittingRun(n0: Snapshot, n: Snapshot, n': Snapshot, fileName: string, rs: seq<Run>, file: Heap)
    requires NamesKept(n0, n, fileName, |rs|) && RunsOn(n.pool, n.owed, fileName, rs)
    requires !Taken(n, RunName(fileName, |rs|))
    requires RunWritten(n, n', FileRef(fileName), RunFile(fileName, |rs|), file)
    ensures NamesKept(n0, n', fileName, |rs| + 1)
    ensures RunsOn(n'.pool, n'.owed, fileName, rs + [Unread(file)])
  {
    hide Stored, HeapIn;
    hide RunName;
    var m := |rs|;
    forall i: nat | i > m
      ensures Taken(n', RunName(fileName, i)) <==> Taken(n, RunName(fileName, i))
    {
      RunNamesApart(fileName, i, m);
    }
    forall i | 0 <= i < |rs|
      ensures RunFile(fileName, i) != RunFile(fileName, m)
    {
      RunNamesApart(fileName, i, m);
    }
    RunsKept(n.pool, n.owed, n'.pool, n'.owed, fileName, rs, RunFile(fileName, m));
  }

  /** FillBuffer, with the table of open files untouched. */
  method FillOver(db: DB, hfs: HeapFile, k: SortKey, buffer: array<SortRec>, ghost h: Heap, ghost pos: nat)
    returns (numItems: nat)
    requires Over(db, hfs) && SourceOK(k, h) && KeyOK(k) && Reached(Now(db, hfs), h, pos)
    modifies hfs`curPage, hfs`curPageNo, hfs`touched, hfs`curIdx, hfs`curRec, buffer
    modifies db.bm, db.bm.bufTable, db.bm.hashTable, db.bm.hashTable.ht, db.bm.hashTable.Repr, db.bm.disk, db.bm.mems
    ensures fresh(db.bm.hashTable.Repr - old(db.bm.hashTable.Repr)) && numItems <= buffer.Length
    ensures Over(db, hfs) && Reached(Now(db, hfs), h, pos + numItems)
    ensures FromSource(k, h, AllEntries(h)[pos..pos + numItems], buffer[..numItems])
    ensures numItems < buffer.Length ==> pos + numItems == |AllEntries(h)|
    ensures Now(db, hfs).counts == old(Now(db, hfs)).counts && |Now(db, hfs).pool.upl| == |old(Now(db, hfs)).pool.upl|
    ensures KeepsStored(old(Now(db, hfs)).pool, old(Now(db, hfs)).owed, Now(db, hfs).pool, Now(db, hfs).owed,
      hfs.filePtr, hfs.filePtr)
  {
    hide ChainedHash.HashTable.Valid, BufMgr.Wired, BufMgr.Abs, BufMgr.Valid, Inv, LeavesOthers, KeepsStored;
    hide TableOK, CountsOf, AllEntries, FromSource, SourceOK, Scanning;
    hide HeapFile.Valid, HeapFile.Open, HeapFile.Sole, HeapFile.PoolNow, HeapFile.View, HeapFile.Contents;
    hide HeapFile.Ahead, HeapFile.Insertion, HeapFile.AtRecord, HeapFile.CurrentEntry;
    NoneFromSource(k, h, pos);
    PassedNone(db, hfs, k, h, pos);
    numItems := FillBuffer(hfs, k, buffer, h, pos);
    ScanPool(hfs);
    LeavesStored(old(Now(db, hfs)).pool, hfs.touched, Now(db, hfs).pool, hfs.touched, hfs.filePtr, hfs.filePtr);
  }

  lemma PassedNone(db: DB, hfs: HeapFile, k: SortKey, h: Heap, pos: nat)
    requires Over(db, hfs) && Reached(Now(db, hfs), h, pos)
    ensures Passed(hfs, k, h, pos, []) && hfs.bm == db.bm && Scanning(hfs) && hfs.Sole()
  {
    hide DB.Valid, HeapFile.Valid, HeapFile.Sole, HeapFile.PoolNow, HeapFile.Contents, HeapFile.Ahead, AllEntries;
    NoneFromSource(k, h, pos);
  }

  /** A batch of `items` more records has been read. */
  ghost predicate Filled(n0: Snapshot, n: Snapshot, k: SortKey, h: Heap, m: int, fileName: string, rs: seq<Run>,
      pos: nat, items: nat) {
    && Reached(n, h, pos + items) && n.counts == n0.counts && |n.pool.upl| == |n0.pool.upl|
    && SplitUpTo(k, h, m, rs, pos) && RunsOn(n.pool, n.owed, fileName, rs) && NamesKept(n0, n, fileName, |rs|)
    && items <= m && (items < m ==> pos + items == |AllEntries(h)|)
  }

  lemma FilledName(n0: Snapshot, n: Snapshot, k: SortKey, h: Heap, m: int, fileName: string, rs: seq<Run>, pos: nat,
      items: nat)
    requires Filled(n0, n, k, h, m, fileName, rs, pos, items)
    ensures Taken(n, RunName(fileName, |rs|)) <==> Taken(n0, RunName(fileName, |rs|))
    ensures RunName(fileName, |rs|) != "" && FileRef(RunName(fileName, |rs|)) != FileRef(fileName)
    ensures Reached(n, h, pos + items) && pos + items <= |AllEntries(h)| && |n.pool.upl| == |n0.pool.upl| && items <= m
  {
    hide RunName, Taken, NamesKept, SplitUpTo, RunsOn, AllEntries;
    NextName(n0, n, fileName, |rs|);
  }

  /** The run of the batch has been written. */
  lemma FilledRun(n0: Snapshot, n: Snapshot, n': Snapshot, k: SortKey, h: Heap, m: int, fileName: string, rs: seq<Run>,
      pos: nat, items: nat, r: Run)
    requires Filled(n0, n, k, h, m, fileName, rs, pos, items) && items >= 1
    requires !Taken(n, RunName(fileName, |rs|)) && r == Unread(r.file)
    requires RunWritten(n, n', FileRef(fileName), RunFile(fileName, |rs|), r.file)
    requires GoodRun(k, multiset(Records(AllEntries(h))), Records(AllEntries(h)[pos..pos + items]), r)
    ensures Splitting(n0, n', k, h, m, fileName, rs + [r], pos + items)
  {
    hide RunName, Taken, NamesKept, SplitUpTo, RunsOn, AllEntries, GoodRun, Stored, HeapIn, KeepsStored;
    SplittingRun(n0, n, n', fileName, rs, r.file);
    SplitNext(k, h, m, rs, r, pos, items);
  }

  /** The sort is set up: what it asks of its source, its buffer and the frames left at n0. */
  ghost predicate SplitReady(db: DB, hfs: HeapFile, k: SortKey, buffer: array<SortRec>, fileName: string, h: Heap,
      n0: Snapshot)
    reads hfs, db, db.openFiles, db.openFiles.ht, db.openFiles.Repr, db.files
    reads db.bm, db.bm.bufTable, db.bm.hashTable, db.bm.hashTable.ht, db.bm.hashTable.Repr, db.bm.disk, db.bm.mems
  {
    && Over(db, hfs) && hfs.filePtr == FileRef(fileName) && SourceOK(k, h) && KeyOK(k) && 0 < buffer.Length
    && RunsFit(multiset(Records(AllEntries(h))), buffer.Length) && (AllEntries(h) != [] ==> |n0.pool.upl| >= 3)
  }

  /** The batch in the buffer, if it is not empty, made into a run. */
  method RunBatch(db: DB, hfs: HeapFile, k: SortKey, buffer: array<SortRec>, items: nat, fileName: string,
      count: nat, ghost n0: Snapshot, ghost h: Heap, ghost rs: seq<Run>, ghost pos: nat)
    returns (status: Status, ghost rs': seq<Run>)
    requires SplitReady(db, hfs, k, buffer, fileName, h, n0) && count == |rs|
    requires Filled(n0, Now(db, hfs), k, h, buffer.Length, fileName, rs, pos, items)
    requires FromSource(k, h, AllEntries(h)[pos..pos + items], buffer[..items])
    requires items == 0 ==> Splitting(n0, Now(db, hfs), k, h, buffer.Length, fileName, rs, pos)
    modifies hfs`touched, buffer
    modifies db`files, db.openFiles, db.openFiles.ht, db.openFiles.Repr, db.files
    modifies db.bm, db.bm.bufTable, db.bm.hashTable, db.bm.hashTable.ht, db.bm.hashTable.Repr, db.bm.disk, db.bm.mems
    ensures fresh(db.openFiles.Repr - old(db.openFiles.Repr)) && fresh(db.bm.hashTable.Repr - old(db.bm.hashTable.Repr))
    ensures fresh(db.files - old(db.files))
    ensures SplitReady(db, hfs, k, buffer, fileName, h, n0)
    ensures status == if items > 0 && Taken(n0, RunName(fileName, count)) then FILEEXISTS else OK
    ensures status != OK ==> |Now(db, hfs).pool.upl| == |n0.pool.upl|
    ensures status == OK ==> Splitting(n0, Now(db, hfs), k, h, buffer.Length, fileName, rs', pos + items)
    ensures |rs'| == |rs| + if items == 0 then 0 else 1
  {
    hide ChainedHash.HashTable.Valid, BufMgr.Wired, BufMgr.Abs, BufMgr.Valid, Inv, LeavesOthers, KeepsStored, Stored;
    hide TableOK, CountsOf, AllEntries, FromSource, SourceOK, Scanning, SplitUpTo, RunsFit, GoodRun, HeapIn, Over, Now;
    hide RunsOn, NamesKept, RunName, Taken;
    hide HeapFile.Valid, HeapFile.Open, HeapFile.Sole, HeapFile.PoolNow, HeapFile.View, HeapFile.Contents;
    hide HeapFile.Ahead, HeapFile.Insertion, HeapFile.AtRecord, HeapFile.CurrentEntry;
    hide Filled, Splitting;
    if items == 0 {
      return OK, rs;
    }
    ghost var n := Now(db, hfs);
    FilledName(n0, n, k, h, buffer.Length, fileName, rs, pos, items);
    status := GenerateRun(db, hfs, k, buffer, items, RunName(fileName, count), h, pos + items);
    ghost var n' := Now(db, hfs);
    ghost var r := RunIn(n'.pool, RunFile(fileName, count), n'.owed);
    rs' := rs + [r];
    if status == OK {
      FilledRun(n0, n, n', k, h, buffer.Length, fileName, rs, pos, items, r);
    }
  }

  /** Reading a batch. */
  lemma SplittingFilled(n0: Snapshot, n: Snapshot, n': Snapshot, k: SortKey, h: Heap, m: int, fileName: string,
      rs: seq<Run>, pos: nat, items: nat)
    requires Splitting(n0, n, k, h, m, fileName, rs, pos) && Reached(n', h, pos + items)
    requires n'.counts == n.counts && |n'.pool.upl| == |n.pool.upl|
    requires KeepsStored(n.pool, n.owed, n'.pool, n'.owed, FileRef(fileName), FileRef(fileName))
    requires items <= m && (items < m ==> pos + items == |AllEntries(h)|)
    ensures Filled(n0, n', k, h, m, fileName, rs, pos, items)
    ensures items == 0 ==> Splitting(n0, n', k, h, m, fileName, rs, pos)
  {
    hide NamesKept, SplitUpTo, RunsOn, AllEntries, KeepsStored;
    RunsRead(n, n', fileName, rs);
    SplittingRead(n0, n, n', fileName, |rs|);
  }

  /** A batch read. */
  method ReadBatch(db: DB, hfs: HeapFile, k: SortKey, buffer: array<SortRec>, fileName: string,
      ghost n0: Snapshot, ghost h: Heap, ghost rs: seq<Run>, ghost pos: nat) returns (numItems: nat)
    requires SplitReady(db, hfs, k, buffer, fileName, h, n0)
    requires Splitting(n0, Now(db, hfs), k, h, buffer.Length, fileName, rs, pos)
    modifies hfs`curPage, hfs`curPageNo, hfs`touched, hfs`curIdx, hfs`curRec, buffer
    modifies db.bm, db.bm.bufTable, db.bm.hashTable, db.bm.hashTable.ht, db.bm.hashTable.Repr, db.bm.disk, db.bm.mems
    ensures fresh(db.bm.hashTable.Repr - old(db.bm.hashTable.Repr)) && numItems <= buffer.Length
    ensures SplitReady(db, hfs, k, buffer, fileName, h, n0)
    ensures Filled(n0, Now(db, hfs), k, h, buffer.Length, fileName, rs, pos, numItems)
    ensures pos + numItems <= |AllEntries(h)|
    ensures FromSource(k, h, AllEntries(h)[pos..pos + numItems], buffer[..numItems])
    ensures numItems == 0 ==> Splitting(n0, Now(db, hfs), k, h, buffer.Length, fileName, rs, pos)
    ensures numItems < buffer.Length ==> pos + numItems == |AllEntries(h)|
  {
    hide ChainedHash.HashTable.Valid, BufMgr.Wired, BufMgr.Abs, BufMgr.Valid, Inv, LeavesOthers, KeepsStored, Stored;
    hide TableOK, CountsOf, AllEntries, FromSource, SourceOK, Scanning, SplitUpTo, RunsFit, GoodRun, HeapIn, Over, Now;
    hide RunsOn, NamesKept, RunName, Taken;
    hide HeapFile.Valid, HeapFile.Open, HeapFile.Sole, HeapFile.PoolNow, HeapFile.View, HeapFile.Contents;
    hide HeapFile.Ahead, HeapFile.Insertion, HeapFile.AtRecord, HeapFile.CurrentEntry;
    hide Filled, Splitting;
    ghost var n := Now(db, hfs);
    SplittingStart(n0, n, k, h, buffer.Length, fileName, rs, pos);
    numItems := FillOver(db, hfs, k, buffer, h, pos);
    SplittingFilled(n0, n, Now(db, hfs), k, h, buffer.Length, fileName, rs, pos, numItems);
  }

  /** Some run of a source of n records would get a name that is taken. */
  ghost predicate RunTaken(counts: map<string, int>, disk: map<FileRef, FileSpec.Pages>, fileName: string, n: nat,
      m: int)
    requires 0 < m
  {
    exists i: nat :: i < Batches(n, m) && NameTaken(counts, disk, RunName(fileName, i))
  }

  ghost predicate SomeTaken(n0: Snapshot, fileName: string, h: Heap, m: int)
    requires 0 < m
  {
    RunTaken(n0.counts, n0.pool.disk, fileName, |AllEntries(h)|, m)
  }

  lemma NoneTaken(n0: Snapshot, n: Snapshot, k: SortKey, h: Heap, m: int, fileName: string, rs: seq<Run>)
    requires 0 < m && Splitting(n0, n, k, h, m, fileName, rs, |AllEntries(h)|)
    ensures |rs| == Batches(|AllEntries(h)|, m) && !SomeTaken(n0, fileName, h, m)
  {
    hide AllEntries, NameTaken, RunName, RunsOK, Rest, Sortable, RunsSorted, RunRecords, RunsOn;
    BatchCount(|rs|, m, |AllEntries(h)|);
  }

  lemma OneTaken(n0: Snapshot, n: Snapshot, k: SortKey, h: Heap, m: int, fileName: string, rs: seq<Run>, pos: nat)
    requires 0 < m && Splitting(n0, n, k, h, m, fileName, rs, pos) && pos < |AllEntries(h)|
    requires Taken(n0, RunName(fileName, |rs|))
    ensures SomeTaken(n0, fileName, h, m)
  {
    hide AllEntries, NameTaken, RunName, RunsOK, Rest, Sortable, RunsSorted, RunRecords, RunsOn;
    RunMissing(|rs|, m, pos, |AllEntries(h)|);
  }

  lemma MaybeTaken(n0: Snapshot, n: Snapshot, k: SortKey, h: Heap, m: int, fileName: string, rs: seq<Run>, pos: nat,
      items: nat)
    requires 0 < m && Splitting(n0, n, k, h, m, fileName, rs, pos) && pos + items <= |AllEntries(h)|
    ensures items > 0 && Taken(n0, RunName(fileName, |rs|)) ==> SomeTaken(n0, fileName, h, m)
  {
    hide Splitting, SomeTaken, AllEntries, Taken, RunName;
    if items > 0 && Taken(n0, RunName(fileName, |rs|)) {
      OneTaken(n0, n, k, h, m, fileName, rs, pos);
    }
  }

  /** One round of the loop of sortFile: a batch read, and its run made. */
  method SortBatch(db: DB, hfs: HeapFile, k: SortKey, buffer: array<SortRec>, fileName: string, count: nat,
      ghost n0: Snapshot, ghost h: Heap, ghost rs: seq<Run>, ghost pos: nat)
    returns (status: Status, numItems: nat, ghost rs': seq<Run>)
    requires SplitReady(db, hfs, k, buffer, fileName, h, n0) && count == |rs| && 0 < buffer.Length
    requires Splitting(n0, Now(db, hfs), k, h, buffer.Length, fileName, rs, pos)
    modifies hfs`curPage, hfs`curPageNo, hfs`touched, hfs`curIdx, hfs`curRec, buffer
    modifies db`files, db.openFiles, db.openFiles.ht, db.openFiles.Repr, db.files
    modifies db.bm, db.bm.bufTable, db.bm.hashTable, db.bm.hashTable.ht, db.bm.hashTable.Repr, db.bm.disk, db.bm.mems
    ensures fresh(db.openFiles.Repr - old(db.openFiles.Repr)) && fresh(db.bm.hashTable.Repr - old(db.bm.hashTable.Repr))
    ensures fresh(db.files - old(db.files))
    ensures SplitReady(db, hfs, k, buffer, fileName, h, n0)
    ensures pos + numItems <= |AllEntries(h)| && |rs'| == |rs| + if numItems == 0 then 0 else 1
    ensures status == OK ==> Splitting(n0, Now(db, hfs), k, h, buffer.Length, fileName, rs', pos + numItems)
    ensures status != OK ==> status == FILEEXISTS && SomeTaken(n0, fileName, h, buffer.Length)
    ensures status != OK ==> |Now(db, hfs).pool.upl| == |n0.pool.upl|
    ensures numItems == 0 ==> status == OK && pos == |AllEntries(h)|
  {
    hide ChainedHash.HashTable.Valid, BufMgr.Wired, BufMgr.Abs, BufMgr.Valid, Inv, LeavesOthers, KeepsStored, Stored;
    hide TableOK, CountsOf, AllEntries, FromSource, SourceOK, Scanning, SplitUpTo, RunsFit, GoodRun, HeapIn, Over, Now;
    hide RunsOn, NamesKept, RunName, Taken;
    hide HeapFile.Valid, HeapFile.Open, HeapFile.Sole, HeapFile.PoolNow, HeapFile.View, HeapFile.Contents;
    hide HeapFile.Ahead, HeapFile.Insertion, HeapFile.AtRecord, HeapFile.CurrentEntry;
    hide Filled, Splitting, SplitReady, SomeTaken;
    ghost var n := Now(db, hfs);
    numItems := ReadBatch(db, hfs, k, buffer, fileName, n0, h, rs, pos);
    MaybeTaken(n0, n, k, h, buffer.Length, fileName, rs, pos, numItems);
    status, rs' := RunBatch(db, hfs, k, buffer, numItems, fileName, count, n0, h, rs, pos);
  }

  lemma SplittingStart(n0: Snapshot, n: Snapshot, k: SortKey, h: Heap, m: int, fileName: string, rs: seq<Run>, pos: nat)
    requires Splitting(n0, n, k, h, m, fileName, rs, pos)
    ensures Reached(n, h, pos) && |n.pool.upl| == |n0.pool.upl| && pos <= |AllEntries(h)|
  {
    hide NamesKept, SplitUpTo, RunsOn, AllEntries;
  }

  lemma RunsRead(n: Snapshot, n': Snapshot, fileName: string, rs: seq<Run>)
    requires RunsOn(n.pool, n.owed, fileName, rs)
    requires KeepsStored(n.pool, n.owed, n'.pool, n'.owed, FileRef(fileName), FileRef(fileName))
    ensures RunsOn(n'.pool, n'.owed, fileName, rs)
  {
    hide KeepsStored, RunsOn;
    forall i | 0 <= i < |rs|
      ensures RunFile(fileName, i) != FileRef(fileName)
    {
      RunNamesApart(fileName, i, i);
    }
    RunsKept(n.pool, n.owed, n'.pool, n'.owed, fileName, rs, FileRef(fileName));
  }

  lemma NextName(n0: Snapshot, n: Snapshot, fileName: string, count: nat)
    requires NamesKept(n0, n, fileName, count)
    ensures Taken(n, RunName(fileName, count)) <==> Taken(n0, RunName(fileName, count))
    ensures RunName(fileName, count) != "" && FileRef(RunName(fileName, count)) != FileRef(fileName)
  {
    hide RunName, Taken;
    RunNamesApart(fileName, count, count);
  }

  /** The loop of sortFile: the source split into runs, unless the name of one of them is taken. */
  method SplitSource(db: DB, hfs: HeapFile, k: SortKey, buffer: array<SortRec>, fileName: string, ghost h: Heap)
    returns (status: Status, count: nat, ghost rs: seq<Run>)
    requires SplitReady(db, hfs, k, buffer, fileName, h, Now(db, hfs))
    requires Reached(Now(db, hfs), h, 0) && 0 < buffer.Length
    modifies hfs`curPage, hfs`curPageNo, hfs`touched, hfs`curIdx, hfs`curRec, buffer
    modifies db`files, db.openFiles, db.openFiles.ht, db.openFiles.Repr, db.files
    modifies db.bm, db.bm.bufTable, db.bm.hashTable, db.bm.hashTable.ht, db.bm.hashTable.Repr, db.bm.disk, db.bm.mems
    ensures fresh(db.openFiles.Repr - old(db.openFiles.Repr)) && fresh(db.bm.hashTable.Repr - old(db.bm.hashTable.Repr))
    ensures fresh(db.files - old(db.files))
    ensures SplitReady(db, hfs, k, buffer, fileName, h, old(Now(db, hfs))) && count == |rs|
    ensures status == if SomeTaken(old(Now(db, hfs)), fileName, h, buffer.Length) then FILEEXISTS else OK
    ensures status != OK ==> |Now(db, hfs).pool.upl| == |old(Now(db, hfs)).pool.upl|
    ensures status == OK ==>
      Splitting(old(Now(db, hfs)), Now(db, hfs), k, h, buffer.Length, fileName, rs, |AllEntries(h)|)
  {
    hide ChainedHash.HashTable.Valid, BufMgr.Wired, BufMgr.Abs, BufMgr.Valid, Inv, LeavesOthers, KeepsStored, Stored;
    hide TableOK, CountsOf, AllEntries, FromSource, SourceOK, Scanning, SplitUpTo, RunsFit, GoodRun, HeapIn, Over, Now;
    hide RunsOn, NamesKept, RunName, Taken;
    hide HeapFile.Valid, HeapFile.Open, HeapFile.Sole, HeapFile.PoolNow, HeapFile.View, HeapFile.Contents;
    hide HeapFile.Ahead, HeapFile.Insertion, HeapFile.AtRecord, HeapFile.CurrentEntry;
    hide Splitting, SomeTaken, SplitReady, Reached, DB.Valid, DB.Counts, DB.PoolNow;
    ghost var n0 := Now(db, hfs);
    ghost var pos := 0;
    count, rs, status := 0, [], OK;
    SplittingNone(n0, k, h, buffer.Length, fileName);
    var numItems := 1;
    while status == OK && numItems > 0
      invariant fresh(db.openFiles.Repr - old(db.openFiles.Repr))
      invariant fresh(db.bm.hashTable.Repr - old(db.bm.hashTable.Repr))
      invariant fresh(db.files - old(db.files))
      invariant SplitReady(db, hfs, k, buffer, fileName, h, n0) && count == |rs| && pos <= |AllEntries(h)|
      invariant status == OK ==> Splitting(n0, Now(db, hfs), k, h, buffer.Length, fileName, rs, pos)
      invariant status != OK ==> status == FILEEXISTS && SomeTaken(n0, fileName, h, buffer.Length)
      invariant status != OK ==> |Now(db, hfs).pool.upl| == |n0.pool.upl|
      invariant numItems == 0 ==> pos == |AllEntries(h)|
      decreases |AllEntries(h)| - pos, numItems
    {
      status, numItems, rs := SortBatch(db, hfs, k, buffer, fileName, count, n0, h, rs, pos);
      count := count + if numItems == 0 then 0 else 1;
      pos := pos + numItems;
    }
    if status == OK {
      NoneTaken(n0, Now(db, hfs), k, h, buffer.Length, fileName, rs);
    }
  }

  lemma SplittingNone(n: Snapshot, k: SortKey, h: Heap, m: int, fileName: string)
    requires Reached(n, h, 0) && 0 < m
    ensures Splitting(n, n, k, h, m, fileName, [], 0)
  {
    hide Taken, RunName, AllEntries, SplitUpTo;
    SplitNone(k, h, m);
  }

  /** The records of a source file that nobody has open. */
  ghost function SourceOf(db: DB, fileName: string, owed: set<Key>): Heap
    reads db, db.openFiles, db.openFiles.ht, db.openFiles.Repr, db.files
    reads db.bm, db.bm.bufTable, db.bm.hashTable, db.bm.hashTable.ht, db.bm.hashTable.Repr, db.bm.disk, db.bm.mems
  {
    HeapIn(db.PoolNow(), FileRef(fileName), owed)
  }

  /** The source can be read. */
  ghost predicate SourceThere(db: DB, fileName: string, k: SortKey, owed: set<Key>)
    reads db, db.openFiles, db.openFiles.ht, db.openFiles.Repr, db.files
    reads db.bm, db.bm.bufTable, db.bm.hashTable, db.bm.hashTable.ht, db.bm.hashTable.Repr, db.bm.disk, db.bm.mems
  {
    && db.Valid() && Stored(db.PoolNow(), FileRef(fileName), owed) && |db.PoolNow().upl| >= 2
    && SourceOK(k, SourceOf(db, fileName, owed))
  }

  /** What the sort asks of the file it is to sort, of the pool, and of the room in its run files. */
  ghost predicate SourceReady(db: DB, fileName: string, k: SortKey, maxItems: int, owed: set<Key>)
    reads db, db.openFiles, db.openFiles.ht, db.openFiles.Repr, db.files
    reads db.bm, db.bm.bufTable, db.bm.hashTable, db.bm.hashTable.ht, db.bm.hashTable.Repr, db.bm.disk, db.bm.mems
  {
    && SourceThere(db, fileName, k, owed)
    && (AllEntries(SourceOf(db, fileName, owed)) != [] ==> |db.PoolNow().upl| >= 5)
    && RunsFit(multiset(Records(AllEntries(SourceOf(db, fileName, owed)))), maxItems)
  }

  /** Work on the source alone makes no name of a run free or taken. */
  lemma SameNames(p: Pool, s: set<Key>, q: Pool, t: set<Key>, counts: map<string, int>, fileName: string, n: nat,
      m: int)
    requires LeavesOthers(p, s, q, t, FileRef(fileName)) && 0 < m
    ensures RunTaken(counts, p.disk, fileName, n, m) <==> RunTaken(counts, q.disk, fileName, n, m)
  {
    hide RunName, Inv, Coherent, SameTo, SameAside, Anchored;
    forall i: nat | i < Batches(n, m)
      ensures NameTaken(counts, p.disk, RunName(fileName, i)) <==> NameTaken(counts, q.disk, RunName(fileName, i))
    {
      RunNamesApart(fileName, i, i);
    }
  }

  /** The scan of the source opened. */
  method OpenSource(db: DB, fileName: string, k: SortKey, float: seq<byte> -> real, ghost owed: set<Key>)
    returns (hfs: HeapFile)
    requires SourceThere(db, fileName, k, owed)
    modifies db.bm, db.bm.bufTable, db.bm.hashTable, db.bm.hashTable.ht, db.bm.hashTable.Repr, db.bm.disk, db.bm.mems
    ensures fresh(db.bm.hashTable.Repr - old(db.bm.hashTable.Repr)) && fresh(hfs)
    ensures Over(db, hfs) && hfs.filePtr == FileRef(fileName)
    ensures var h := old(SourceOf(db, fileName, owed)); var n0 := Now(db, hfs);
      && SourceOK(k, h) && Reached(n0, h, 0) && n0.counts == old(db.Counts())
      && LeavesOthers(old(db.PoolNow()), owed, n0.pool, n0.owed, FileRef(fileName))
      && |n0.pool.upl| == |old(db.PoolNow()).upl| - 2
  {
    hide ChainedHash.HashTable.Valid, BufMgr.Wired, BufMgr.Abs, BufMgr.Valid, Inv, LeavesOthers, Stored, HeapIn;
    hide TableOK, CountsOf, AllEntries, SourceOK;
    hide HeapFile.Valid, HeapFile.Open, HeapFile.Sole, HeapFile.PoolNow, HeapFile.View, HeapFile.Contents;
    hide HeapFile.Ahead, HeapFile.Insertion, HeapFile.AtRecord, HeapFile.CurrentEntry;
    db.BufValid();
    var status;
    status, hfs := NewScan(db.bm, FileRef(fileName), NoFilter, float, owed);
    OpenNow(hfs);
  }

  /** The scan of the source opened, and all the rest set up for the splitting. */
  method OpenToSplit(db: DB, fileName: string, k: SortKey, float: seq<byte> -> real, buffer: array<SortRec>,
      ghost owed: set<Key>) returns (hfs: HeapFile)
    requires SourceReady(db, fileName, k, buffer.Length, owed) && KeyOK(k) && 0 < buffer.Length
    modifies db.bm, db.bm.bufTable, db.bm.hashTable, db.bm.hashTable.ht, db.bm.hashTable.Repr, db.bm.disk, db.bm.mems
    ensures fresh(db.bm.hashTable.Repr - old(db.bm.hashTable.Repr)) && fresh(hfs)
    ensures var h := old(SourceOf(db, fileName, owed)); var n0 := Now(db, hfs);
      && SplitReady(db, hfs, k, buffer, fileName, h, n0) && Reached(n0, h, 0)
      && |n0.pool.upl| == |old(db.PoolNow()).upl| - 2
      && (SomeTaken(n0, fileName, h, buffer.Length) <==>
           RunTaken(old(db.Counts()), old(db.PoolNow()).disk, fileName, |AllEntries(h)|, buffer.Length))
  {
    hide ChainedHash.HashTable.Valid, BufMgr.Wired, BufMgr.Abs, BufMgr.Valid, Inv, LeavesOthers, Stored, HeapIn;
    hide TableOK, CountsOf, AllEntries, SourceOK, RunsFit, RunTaken, Now, Over, SourceOf, DB.Valid;
    hide DB.Counts, DB.PoolNow;
    ghost var p, counts, h := db.PoolNow(), db.Counts(), SourceOf(db, fileName, owed);
    hfs := OpenSource(db, fileName, k, float, owed);
    ghost var n0 := Now(db, hfs);
    SameNames(p, owed, n0.pool, n0.owed, counts, fileName, |AllEntries(h)|, buffer.Length);
  }

  /** The source closed; the runs stay where they are. */
  method CloseSource(db: DB, hfs: HeapFile, fileName: string, ghost rs: seq<Run>)
    requires Over(db, hfs) && hfs.filePtr == FileRef(fileName)
    requires RunsOn(Now(db, hfs).pool, Now(db, hfs).owed, fileName, rs)
    modifies hfs`touched
    modifies db.bm, db.bm.bufTable, db.bm.hashTable, db.bm.hashTable.ht, db.bm.hashTable.Repr, db.bm.disk, db.bm.mems
    ensures fresh(db.bm.hashTable.Repr - old(db.bm.hashTable.Repr)) && db.bm.Valid()
    ensures RunsOn(db.bm.Abs(), hfs.touched, fileName, rs)
    ensures |db.bm.Abs().upl| == |old(Now(db, hfs)).pool.upl| + 2
  {
    hide ChainedHash.HashTable.Valid, BufMgr.Wired, BufMgr.Abs, Inv, LeavesOthers, Stored, HeapIn, KeepsStored;
    hide TableOK, CountsOf, AllEntries, RunsOn, Coherent, Openable, Closed, ViewOf, NoneOf;
    hide HeapFile.Valid, HeapFile.Open, HeapFile.Sole, HeapFile.PoolNow, HeapFile.View, HeapFile.Contents;
    hide HeapFile.Ahead, HeapFile.Insertion, HeapFile.AtRecord, HeapFile.CurrentEntry;
    ghost var n := Now(db, hfs);
    NowIs(db, hfs);
    ScanPool(hfs);
    var status := hfs.Close();
    LeavesStored(n.pool, n.owed, db.bm.Abs(), hfs.touched, hfs.filePtr, hfs.filePtr);
    RunsRead(n, n.(pool := db.bm.Abs(), owed := hfs.touched), fileName, rs);
  }

  /** The source split, and closed. */
  method SplitAndClose(db: DB, hfs: HeapFile, k: SortKey, buffer: array<SortRec>, fileName: string, ghost h: Heap)
    returns (status: Status, count: nat, ghost rs: seq<Run>)
    requires SplitReady(db, hfs, k, buffer, fileName, h, Now(db, hfs))
    requires Reached(Now(db, hfs), h, 0) && 0 < buffer.Length
    modifies hfs`curPage, hfs`curPageNo, hfs`touched, hfs`curIdx, hfs`curRec, buffer
    modifies db`files, db.openFiles, db.openFiles.ht, db.openFiles.Repr, db.files
    modifies db.bm, db.bm.bufTable, db.bm.hashTable, db.bm.hashTable.ht, db.bm.hashTable.Repr, db.bm.disk, db.bm.mems
    ensures fresh(db.openFiles.Repr - old(db.openFiles.Repr)) && fresh(db.bm.hashTable.Repr - old(db.bm.hashTable.Repr))
    ensures fresh(db.files - old(db.files))
    ensures status == if SomeTaken(old(Now(db, hfs)), fileName, h, buffer.Length) then FILEEXISTS else OK
    ensures status == OK ==> SplitUpTo(k, h, buffer.Length, rs, |AllEntries(h)|)
    ensures status == OK ==> count == |rs| == Batches(|AllEntries(h)|, buffer.Length)
    ensures db.bm.Valid() && (status == OK ==> RunsOn(db.bm.Abs(), hfs.touched, fileName, rs))
    ensures |db.bm.Abs().upl| == |old(Now(db, hfs)).pool.upl| + if status == OK then 2 else 0
  {
    hide ChainedHash.HashTable.Valid, BufMgr.Wired, BufMgr.Abs, BufMgr.Valid, Inv, Stored, HeapIn;
    hide TableOK, CountsOf, AllEntries, SourceOK, RunsFit, RunTaken, Over, Now, SplitReady, Splitting, SplitUpTo;
    hide RunsOn, Reached;
    hide DB.Valid, DB.Counts, DB.PoolNow, SourceReady, SourceOf, SomeTaken;
    hide HeapFile.Valid, HeapFile.Open, HeapFile.Sole, HeapFile.PoolNow, HeapFile.View, HeapFile.Contents;
    hide HeapFile.Ahead, HeapFile.Insertion, HeapFile.AtRecord, HeapFile.CurrentEntry;
    ghost var n0 := Now(db, hfs);
    status, count, rs := SplitSource(db, hfs, k, buffer, fileName, h);
    if status == OK {
      CloseSplit(db, hfs, k, buffer, fileName, n0, h, rs);
    } else {
      ReadyIsOver(db, hfs, k, buffer, fileName, h, n0);
    }
  }

  /** The source closed when all of it has been split. */
  method CloseSplit(db: DB, hfs: HeapFile, k: SortKey, buffer: array<SortRec>, fileName: string, ghost n0: Snapshot,
      ghost h: Heap, ghost rs: seq<Run>)
    requires SplitReady(db, hfs, k, buffer, fileName, h, n0)
    requires 0 < buffer.Length && Splitting(n0, Now(db, hfs), k, h, buffer.Length, fileName, rs, |AllEntries(h)|)
    modifies hfs`touched
    modifies db.bm, db.bm.bufTable, db.bm.hashTable, db.bm.hashTable.ht, db.bm.hashTable.Repr, db.bm.disk, db.bm.mems
    ensures fresh(db.bm.hashTable.Repr - old(db.bm.hashTable.Repr))
    ensures SplitUpTo(k, h, buffer.Length, rs, |AllEntries(h)|) && |rs| == Batches(|AllEntries(h)|, buffer.Length)
    ensures db.bm.Valid() && RunsOn(db.bm.Abs(), hfs.touched, fileName, rs) && |db.bm.Abs().upl| == |n0.pool.upl| + 2
  {
    hide ChainedHash.HashTable.Valid, BufMgr.Wired, BufMgr.Abs, BufMgr.Valid, Inv, AllEntries, Over, Now, SplitReady;
    hide Splitting, SplitUpTo, RunsOn;
    AllSplit(n0, Now(db, hfs), k, h, buffer.Length, fileName, rs);
    ReadyIsOver(db, hfs, k, buffer, fileName, h, n0);
    CloseSource(db, hfs, fileName, rs);
  }

  /** sortFile up to startScans: on success every record of the source is in one of the runs, which are
      in files that nobody has open, and the frames are as many as before. */
  method MakeRuns(db: DB, fileName: string, k: SortKey, float: seq<byte> -> real, buffer: array<SortRec>,
      ghost owed: set<Key>) returns (status: Status, count: nat, ghost rs: seq<Run>, ghost owed': set<Key>)
    requires SourceReady(db, fileName, k, buffer.Length, owed) && KeyOK(k) && 0 < buffer.Length
    modifies buffer
    modifies db`files, db.openFiles, db.openFiles.ht, db.openFiles.Repr, db.files
    modifies db.bm, db.bm.bufTable, db.bm.hashTable, db.bm.hashTable.ht, db.bm.hashTable.Repr, db.bm.disk, db.bm.mems
    ensures fresh(db.openFiles.Repr - old(db.openFiles.Repr)) && fresh(db.bm.hashTable.Repr - old(db.bm.hashTable.Repr))
    ensures fresh(db.files - old(db.files))
    ensures var h := old(SourceOf(db, fileName, owed)); var n := |AllEntries(h)|;
      && status == (if RunTaken(old(db.Counts()), old(db.PoolNow()).disk, fileName, n, buffer.Length) then FILEEXISTS
           else OK)
      && (status == OK ==> SplitUpTo(k, h, buffer.Length, rs, n) && count == |rs| == Batches(n, buffer.Length))
    ensures db.bm.Valid() && (status == OK ==> RunsOn(db.bm.Abs(), owed', fileName, rs))
    ensures |db.bm.Abs().upl| == |old(db.PoolNow()).upl| - if status == OK then 0 else 2
  {
    hide ChainedHash.HashTable.Valid, BufMgr.Wired, BufMgr.Abs, BufMgr.Valid, Inv, Stored, HeapIn;
    hide TableOK, CountsOf, AllEntries, SourceOK, RunsFit, RunTaken, Over, Now, SplitReady, Splitting, SplitUpTo;
    hide RunsOn;
    hide DB.Valid, DB.Counts, DB.PoolNow, SourceReady, SourceOf;
    hide HeapFile.Valid, HeapFile.Open, HeapFile.Sole, HeapFile.PoolNow, HeapFile.View, HeapFile.Contents;
    hide HeapFile.Ahead, HeapFile.Insertion, HeapFile.AtRecord, HeapFile.CurrentEntry;
    ghost var h := SourceOf(db, fileName, owed);
    var hfs := OpenToSplit(db, fileName, k, float, buffer, owed);
    status, count, rs := SplitAndClose(db, hfs, k, buffer, fileName, h);
    owed' := hfs.touched;
  }

  lemma ReadyIsOver(db: DB, hfs: HeapFile, k: SortKey, buffer: array<SortRec>, fileName: string, h: Heap, n0: Snapshot)
    requires SplitReady(db, hfs, k, buffer, fileName, h, n0)
    ensures Over(db, hfs) && hfs.filePtr == FileRef(fileName)
    ensures db.bm.Valid() && db.bm.Abs() == Now(db, hfs).pool
  {
    hide SourceOK, RunsFit, AllEntries, Scanning, DB.Valid, BufMgr.Valid, Now;
    OverPool(db, hfs);
    NowIs(db, hfs);
  }

  lemma AllSplit(n0: Snapshot, n: Snapshot, k: SortKey, h: Heap, m: int, fileName: string, rs: seq<Run>)
    requires 0 < m && Splitting(n0, n, k, h, m, fileName, rs, |AllEntries(h)|)
    ensures SplitUpTo(k, h, m, rs, |AllEntries(h)|) && |rs| == Batches(|AllEntries(h)|, m)
    ensures RunsOn(n.pool, n.owed, fileName, rs) && |n.pool.upl| == |n0.pool.upl|
  {
    hide AllEntries, RunName, RunsOK, Rest, Sortable, RunsSorted, RunRecords, RunsOn;
    NoneTaken(n0, n, k, h, m, fileName, rs);
  }
}
