/** QU_NL_Join (join.C) on heap files over one buffer pool: the outer relation and the result stay
    open, and the inner relation is opened anew for each outer record. */
module JoinsOnFiles {
  import opened Bytes
  import opened StatusCodes
  import opened PageSpec
  import opened FileSpec
  import opened Disks
  import opened PoolSpec
  import opened PoolRefinement
  import opened PoolClient
  import opened BufMgrs
  import opened HeapSpec
  import opened HeapLayout
  import opened HeapSession
  import opened Interference
  import opened HeapFiles
  import opened Queries
  import opened Comparing
  import opened Joins
  import opened Together
  import ChainedHash

  // ----- Three files open -----

  ghost predicate Trio(a: HeapFile, b: HeapFile, c: HeapFile)
    reads a, a.bm, a.bm.bufTable, a.bm.hashTable, a.bm.hashTable.ht, a.bm.hashTable.Repr, a.bm.disk, a.bm.mems
    reads b, b.bm, b.bm.bufTable, b.bm.hashTable, b.bm.hashTable.ht, b.bm.hashTable.Repr, b.bm.disk, b.bm.mems
    reads c, c.bm, c.bm.bufTable, c.bm.hashTable, c.bm.hashTable.ht, c.bm.hashTable.Repr, c.bm.disk, c.bm.mems
  {
    Side(a, b) && Side(a, c) && Side(b, c)
  }

  /** Nobody has file f open, and it can be opened. */
  ghost predicate Ready(p: Pool, f: FileRef, t: set<Key>) { Stored(p, f, t) && |p.upl| >= 2 }

  /** One scanNext of the outer relation, the inner one being closed. */
  method FetchOuter(outer: HeapFile, ifs: HeapFile, f: FileRef) returns (status: Status, e: Entry)
    requires Side(outer, ifs) && |outer.Contents()| < DIRCNT && f != outer.filePtr
    requires Ready(outer.PoolNow(), f, outer.touched)
    modifies outer`curPage, outer`curPageNo, outer`touched, outer`curIdx, outer`curRec, ifs`touched
    modifies outer.bm, outer.bm.bufTable, outer.bm.hashTable, outer.bm.hashTable.ht, outer.bm.hashTable.Repr
    modifies outer.bm.disk, outer.bm.mems
    ensures fresh(outer.bm.hashTable.Repr - old(outer.bm.hashTable.Repr)) && status in {OK, FILEEOF}
    ensures Side(outer, ifs) && outer.View() == old(outer.View()) && outer.Contents() == old(outer.Contents())
    ensures status == OK ==> DropTo(old(outer.Ahead()), outer.Wanted()) == [e] + outer.Ahead()
    ensures status == FILEEOF ==> DropTo(old(outer.Ahead()), outer.Wanted()) == [] && outer.Ahead() == []
    ensures ifs.Insertion() == old(ifs.Insertion())
    ensures Ready(outer.PoolNow(), f, outer.touched)
    ensures HeapIn(outer.PoolNow(), f, outer.touched) == old(HeapIn(outer.PoolNow(), f, outer.touched))
  {
    hide ChainedHash.HashTable.Valid, BufMgr.Valid, BufMgr.Wired, BufMgr.Abs, Inv, LeavesOthers, DropTo, Stored;
    hide HeapFile.Valid, HeapFile.View, HeapFile.Sole, HeapFile.Ahead, HeapFile.Contents, HeapFile.Insertion;
    hide HeapFile.AtRecord;
    hide HeapFile.Open, HeapFile.Wanted, HeapFile.CurrentEntry, HeapFile.PoolNow, HeapIn;
    status, e := FetchBeside(outer, ifs);
    StaysStored(old(outer.PoolNow()), old(outer.touched), outer.PoolNow(), outer.touched, outer.filePtr, f);
  }

  /** A scan of file f opened and started, another file being open. */
  method OpenBeside(a: HeapFile, f: FileRef, c: Condition, float: seq<byte> -> real) returns (hfs: HeapFile)
    requires a.Valid() && a.Sole() && f != a.filePtr && Ready(a.PoolNow(), f, a.touched) && ConditionOK(c)
    modifies a`touched, a.bm, a.bm.bufTable, a.bm.hashTable, a.bm.hashTable.ht, a.bm.hashTable.Repr
    modifies a.bm.disk, a.bm.mems
    ensures fresh(a.bm.hashTable.Repr - old(a.bm.hashTable.Repr)) && fresh(hfs)
    ensures Side(hfs, a) && hfs.filePtr == f && hfs.Wanted() == Matcher(c, float)
    ensures hfs.Contents() == old(HeapIn(a.PoolNow(), f, a.touched)) && hfs.Ahead() == AllEntries(hfs.Contents())
    ensures a.View() == old(a.View()) && a.Contents() == old(a.Contents()) && a.Ahead() == old(a.Ahead())
    ensures LeavesOthers(old(a.PoolNow()), old(a.touched), a.PoolNow(), a.touched, f)
  {
    hide ChainedHash.HashTable.Valid, BufMgr.Valid, BufMgr.Wired, BufMgr.Abs, Inv, LeavesOthers, Stored, HeapIn;
    hide EntriesFrom, Matcher;
    hide HeapFile.Valid, HeapFile.View, HeapFile.Sole, HeapFile.Ahead, HeapFile.Contents, HeapFile.Insertion;
    hide HeapFile.AtRecord;
    hide HeapFile.Open, HeapFile.CurrentEntry, HeapFile.PoolNow, HeapFile.Wanted;
    OpenNow(a);
    var status;
    status, hfs := NewScan(a.bm, f, c, float, a.touched);
    OpenNow(hfs);
    a.touched := hfs.touched;
    a.Undisturbed(f);
    OpenNow(a);
  }

  /** Opens the inner relation and starts its scan, the other two files being open. */
  method OpenInner(outer: HeapFile, ifs: HeapFile, f: FileRef, c: Condition,
      float: seq<byte> -> real) returns (hfs: HeapFile)
    requires Side(outer, ifs) && f != outer.filePtr && f != ifs.filePtr && Ready(outer.PoolNow(), f, outer.touched)
    requires ConditionOK(c)
    modifies outer`touched, ifs`touched
    modifies outer.bm, outer.bm.bufTable, outer.bm.hashTable, outer.bm.hashTable.ht, outer.bm.hashTable.Repr
    modifies outer.bm.disk, outer.bm.mems
    ensures fresh(outer.bm.hashTable.Repr - old(outer.bm.hashTable.Repr)) && fresh(hfs)
    ensures Trio(hfs, outer, ifs) && hfs.filePtr == f && hfs.Wanted() == Matcher(c, float)
    ensures hfs.Contents() == old(HeapIn(outer.PoolNow(), f, outer.touched))
    ensures hfs.Ahead() == AllEntries(hfs.Contents())
    ensures outer.View() == old(outer.View()) && outer.Contents() == old(outer.Contents())
    ensures outer.Ahead() == old(outer.Ahead())
    ensures ifs.Insertion() == old(ifs.Insertion())
  {
    hide ChainedHash.HashTable.Valid, BufMgr.Valid, BufMgr.Wired, BufMgr.Abs, Inv, LeavesOthers, Stored, HeapIn;
    hide EntriesFrom, Matcher;
    hide HeapFile.Valid, HeapFile.View, HeapFile.Sole, HeapFile.Ahead, HeapFile.Contents, HeapFile.Insertion;
    hide HeapFile.AtRecord;
    hide HeapFile.Open, HeapFile.CurrentEntry, HeapFile.PoolNow, HeapFile.Wanted;
    OpenNow(outer);
    hfs := OpenBeside(outer, f, c, float);
    OpenNow(outer);
    ifs.touched := outer.touched;
    ifs.Undisturbed(f);
  }

  /** One scanNext of the inner relation. */
  method FetchInner(hfs: HeapFile, outer: HeapFile, ifs: HeapFile) returns (status: Status, e: Entry)
    requires Trio(hfs, outer, ifs) && |hfs.Contents()| < DIRCNT
    modifies hfs`curPage, hfs`curPageNo, hfs`touched, hfs`curIdx, hfs`curRec, outer`touched, ifs`touched
    modifies hfs.bm, hfs.bm.bufTable, hfs.bm.hashTable, hfs.bm.hashTable.ht, hfs.bm.hashTable.Repr, hfs.bm.disk
    modifies hfs.bm.mems
    ensures fresh(hfs.bm.hashTable.Repr - old(hfs.bm.hashTable.Repr)) && status in {OK, FILEEOF}
    ensures Trio(hfs, outer, ifs) && hfs.View() == old(hfs.View()) && hfs.Contents() == old(hfs.Contents())
    ensures status == OK ==> DropTo(old(hfs.Ahead()), hfs.Wanted()) == [e] + hfs.Ahead()
    ensures status == FILEEOF ==> DropTo(old(hfs.Ahead()), hfs.Wanted()) == [] && hfs.Ahead() == []
    ensures outer.View() == old(outer.View()) && outer.Contents() == old(outer.Contents())
    ensures outer.Ahead() == old(outer.Ahead())
    ensures ifs.Insertion() == old(ifs.Insertion())
  {
    hide ChainedHash.HashTable.Valid, BufMgr.Valid, BufMgr.Wired, BufMgr.Abs, Inv, LeavesOthers, DropTo, InsertOne;
    hide HeapFile.Valid, HeapFile.View, HeapFile.Sole, HeapFile.Ahead, HeapFile.Contents, HeapFile.Insertion;
    hide HeapFile.AtRecord;
    hide HeapFile.Open, HeapFile.Wanted, HeapFile.CurrentEntry, HeapFile.FileSize, HeapFile.PoolNow;
    OpenNow(hfs);
    status, e := FetchBeside(hfs, outer);
    OpenNow(hfs);
    ifs.touched := hfs.touched;
    ifs.Undisturbed(hfs.filePtr);
  }

  /** One insertRecord into the result. */
  method InsertResult(ifs: HeapFile, hfs: HeapFile, outer: HeapFile, rec: Rec) returns (status: Status)
    requires Trio(hfs, outer, ifs) && |ifs.Contents()| < DIRCNT && ifs.FileSize() < MAXPAGES && 1 <= |rec| <= MAXREC
    modifies ifs`curPage, ifs`curPageNo, ifs`curDirtyFlag, ifs`touched, ifs`curIdx, ifs`curRec, ifs`hdrDirtyFlag
    modifies outer`touched, hfs`touched
    modifies ifs.bm, ifs.bm.bufTable, ifs.bm.hashTable, ifs.bm.hashTable.ht, ifs.bm.hashTable.Repr, ifs.bm.disk
    modifies ifs.bm.mems
    ensures fresh(ifs.bm.hashTable.Repr - old(ifs.bm.hashTable.Repr)) && status == OK && Trio(hfs, outer, ifs)
    ensures old(ifs.Insertion()).at <= |old(ifs.Insertion()).file|
    ensures ifs.Insertion() == InsertOne(old(ifs.Insertion()), rec)
    ensures hfs.View() == old(hfs.View()) && hfs.Contents() == old(hfs.Contents()) && hfs.Ahead() == old(hfs.Ahead())
    ensures outer.View() == old(outer.View()) && outer.Contents() == old(outer.Contents())
    ensures outer.Ahead() == old(outer.Ahead())
  {
    hide ChainedHash.HashTable.Valid, BufMgr.Valid, BufMgr.Wired, BufMgr.Abs, Inv, LeavesOthers, DropTo, InsertOne;
    hide HeapFile.Valid, HeapFile.View, HeapFile.Sole, HeapFile.Ahead, HeapFile.Contents, HeapFile.Insertion;
    hide HeapFile.AtRecord;
    hide HeapFile.Open, HeapFile.Wanted, HeapFile.CurrentEntry, HeapFile.FileSize, HeapFile.PoolNow;
    OpenNow(ifs);
    status := InsertBeside(ifs, hfs, rec);
    OpenNow(ifs);
    outer.touched := ifs.touched;
    outer.Undisturbed(ifs.filePtr);
  }

  /** Closes the inner relation, which can be opened again. */
  method CloseInner(hfs: HeapFile, outer: HeapFile, ifs: HeapFile)
    requires Trio(hfs, outer, ifs)
    modifies hfs`touched, outer`touched, ifs`touched
    modifies hfs.bm, hfs.bm.bufTable, hfs.bm.hashTable, hfs.bm.hashTable.ht, hfs.bm.hashTable.Repr, hfs.bm.disk
    modifies hfs.bm.mems
    ensures fresh(hfs.bm.hashTable.Repr - old(hfs.bm.hashTable.Repr)) && Side(outer, ifs)
    ensures Ready(outer.PoolNow(), hfs.filePtr, outer.touched)
    ensures HeapIn(outer.PoolNow(), hfs.filePtr, outer.touched) == old(hfs.Contents())
    ensures outer.View() == old(outer.View()) && outer.Contents() == old(outer.Contents())
    ensures outer.Ahead() == old(outer.Ahead())
    ensures ifs.Insertion() == old(ifs.Insertion())
  {
    hide ChainedHash.HashTable.Valid, BufMgr.Valid, BufMgr.Wired, BufMgr.Abs, Inv, LeavesOthers, IsHeapFile, Closed;
    hide ViewOf, HeapOf;
    hide HeapFile.Valid, HeapFile.View, HeapFile.Sole, HeapFile.Ahead, HeapFile.Insertion, HeapFile.Open, Described;
    OpenNow(hfs);
    var status := hfs.Close();
    outer.touched := hfs.touched;
    ifs.touched := hfs.touched;
    outer.Undisturbed(hfs.filePtr);
    ifs.Undisturbed(hfs.filePtr);
    OpenNow(outer);
  }

  // ----- The rows of one outer record -----

  lemma {:induction false} RowsOfSplit(q: Query, o: Rec, a: seq<Entry>, b: seq<Entry>)
    ensures RowsOf(q, o, a + b) == RowsOf(q, o, a) + RowsOf(q, o, b)
    decreases |b|
  {
    hide Joined, HasProjs, Project;
    if b == [] {
      assert a + b == a;
    } else {
      var n := |b| - 1;
      RowsOfSplit(q, o, a, b[..n]);
      assert (a + b)[..|a + b| - 1] == a + b[..n];
    }
  }

  lemma RowsOfOne(q: Query, o: Rec, e: Entry)
    ensures RowsOf(q, o, [e]) ==
      if Joined(q.a1, q.a2, q.op, q.float, o, e.rec) && HasProjs(q.ps, o, e.rec) then [Project(q.ps, o, e.rec)] else []
  {
    hide Joined, HasProjs, Project;
    assert [e][..0] == [];
  }

  /** The scan condition lets through exactly the records that join. */
  lemma {:induction false} RowsOfMatching(q: Query, o: Rec, ns: seq<Entry>)
    requires HasAttr(q.a1, o)
    ensures RowsOf(q, o, Matching(ns, Matcher(InnerScan(q.a1, q.a2, q.op, o), q.float))) == RowsOf(q, o, ns)
  {
    hide MatchRec, HasProjs, Project, RowsOf;
    var p := Matcher(InnerScan(q.a1, q.a2, q.op, o), q.float);
    if ns != [] {
      RowsOfMatching(q, o, ns[1..]);
      assert ns == [ns[0]] + ns[1..];
      RowsOfSplit(q, o, [ns[0]], ns[1..]);
      RowsOfOne(q, o, ns[0]);
      RowsOfSplit(q, o, [ns[0]], Matching(ns[1..], p));
      assert Matching(ns, p) == (if p(ns[0].rec) then [ns[0]] else []) + Matching(ns[1..], p);
      assert [] + Matching(ns[1..], p) == Matching(ns[1..], p);
      assert p(ns[0].rec) == Joined(q.a1, q.a2, q.op, q.float, o, ns[0].rec);
      assert [] + RowsOf(q, o, ns[1..]) == RowsOf(q, o, ns[1..]);
    }
  }

  lemma {:induction false} MatchingIn(es: seq<Entry>, p: Rec -> bool)
    ensures forall e :: e in Matching(es, p) ==> e in es && p(e.rec)
  {
    if es != [] {
      MatchingIn(es[1..], p);
    }
  }

  /** One joining record more: its row, and the room for it. */
  lemma RowNext(s: Inserting, q: Query, o: Rec, all: seq<Entry>, out: seq<Entry>, e: Entry, rest: seq<Entry>)
    requires Fits(s, RowsOf(q, o, all)) && all == out + ([e] + rest)
    requires Joined(q.a1, q.a2, q.op, q.float, o, e.rec) && HasProjs(q.ps, o, e.rec)
    ensures s.at <= |s.file| && out + [e] + rest == all
    ensures InsertAll(s, RowsOf(q, o, out + [e])) == InsertOne(InsertAll(s, RowsOf(q, o, out)), Project(q.ps, o, e.rec))
    ensures |InsertAll(s, RowsOf(q, o, out)).file| < DIRCNT && InsertAll(s, RowsOf(q, o, out)).next < MAXPAGES
  {
    hide HasProjs, Project, InsertAll, InsertOne, Fits, RowsOf, Joined;
    RowsOfOne(q, o, e);
    RowsOfSplit(q, o, [e], rest);
    RowsOfSplit(q, o, out, [e] + rest);
    RowsOfSplit(q, o, out, [e]);
    RoomForNext(s, RowsOf(q, o, all), RowsOf(q, o, out), Project(q.ps, o, e.rec));
  }

  /** Of the inner records `all` that join with o, those in `out` have their rows in the result
      and the rest lie ahead. */
  ghost predicate Joining(hfs: HeapFile, outer: HeapFile, ifs: HeapFile, q: Query, o: Rec, s: Inserting,
      all: seq<Entry>, out: seq<Entry>)
    reads hfs, hfs.bm, hfs.bm.bufTable, hfs.bm.hashTable, hfs.bm.hashTable.ht, hfs.bm.hashTable.Repr, hfs.bm.disk
    reads hfs.bm.mems
    reads outer, outer.bm, outer.bm.bufTable, outer.bm.hashTable, outer.bm.hashTable.ht, outer.bm.hashTable.Repr
    reads outer.bm.disk, outer.bm.mems
    reads ifs, ifs.bm, ifs.bm.bufTable, ifs.bm.hashTable, ifs.bm.hashTable.ht, ifs.bm.hashTable.Repr, ifs.bm.disk
    reads ifs.bm.mems
  {
    && Trio(hfs, outer, ifs) && |hfs.Contents()| < DIRCNT && out + Matching(hfs.Ahead(), hfs.Wanted()) == all
    && s.at <= |s.file| && ifs.Insertion() == InsertAll(s, RowsOf(q, o, out))
  }

  /** The inner records that join can all be projected. */
  ghost predicate Projectable(q: Query, o: Rec, all: seq<Entry>) {
    forall e :: e in all ==> Joined(q.a1, q.a2, q.op, q.float, o, e.rec) && HasProjs(q.ps, o, e.rec)
  }

  /** One round of the inner loop. */
  method JoinNext(hfs: HeapFile, outer: HeapFile, ifs: HeapFile, q: Query, o: Rec, data: array<byte>,
      ghost s: Inserting,
      ghost all: seq<Entry>, ghost out: seq<Entry>) returns (status: Status, ghost e: Entry)
    requires Joining(hfs, outer, ifs, q, o, s, all, out) && Fits(s, RowsOf(q, o, all)) && Projectable(q, o, all)
    requires data.Length == TotalLength(q.ps) && 1 <= TotalLength(q.ps) <= MAXREC && data !in hfs.bm.mems
    modifies hfs`curPage, hfs`curPageNo, hfs`touched, hfs`curIdx, hfs`curRec, outer`touched, data
    modifies ifs`curPage, ifs`curPageNo, ifs`curDirtyFlag, ifs`touched, ifs`curIdx, ifs`curRec, ifs`hdrDirtyFlag
    modifies hfs.bm, hfs.bm.bufTable, hfs.bm.hashTable, hfs.bm.hashTable.ht, hfs.bm.hashTable.Repr, hfs.bm.disk
    modifies hfs.bm.mems
    ensures fresh(hfs.bm.hashTable.Repr - old(hfs.bm.hashTable.Repr))
    ensures status in {OK, FILEEOF} && hfs.Contents() == old(hfs.Contents())
    ensures outer.View() == old(outer.View()) && outer.Contents() == old(outer.Contents())
    ensures outer.Ahead() == old(outer.Ahead())
    ensures Joining(hfs, outer, ifs, q, o, s, all, if status == OK then out + [e] else out)
    ensures if status == OK then |hfs.Ahead()| < |old(hfs.Ahead())| else out == all
  {
    hide ChainedHash.HashTable.Valid, BufMgr.Valid, BufMgr.Wired, BufMgr.Abs, Inv, LeavesOthers, InsertOne, InsertAll;
    hide Fits, Joined;
    hide HeapFile.Valid, HeapFile.View, HeapFile.Sole, HeapFile.Ahead, HeapFile.Contents, HeapFile.Insertion;
    hide HeapFile.PoolNow;
    hide HeapFile.Open, HeapFile.FileSize, HeapFile.Wanted, DropTo, Matching, RowsOf, HasProjs, Project, TotalLength;
    ghost var ahead := hfs.Ahead();
    ghost var p := hfs.Wanted();
    var found;
    status, found := FetchInner(hfs, outer, ifs);
    e := found;
    MatchingNext(ahead, p);
    if status == FILEEOF {
      assert out + [] == out;
      NoneMatch(p);
    } else {
      assert e in all;
      RowNext(s, q, o, all, out, e, Matching(hfs.Ahead(), p));
      FillData(q.ps, o, found.rec, data);
      InsertionRoom(ifs);
      status := InsertResult(ifs, hfs, outer, data[..]);
    }
  }

  /** The scan of the inner relation h for outer record o lets through what joins, projectable. */
  lemma InnerMatches(q: Query, o: Rec, ns: seq<Entry>)
    requires HasAttr(q.a1, o) && forall n :: n in ns ==> HasProjs(q.ps, o, n.rec)
    ensures ConditionOK(InnerScan(q.a1, q.a2, q.op, o))
    ensures var all := Matching(ns, Matcher(InnerScan(q.a1, q.a2, q.op, o), q.float));
      Projectable(q, o, all) && RowsOf(q, o, all) == RowsOf(q, o, ns)
  {
    hide MatchRec, HasProjs, RowsOf;
    RowsOfMatching(q, o, ns);
    MatchingIn(ns, Matcher(InnerScan(q.a1, q.a2, q.op, o), q.float));
  }

  /** The inner scan from beginning to end. */
  method JoinScanned(hfs: HeapFile, outer: HeapFile, ifs: HeapFile, q: Query, o: Rec, data: array<byte>)
    requires Trio(hfs, outer, ifs) && |hfs.Contents()| < DIRCNT
    requires var all := Matching(hfs.Ahead(), hfs.Wanted());
      && Fits(ifs.Insertion(), RowsOf(q, o, all)) && Projectable(q, o, all)
    requires data.Length == TotalLength(q.ps) && 1 <= TotalLength(q.ps) <= MAXREC && data !in hfs.bm.mems
    modifies hfs`curPage, hfs`curPageNo, hfs`touched, hfs`curIdx, hfs`curRec, outer`touched, data
    modifies ifs`curPage, ifs`curPageNo, ifs`curDirtyFlag, ifs`touched, ifs`curIdx, ifs`curRec, ifs`hdrDirtyFlag
    modifies hfs.bm, hfs.bm.bufTable, hfs.bm.hashTable, hfs.bm.hashTable.ht, hfs.bm.hashTable.Repr, hfs.bm.disk
    modifies hfs.bm.mems
    ensures fresh(hfs.bm.hashTable.Repr - old(hfs.bm.hashTable.Repr))
    ensures Trio(hfs, outer, ifs) && hfs.Contents() == old(hfs.Contents())
    ensures outer.View() == old(outer.View()) && outer.Contents() == old(outer.Contents())
    ensures outer.Ahead() == old(outer.Ahead())
    ensures old(ifs.Insertion()).at <= |old(ifs.Insertion()).file|
    ensures ifs.Insertion() ==
      InsertAll(old(ifs.Insertion()), RowsOf(q, o, Matching(old(hfs.Ahead()), old(hfs.Wanted()))))
  {
    hide ChainedHash.HashTable.Valid, BufMgr.Valid, BufMgr.Wired, BufMgr.Abs, Inv, LeavesOthers, InsertOne, InsertAll;
    hide Fits, Joined;
    hide HeapFile.Valid, HeapFile.View, HeapFile.Sole, HeapFile.Ahead, HeapFile.Contents, HeapFile.Insertion;
    hide HeapFile.PoolNow;
    hide HeapFile.Open, HeapFile.FileSize, HeapFile.Wanted, DropTo, Matching, RowsOf, HasProjs, Project, TotalLength;
    ghost var all := Matching(hfs.Ahead(), hfs.Wanted());
    InsertionRoom(ifs);
    ifs.InsertionSound();
    ghost var s := ifs.Insertion();
    ghost var out := [];
    NoRows(s, q, o);
    assert [] + all == all;
    while true
      invariant fresh(hfs.bm.hashTable.Repr - old(hfs.bm.hashTable.Repr))
      invariant Joining(hfs, outer, ifs, q, o, s, all, out) && hfs.Contents() == old(hfs.Contents())
      invariant outer.View() == old(outer.View()) && outer.Contents() == old(outer.Contents())
      invariant outer.Ahead() == old(outer.Ahead())
      decreases |hfs.Ahead()|
    {
      var status;
      ghost var e;
      status, e := JoinNext(hfs, outer, ifs, q, o, data, s, all, out);
      if status == FILEEOF {
        break;
      }
      out := out + [e];
    }
  }

  lemma NoRows(s: Inserting, q: Query, o: Rec)
    requires s.at <= |s.file|
    ensures RowsOf(q, o, []) == [] && InsertAll(s, RowsOf(q, o, [])) == s
  {
  }

  /** The inner relation opened, joined with one outer record, and closed. */
  method JoinInner(outer: HeapFile, ifs: HeapFile, f: FileRef, q: Query, o: Rec, data: array<byte>)
    requires Side(outer, ifs) && f != outer.filePtr && f != ifs.filePtr && Ready(outer.PoolNow(), f, outer.touched)
    requires HasAttr(q.a1, o) && |HeapIn(outer.PoolNow(), f, outer.touched)| < DIRCNT
    requires var ns := AllEntries(HeapIn(outer.PoolNow(), f, outer.touched));
      Fits(ifs.Insertion(), RowsOf(q, o, ns)) && forall n :: n in ns ==> HasProjs(q.ps, o, n.rec)
    requires data.Length == TotalLength(q.ps) && 1 <= TotalLength(q.ps) <= MAXREC && data !in outer.bm.mems
    modifies outer`touched, data
    modifies ifs`curPage, ifs`curPageNo, ifs`curDirtyFlag, ifs`touched, ifs`curIdx, ifs`curRec, ifs`hdrDirtyFlag
    modifies outer.bm, outer.bm.bufTable, outer.bm.hashTable, outer.bm.hashTable.ht, outer.bm.hashTable.Repr
    modifies outer.bm.disk, outer.bm.mems
    ensures fresh(outer.bm.hashTable.Repr - old(outer.bm.hashTable.Repr))
    ensures Side(outer, ifs) && Ready(outer.PoolNow(), f, outer.touched)
    ensures HeapIn(outer.PoolNow(), f, outer.touched) == old(HeapIn(outer.PoolNow(), f, outer.touched))
    ensures outer.View() == old(outer.View()) && outer.Contents() == old(outer.Contents())
    ensures outer.Ahead() == old(outer.Ahead())
    ensures old(ifs.Insertion()).at <= |old(ifs.Insertion()).file|
    ensures ifs.Insertion() ==
      InsertAll(old(ifs.Insertion()), RowsOf(q, o, AllEntries(old(HeapIn(outer.PoolNow(), f, outer.touched)))))
  {
    hide ChainedHash.HashTable.Valid, BufMgr.Valid, BufMgr.Wired, BufMgr.Abs, Inv, LeavesOthers, InsertOne, InsertAll;
    hide Fits, Joined;
    hide HeapFile.Valid, HeapFile.View, HeapFile.Sole, HeapFile.Ahead, HeapFile.Contents, HeapFile.Insertion;
    hide HeapFile.PoolNow;
    hide HeapFile.Open, HeapFile.FileSize, HeapFile.Wanted, Matching, RowsOf, HasProjs, Project, TotalLength, Ready;
    hide HeapIn, AllEntries;
    hide Matcher, ConditionOK, HasAttr, Projectable, InnerScan;
    InnerMatches(q, o, AllEntries(HeapIn(outer.PoolNow(), f, outer.touched)));
    var hfs := OpenInner(outer, ifs, f, InnerScan(q.a1, q.a2, q.op, o), q.float);
    JoinScanned(hfs, outer, ifs, q, o, data);
    CloseInner(hfs, outer, ifs);
  }

  // ----- QU_NL_Join -----

  /** The rows of the first k + 1 outer records fit, and so do those of record k after the others. */
  lemma RoomForRows(s: Inserting, q: Query, os: seq<Entry>, ns: seq<Entry>, k: nat)
    requires k < |os| && Fits(s, Rows(q, os, ns))
    ensures s.at <= |s.file| && var t := InsertAll(s, Rows(q, os[..k], ns));
      Fits(t, RowsOf(q, os[k].rec, ns))
        && InsertAll(t, RowsOf(q, os[k].rec, ns)) == InsertAll(s, Rows(q, os[..k + 1], ns))
  {
    hide RowsOf, InsertAll;
    RowsSplit(q, os, ns, k);
    RowsSplit(q, os, ns, k + 1);
    assert os[..k + 1][..k] == os[..k];
    var rest :| Rows(q, os, ns) == Rows(q, os[..k + 1], ns) + rest;
    InsertAllSplit(s, Rows(q, os[..k], ns), RowsOf(q, os[k].rec, ns));
    InsertAllSplit(s, Rows(q, os[..k + 1], ns), rest);
    InsertAllSizes(InsertAll(s, Rows(q, os[..k + 1], ns)), rest);
  }

  lemma {:induction false} RowsSplit(q: Query, os: seq<Entry>, ns: seq<Entry>, k: nat)
    requires k <= |os|
    ensures exists rest :: Rows(q, os, ns) == Rows(q, os[..k], ns) + rest
    decreases |os|
  {
    hide RowsOf;
    if k < |os| {
      var n := |os| - 1;
      RowsSplit(q, os[..n], ns, k);
      assert os[..n][..k] == os[..k];
      var rest :| Rows(q, os[..n], ns) == Rows(q, os[..k], ns) + rest;
      assert Rows(q, os, ns) == Rows(q, os[..k], ns) + (rest + RowsOf(q, os[n].rec, ns));
    } else {
      assert os[..k] == os;
      assert Rows(q, os, ns) == Rows(q, os[..k], ns) + [];
    }
  }

  /** Of the outer records `os`, the first k are joined and the rest lie ahead; the inner relation,
      with records `ns`, is closed. */
  ghost predicate JoinedUpTo(outer: HeapFile, ifs: HeapFile, f: FileRef, q: Query, s: Inserting, os: seq<Entry>,
      ns: seq<Entry>, k: int)
    reads outer, outer.bm, outer.bm.bufTable, outer.bm.hashTable, outer.bm.hashTable.ht, outer.bm.hashTable.Repr
    reads outer.bm.disk, outer.bm.mems
    reads ifs, ifs.bm, ifs.bm.bufTable, ifs.bm.hashTable, ifs.bm.hashTable.ht, ifs.bm.hashTable.Repr, ifs.bm.disk
    reads ifs.bm.mems
  {
    && Side(outer, ifs) && |outer.Contents()| < DIRCNT && outer.filter == NoFilter
    && f != outer.filePtr && f != ifs.filePtr && Ready(outer.PoolNow(), f, outer.touched)
    && |HeapIn(outer.PoolNow(), f, outer.touched)| < DIRCNT
    && AllEntries(HeapIn(outer.PoolNow(), f, outer.touched)) == ns
    && 0 <= k <= |os| && outer.Ahead() == os[k..]
    && s.at <= |s.file| && ifs.Insertion() == InsertAll(s, Rows(q, os[..k], ns))
  }

  lemma FetchedAll(es: seq<Entry>, c: Condition, float: seq<byte> -> real)
    requires c == NoFilter
    ensures DropTo(es, Matcher(c, float)) == es
  {
    if es != [] {
      assert ConditionOK(c) && MatchRec(c, float, es[0].rec);
    }
  }

  /** One round of the outer loop. */
  method JoinRound(outer: HeapFile, ifs: HeapFile, f: FileRef, q: Query, data: array<byte>, ghost s: Inserting,
      ghost os: seq<Entry>, ghost ns: seq<Entry>, ghost k: int) returns (status: Status)
    requires JoinedUpTo(outer, ifs, f, q, s, os, ns, k) && Answerable(q, os, ns) && Fits(s, Rows(q, os, ns))
    requires data.Length == TotalLength(q.ps) && data !in outer.bm.mems
    modifies outer`curPage, outer`curPageNo, outer`touched, outer`curIdx, outer`curRec, data
    modifies ifs`curPage, ifs`curPageNo, ifs`curDirtyFlag, ifs`touched, ifs`curIdx, ifs`curRec, ifs`hdrDirtyFlag
    modifies outer.bm, outer.bm.bufTable, outer.bm.hashTable, outer.bm.hashTable.ht, outer.bm.hashTable.Repr
    modifies outer.bm.disk, outer.bm.mems
    ensures fresh(outer.bm.hashTable.Repr - old(outer.bm.hashTable.Repr)) && status in {OK, FILEEOF}
    ensures outer.Contents() == old(outer.Contents())
    ensures if status == OK then k < |os| && JoinedUpTo(outer, ifs, f, q, s, os, ns, k + 1)
      else k == |os| && JoinedUpTo(outer, ifs, f, q, s, os, ns, k)
  {
    hide ChainedHash.HashTable.Valid, BufMgr.Valid, BufMgr.Wired, BufMgr.Abs, Inv, LeavesOthers, InsertOne, InsertAll;
    hide Fits, DropTo;
    hide HeapFile.Valid, HeapFile.View, HeapFile.Sole, HeapFile.Ahead, HeapFile.Contents, HeapFile.Insertion;
    hide HeapFile.PoolNow;
    hide HeapFile.Open, HeapFile.FileSize, RowsOf, HasProjs, TotalLength, Ready, HeapIn, AllEntries, HasAttr, Matcher;
    hide Rows;
    ghost var ahead := outer.Ahead();
    FetchedAll(ahead, outer.filter, outer.float);
    var e;
    status, e := FetchOuter(outer, ifs, f);
    if status == OK {
      assert os[k..][0] == os[k] && os[k..][1..] == os[k + 1..] && os[k] in os;
      RoomForRows(s, q, os, ns, k);
      JoinInner(outer, ifs, f, q, e.rec, data);
    }
  }

  /** QU_NL_Join on files: every joining pair has its row inserted in the result, in outer-major
      scan order, while all three files share one pool of any size; the relations do not change. */
  method NestedLoops(outer: HeapFile, ifs: HeapFile, f: FileRef, q: Query) returns (status: Status)
    requires Side(outer, ifs) && |outer.Contents()| < DIRCNT && outer.filter == NoFilter
    requires f != outer.filePtr && f != ifs.filePtr && Ready(outer.PoolNow(), f, outer.touched)
    requires |HeapIn(outer.PoolNow(), f, outer.touched)| < DIRCNT
    requires var ns := AllEntries(HeapIn(outer.PoolNow(), f, outer.touched));
      Answerable(q, outer.Ahead(), ns) && Fits(ifs.Insertion(), Rows(q, outer.Ahead(), ns))
    modifies outer`curPage, outer`curPageNo, outer`touched, outer`curIdx, outer`curRec
    modifies ifs`curPage, ifs`curPageNo, ifs`curDirtyFlag, ifs`touched, ifs`curIdx, ifs`curRec, ifs`hdrDirtyFlag
    modifies outer.bm, outer.bm.bufTable, outer.bm.hashTable, outer.bm.hashTable.ht, outer.bm.hashTable.Repr
    modifies outer.bm.disk, outer.bm.mems
    ensures fresh(outer.bm.hashTable.Repr - old(outer.bm.hashTable.Repr))
    ensures status == OK && Side(outer, ifs) && outer.Ahead() == [] && outer.Contents() == old(outer.Contents())
    ensures Ready(outer.PoolNow(), f, outer.touched)
    ensures var ns := AllEntries(old(HeapIn(outer.PoolNow(), f, outer.touched)));
      AllEntries(HeapIn(outer.PoolNow(), f, outer.touched)) == ns
    ensures var rows := Rows(q, old(outer.Ahead()), AllEntries(old(HeapIn(outer.PoolNow(), f, outer.touched))));
      && old(ifs.Insertion()).at <= |old(ifs.Insertion()).file|
      && ifs.Insertion() == InsertAll(old(ifs.Insertion()), rows)
      && Sum(AllEntries(ifs.Contents())) == Sum(AllEntries(old(ifs.Contents()))) + multiset(rows)
      && (Packed(old(ifs.Contents())) && old(ifs.Insertion()).at == |old(ifs.Contents())| - 1 ==>
            Records(AllEntries(ifs.Contents())) == Records(AllEntries(old(ifs.Contents()))) + rows)
  {
    hide ChainedHash.HashTable.Valid, BufMgr.Valid, BufMgr.Wired, BufMgr.Abs, Inv, LeavesOthers, InsertOne, InsertAll;
    hide Fits, Sum;
    hide HeapFile.Valid, HeapFile.View, HeapFile.Sole, HeapFile.Ahead, HeapFile.Contents, HeapFile.Insertion;
    hide HeapFile.PoolNow;
    hide HeapFile.Open, HeapFile.FileSize, RowsOf, HasProjs, TotalLength, Ready, HeapIn, AllEntries, HasAttr, Rows;
    hide JoinedUpTo, Packed;
    ghost var os := outer.Ahead();
    ghost var ns := AllEntries(HeapIn(outer.PoolNow(), f, outer.touched));
    ghost var s := ifs.Insertion();
    Beginning(outer, ifs, f, q, os, ns);
    var data := new byte[TotalLength(q.ps)];
    ghost var k := 0;
    while true
      invariant fresh(outer.bm.hashTable.Repr - old(outer.bm.hashTable.Repr))
      invariant 0 <= k <= |os| && JoinedUpTo(outer, ifs, f, q, s, os, ns, k)
      invariant outer.Contents() == old(outer.Contents())
      decreases |os| - k
    {
      status := JoinRound(outer, ifs, f, q, data, s, os, ns, k);
      if status == FILEEOF {
        break;
      }
      k := k + 1;
    }
    Ending(outer, ifs, f, q, s, os, ns);
    status := OK;
  }

  /** Nothing joined yet. */
  lemma Beginning(outer: HeapFile, ifs: HeapFile, f: FileRef, q: Query, os: seq<Entry>, ns: seq<Entry>)
    requires Side(outer, ifs) && |outer.Contents()| < DIRCNT && outer.filter == NoFilter
    requires f != outer.filePtr && f != ifs.filePtr && Ready(outer.PoolNow(), f, outer.touched)
    requires |HeapIn(outer.PoolNow(), f, outer.touched)| < DIRCNT
    requires ns == AllEntries(HeapIn(outer.PoolNow(), f, outer.touched))
    requires os == outer.Ahead()
    ensures JoinedUpTo(outer, ifs, f, q, ifs.Insertion(), os, ns, 0) && InsertingOK(ifs.Insertion())
    ensures ifs.Insertion().file == ifs.Contents()
  {
    hide HeapFile.Valid, HeapFile.View, HeapFile.Sole, HeapFile.Ahead, HeapFile.Contents, HeapFile.PoolNow;
    hide HeapFile.Open;
    hide HeapFile.FileSize, HeapFile.Insertion, Rows, Ready, HeapIn, AllEntries;
    ifs.InsertionSound();
    NoRowsAtAll(ifs.Insertion(), q, os, ns);
  }

  /** All joined. */
  lemma Ending(outer: HeapFile, ifs: HeapFile, f: FileRef, q: Query, s: Inserting, os: seq<Entry>, ns: seq<Entry>)
    requires JoinedUpTo(outer, ifs, f, q, s, os, ns, |os|) && Answerable(q, os, ns) && InsertingOK(s)
    ensures Side(outer, ifs) && Ready(outer.PoolNow(), f, outer.touched) && outer.Ahead() == []
    ensures AllEntries(HeapIn(outer.PoolNow(), f, outer.touched)) == ns
    ensures s.at <= |s.file| && ifs.Insertion() == InsertAll(s, Rows(q, os, ns))
    ensures Sum(AllEntries(ifs.Contents())) == Sum(AllEntries(s.file)) + multiset(Rows(q, os, ns))
    ensures Packed(s.file) && s.at == |s.file| - 1 ==>
      Records(AllEntries(ifs.Contents())) == Records(AllEntries(s.file)) + Rows(q, os, ns)
  {
    hide HeapFile.Valid, HeapFile.View, HeapFile.Sole, HeapFile.Ahead, HeapFile.Contents, HeapFile.PoolNow;
    hide HeapFile.Open;
    hide HeapFile.FileSize, HeapFile.Insertion, Rows, Ready, HeapIn, AllEntries, InsertAll, Sum, InsertingOK, Packed;
    assert os[..|os|] == os && os[|os|..] == [];
    InsertionRoom(ifs);
    AllRowLengths(q, os, ns);
    InsertAllGains(s, Rows(q, os, ns));
    if Packed(s.file) && s.at == |s.file| - 1 {
      InsertAllAppends(s, Rows(q, os, ns));
    }
  }

  lemma NoRowsAtAll(s: Inserting, q: Query, os: seq<Entry>, ns: seq<Entry>)
    requires s.at <= |s.file|
    ensures InsertAll(s, Rows(q, os[..0], ns)) == s && os[0..] == os
  {
  }
}
