/** The loops that use heap files: select.C, delete.C and load.C. */
module Queries {
  import opened Bytes
  import opened StatusCodes
  import opened PageSpec
  import opened PageLayout
  import opened FileSpec
  import opened Disks
  import opened PoolSpec
  import opened PoolRefinement
  import opened PoolClient
  import opened BufMgrs
  import opened HeapSpec
  import opened HeapLayout
  import opened HeapClient
  import opened HeapSession
  import opened HeapFiles
  import opened Interference
  import opened Comparing
  import ChainedHash

  /** One scanNext with its getRecord, as every loop over a scan makes them. */
  method Fetch(hfs: HeapFile) returns (status: Status, e: Entry)
    requires hfs.Valid() && hfs.Sole() && |hfs.Contents()| < DIRCNT
    modifies hfs`curPage, hfs`curPageNo, hfs`touched, hfs`curIdx, hfs`curRec
    modifies hfs.bm, hfs.bm.bufTable, hfs.bm.hashTable, hfs.bm.hashTable.ht, hfs.bm.hashTable.Repr, hfs.bm.disk
    modifies hfs.bm.mems
    ensures fresh(hfs.bm.hashTable.Repr - old(hfs.bm.hashTable.Repr)) && status in {OK, FILEEOF}
    ensures hfs.Valid() && hfs.Sole() && hfs.View() == old(hfs.View()) && hfs.Contents() == old(hfs.Contents())
    ensures status == OK ==>
      hfs.AtRecord() && hfs.CurrentEntry() == e && DropTo(old(hfs.Ahead()), hfs.Wanted()) == [e] + hfs.Ahead()
    ensures status == FILEEOF ==> DropTo(old(hfs.Ahead()), hfs.Wanted()) == [] && hfs.Ahead() == []
    ensures hfs.Spares() && (!hfs.curDirtyFlag ==> hfs.touched == old(hfs.touched))
  {
    hide HeapFile.PoolNow, LeavesOthers;
    hide ChainedHash.HashTable.Valid, BufMgr.Valid, BufMgr.Wired, BufMgr.Abs, Inv, HeapInv, PageInv, HeapFile.Valid;
    hide HeapFile.Open, HeapFile.View, HeapFile.Sole, HeapFile.Ahead, HeapFile.AtRecord;
    hide HeapFile.Contents, HeapFile.Wanted, DropTo;
    var rid;
    status, rid := hfs.ScanNext();
    e := Entry(rid, []);
    if status == OK {
      var rec;
      status, rec := hfs.GetRecord();
      e := Entry(rid, rec);
    }
  }

  /** The same, when nothing is filtered out. */
  method FetchAny(hfs: HeapFile) returns (status: Status, e: Entry)
    requires hfs.Valid() && hfs.Sole() && |hfs.Contents()| < DIRCNT && hfs.filter == NoFilter
    modifies hfs`curPage, hfs`curPageNo, hfs`touched, hfs`curIdx, hfs`curRec
    modifies hfs.bm, hfs.bm.bufTable, hfs.bm.hashTable, hfs.bm.hashTable.ht, hfs.bm.hashTable.Repr, hfs.bm.disk
    modifies hfs.bm.mems
    ensures fresh(hfs.bm.hashTable.Repr - old(hfs.bm.hashTable.Repr))
    ensures hfs.Valid() && hfs.Sole() && hfs.View() == old(hfs.View()) && hfs.Contents() == old(hfs.Contents())
    ensures status == if old(hfs.Ahead()) == [] then FILEEOF else OK
    ensures status == OK ==> hfs.AtRecord() && hfs.CurrentEntry() == e && old(hfs.Ahead()) == [e] + hfs.Ahead()
    ensures status == FILEEOF ==> hfs.Ahead() == []
    ensures hfs.Spares() && (!hfs.curDirtyFlag ==> hfs.touched == old(hfs.touched))
  {
    hide HeapFile.PoolNow, LeavesOthers;
    hide ChainedHash.HashTable.Valid, BufMgr.Valid, BufMgr.Wired, BufMgr.Abs, Inv, HeapInv, PageInv, HeapFile.Valid;
    hide HeapFile.Open, HeapFile.View, HeapFile.Sole, HeapFile.Ahead, HeapFile.AtRecord, HeapFile.CurrentEntry;
    hide HeapFile.Contents, DropTo;
    NothingDropped(hfs.Ahead(), hfs.Wanted());
    status, e := Fetch(hfs);
  }

  lemma NothingDropped(es: seq<Entry>, p: Rec -> bool)
    requires forall r :: p(r)
    ensures DropTo(es, p) == es
  {
  }

  /** The loop of ScanSelect: the scan returns each matching record once, in order. */
  method Select(hfs: HeapFile) returns (status: Status, out: seq<Entry>)
    requires hfs.Valid() && hfs.Sole() && |hfs.Contents()| < DIRCNT
    modifies hfs`curPage, hfs`curPageNo, hfs`touched, hfs`curIdx, hfs`curRec
    modifies hfs.bm, hfs.bm.bufTable, hfs.bm.hashTable, hfs.bm.hashTable.ht, hfs.bm.hashTable.Repr, hfs.bm.disk
    modifies hfs.bm.mems
    ensures fresh(hfs.bm.hashTable.Repr - old(hfs.bm.hashTable.Repr))
    ensures status == OK && hfs.Valid() && hfs.Sole() && hfs.View() == old(hfs.View())
    ensures out == Matching(old(hfs.Ahead()), old(hfs.Wanted())) && hfs.Ahead() == []
  {
    hide ChainedHash.HashTable.Valid, BufMgr.Valid, BufMgr.Wired, BufMgr.Abs, Inv, HeapInv, PageInv, HeapFile.Valid;
    hide HeapFile.Open, HeapFile.View, HeapFile.Sole, HeapFile.Ahead, HeapFile.AtRecord;
    hide HeapFile.Contents, HeapFile.CurrentEntry, Matching, DropTo, MatchRec;
    out := [];
    ghost var p := hfs.Wanted();
    ghost var all := Matching(hfs.Ahead(), p);
    while true
      invariant fresh(hfs.bm.hashTable.Repr - old(hfs.bm.hashTable.Repr))
      invariant hfs.Valid() && hfs.Sole() && hfs.View() == old(hfs.View())
      invariant |hfs.Contents()| < DIRCNT && out + Matching(hfs.Ahead(), p) == all
      decreases |hfs.Ahead()|
    {
      ghost var ahead := hfs.Ahead();
      var e;
      status, e := Fetch(hfs);
      MatchingNext(ahead, p);
      if status == FILEEOF {
        break;
      }
      AppendNext(out, e, Matching(hfs.Ahead(), p));
      out := out + [e];
    }
    status := OK;
  }

  lemma MatchingNext(es: seq<Entry>, p: Rec -> bool)
    ensures var d := DropTo(es, p);
      if d == [] then Matching(es, p) == []
      else Matching(es, p) == [d[0]] + Matching(d[1..], p) && |d[1..]| < |es|
  {
    MatchingDropTo(es, p);
    DropToShrinks(es, p);
  }

  lemma AppendNext(a: seq<Entry>, e: Entry, b: seq<Entry>)
    ensures a + ([e] + b) == (a + [e]) + b
  {
  }

  // ----- Deleting -----

  /** Deleting the record a scan has just found: what lies behind the scan is what lay behind it
      and what it skipped. */
  lemma DeletionStep(h: Heap, i: nat, k: nat, before: seq<Entry>, ahead: seq<Entry>,
      p: Rec -> bool) returns (kept: seq<Entry>)
    requires i < |h| && LiveAt(h[i].slots, k) && AllEntries(h) == before + ahead
    requires DropTo(ahead, p) == [Entry(RID(h[i].no, k), h[i].slots[k].rec)] + EntriesFrom(h, i, k + 1)
    ensures AllEntries(DeletedAt(h, i, k)) == kept + EntriesFrom(h, i, k + 1)
    ensures DeletedOne(p, before, ahead, kept, EntriesFrom(h, i, k + 1), [Entry(RID(h[i].no, k), h[i].slots[k].rec)])
  {
    hide EntriesFrom, AllEntries, DeletedAt, DropTo, Others;
    var e := Entry(RID(h[i].no, k), h[i].slots[k].rec);
    var rest := EntriesFrom(h, i, k + 1);
    DropToShrinks(ahead, p);
    var skipped := SkipOthers(ahead, p);
    DeleteAtCursor(h, i, k);
    HeadMatches(e, rest, p);
    kept := before + skipped;
    SameFront(before, skipped, e, rest);
    var pre :| AllEntries(h) == pre + [e] + rest && AllEntries(DeletedAt(h, i, k)) == pre + rest;
    CancelBack(pre, kept, [e] + rest);
    Regroup(before, skipped, [], Others(rest, p));
  }

  /** A scan that has found a record, deleting it. */
  method DeleteFound(hfs: HeapFile, ghost before: seq<Entry>, ghost ahead: seq<Entry>,
      ghost e: Entry) returns (status: Status, ghost kept: seq<Entry>)
    requires hfs.Valid() && hfs.Sole() && hfs.AtRecord() && hfs.CurrentEntry() == e
    requires AllEntries(hfs.Contents()) == before + ahead && DropTo(ahead, hfs.Wanted()) == [e] + hfs.Ahead()
    modifies hfs.curPage.mem, hfs.headerPage.mem, hfs`curDirtyFlag, hfs`hdrDirtyFlag, hfs`touched
    ensures status == OK && hfs.Valid() && hfs.Sole() && |hfs.Contents()| == |old(hfs.Contents())|
    ensures hfs.Ahead() == old(hfs.Ahead()) && AllEntries(hfs.Contents()) == kept + hfs.Ahead()
    ensures DeletedOne(hfs.Wanted(), before, ahead, kept, hfs.Ahead(), [e])
  {
    hide ChainedHash.HashTable.Valid, BufMgr.Valid, BufMgr.Wired, BufMgr.Abs, Inv, HeapInv, PageInv, HeapFile.Valid;
    hide HeapFile.Open, HeapFile.View, HeapFile.Sole, HeapFile.Contents;
    hide HeapFile.Wanted, Others, AllEntries, DropTo, EntriesFrom, Deleted, Slots, WF, Sound, DeletedOne;
    hfs.Current();
    kept := DeletionStep(hfs.Contents(), hfs.curIdx, hfs.curRec.slotNo, before, ahead, hfs.Wanted());
    status := hfs.DeleteRecord();
  }

  /** From before/ahead to kept/ahead' the scan has visited `es` and removed them. */
  ghost predicate DeletedOne(p: Rec -> bool, before: seq<Entry>, ahead: seq<Entry>, kept: seq<Entry>,
      ahead': seq<Entry>, es: seq<Entry>) {
    before + Others(ahead, p) == kept + Others(ahead', p) && Matching(ahead, p) == es + Matching(ahead', p)
  }

  /** One round of the loop of QU_Delete. */
  method DeleteNext(hfs: HeapFile, ghost before: seq<Entry>) returns (status: Status, ghost e: Entry,
      ghost kept: seq<Entry>)
    requires hfs.Valid() && hfs.Sole() && |hfs.Contents()| < DIRCNT
    requires AllEntries(hfs.Contents()) == before + hfs.Ahead()
    modifies hfs`curPage, hfs`curPageNo, hfs`touched, hfs`curIdx, hfs`curRec, hfs`curDirtyFlag, hfs`hdrDirtyFlag
    modifies hfs.bm, hfs.bm.bufTable, hfs.bm.hashTable, hfs.bm.hashTable.ht, hfs.bm.hashTable.Repr, hfs.bm.disk
    modifies hfs.bm.mems
    ensures fresh(hfs.bm.hashTable.Repr - old(hfs.bm.hashTable.Repr)) && status in {OK, FILEEOF}
    ensures hfs.Valid() && hfs.Sole() && |hfs.Contents()| == |old(hfs.Contents())|
    ensures AllEntries(hfs.Contents()) == kept + hfs.Ahead()
    ensures DeletedOne(hfs.Wanted(), before, old(hfs.Ahead()), kept, hfs.Ahead(), if status == OK then [e] else [])
    ensures if status == OK then |hfs.Ahead()| < |old(hfs.Ahead())| else hfs.Ahead() == []
  {
    hide ChainedHash.HashTable.Valid, BufMgr.Valid, BufMgr.Wired, BufMgr.Abs, Inv, HeapInv, PageInv, HeapFile.Valid;
    hide HeapFile.Open, HeapFile.View, HeapFile.Sole, HeapFile.Ahead, HeapFile.AtRecord;
    hide HeapFile.Contents, HeapFile.CurrentEntry, HeapFile.Wanted, Matching, DropTo, AllEntries, DeletedOne;
    ghost var ahead := hfs.Ahead();
    ghost var p := hfs.Wanted();
    var found;
    status, found := Fetch(hfs);
    e := found;
    hfs.OwnFrames();
    MatchingNext(ahead, p);
    if status == FILEEOF {
      NoneLeft(ahead, p);
      kept := before + ahead;
    } else {
      status, kept := DeleteFound(hfs, before, ahead, e);
    }
  }

  /** The loop of QU_Delete: every matching record ahead of the scan is visited exactly once, in
      order, and is gone; all other records are left as they were, in their places. */
  method DeleteMatching(hfs: HeapFile, ghost before: seq<Entry>) returns (status: Status, ghost visited: seq<Entry>)
    requires hfs.Valid() && hfs.Sole() && |hfs.Contents()| < DIRCNT
    requires AllEntries(hfs.Contents()) == before + hfs.Ahead()
    modifies hfs`curPage, hfs`curPageNo, hfs`touched, hfs`curIdx, hfs`curRec, hfs`curDirtyFlag, hfs`hdrDirtyFlag
    modifies hfs.bm, hfs.bm.bufTable, hfs.bm.hashTable, hfs.bm.hashTable.ht, hfs.bm.hashTable.Repr, hfs.bm.disk
    modifies hfs.bm.mems
    ensures fresh(hfs.bm.hashTable.Repr - old(hfs.bm.hashTable.Repr))
    ensures status == OK && hfs.Valid() && hfs.Sole() && hfs.Ahead() == []
    ensures visited == Matching(old(hfs.Ahead()), old(hfs.Wanted()))
    ensures AllEntries(hfs.Contents()) == before + Others(old(hfs.Ahead()), old(hfs.Wanted()))
  {
    hide ChainedHash.HashTable.Valid, BufMgr.Valid, BufMgr.Wired, BufMgr.Abs, Inv, HeapInv, PageInv, HeapFile.Valid;
    hide HeapFile.Open, HeapFile.View, HeapFile.Sole, HeapFile.Ahead, HeapFile.AtRecord;
    hide HeapFile.Contents, HeapFile.CurrentEntry, HeapFile.Wanted, Matching, DropTo, MatchRec, AllEntries, DeletedOne;
    visited := [];
    ghost var kept := before;
    ghost var p := hfs.Wanted();
    ghost var ahead := hfs.Ahead();
    NothingDeleted(p, before, ahead);
    while true
      invariant fresh(hfs.bm.hashTable.Repr - old(hfs.bm.hashTable.Repr))
      invariant hfs.Valid() && hfs.Sole() && |hfs.Contents()| < DIRCNT
      invariant AllEntries(hfs.Contents()) == kept + hfs.Ahead()
      invariant DeletedOne(p, before, ahead, kept, hfs.Ahead(), visited)
      decreases |hfs.Ahead()|
    {
      ghost var e;
      ghost var kept0, ahead0 := kept, hfs.Ahead();
      status, e, kept := DeleteNext(hfs, kept);
      DeletedMore(p, before, ahead, kept0, ahead0, kept, hfs.Ahead(), visited, if status == OK then [e] else []);
      visited := visited + if status == OK then [e] else [];
      if status == FILEEOF {
        break;
      }
    }
    AllDeleted(p, before, ahead, kept, visited);
    status := OK;
  }

  lemma NothingDeleted(p: Rec -> bool, before: seq<Entry>, ahead: seq<Entry>)
    ensures DeletedOne(p, before, ahead, before, ahead, [])
  {
    assert [] + Matching(ahead, p) == Matching(ahead, p);
  }

  lemma DeletedMore(p: Rec -> bool, a: seq<Entry>, x: seq<Entry>, b: seq<Entry>, y: seq<Entry>, c: seq<Entry>,
      z: seq<Entry>, v: seq<Entry>, w: seq<Entry>)
    requires DeletedOne(p, a, x, b, y, v) && DeletedOne(p, b, y, c, z, w)
    ensures DeletedOne(p, a, x, c, z, v + w)
  {
    Regroup(v, w, [], Matching(z, p));
  }

  lemma AllDeleted(p: Rec -> bool, before: seq<Entry>, ahead: seq<Entry>, kept: seq<Entry>, v: seq<Entry>)
    requires DeletedOne(p, before, ahead, kept, [], v)
    ensures v == Matching(ahead, p) && kept + [] == before + Others(ahead, p)
  {
    assert v + [] == v && kept + [] == kept;
  }

  lemma NoneLeft(es: seq<Entry>, p: Rec -> bool)
    requires DropTo(es, p) == []
    ensures Matching(es, p) == [] && Others(es, p) == es
    ensures forall before :: DeletedOne(p, before, es, before + es, [], [])
  {
    var skipped := SkipOthers(es, p);
  }

  lemma SameFront(a: seq<Entry>, b: seq<Entry>, e: Entry, rest: seq<Entry>)
    ensures a + (b + ([e] + rest)) == (a + b) + [e] + rest
    ensures forall pre :: pre + [e] + rest == pre + ([e] + rest)
  {
  }

  lemma CancelBack(a: seq<Entry>, b: seq<Entry>, c: seq<Entry>)
    requires a + c == b + c
    ensures a == b
  {
    assert |a| == |b|;
    assert a == (a + c)[..|a|] && b == (b + c)[..|b|];
  }

  // ----- Loading -----

  /** The loop of UT_Load, from whatever page the insertion scan stands on: the records go in one
      after the other, and none that was there is lost.  From the last page of a file without
      holes they are appended. */
  method Load(iScan: HeapFile, rs: seq<Rec>) returns (status: Status)
    requires iScan.Valid() && iScan.Sole() && Fits(iScan.Insertion(), rs)
    requires forall i :: 0 <= i < |rs| ==> 1 <= |rs[i]| <= MAXREC
    modifies iScan`curPage, iScan`curPageNo, iScan`touched, iScan`curIdx, iScan`curRec, iScan`curDirtyFlag
    modifies iScan`hdrDirtyFlag
    modifies iScan.bm, iScan.bm.bufTable, iScan.bm.hashTable, iScan.bm.hashTable.ht, iScan.bm.hashTable.Repr
    modifies iScan.bm.disk, iScan.bm.mems
    ensures fresh(iScan.bm.hashTable.Repr - old(iScan.bm.hashTable.Repr))
    ensures status == OK && iScan.Valid() && iScan.Sole() && iScan.Spares()
    ensures old(iScan.Insertion()).at <= |old(iScan.Insertion()).file|
    ensures iScan.Insertion() == InsertAll(old(iScan.Insertion()), rs)
    ensures old(iScan.CountRight()) ==> iScan.CountRight()
    ensures Sum(AllEntries(iScan.Contents())) == Sum(AllEntries(old(iScan.Contents()))) + multiset(rs)
    ensures Packed(old(iScan.Contents())) && old(iScan.curIdx) == |old(iScan.Contents())| - 1 ==>
      Records(AllEntries(iScan.Contents())) == Records(AllEntries(old(iScan.Contents()))) + rs
  {
    hide ChainedHash.HashTable.Valid, BufMgr.Valid, BufMgr.Wired, BufMgr.Abs, Inv, InsertingOK, AllEntries, Packed, Sum;
    hide HeapFile.Valid, HeapFile.Open, HeapFile.View, HeapFile.Sole, HeapFile.Insertion, HeapFile.AtRecord;
    hide HeapFile.Contents, HeapFile.CurrentEntry, HeapFile.FileSize, HeapFile.PoolNow, InsertOne, InsertAll, Fits;
    hide LeavesOthers, HeapFile.CountRight;
    status := OK;
    iScan.InsertionSound();
    ghost var s := iScan.Insertion();
    InsertedNone(s, rs);
    LeavesSelf(iScan.PoolNow(), iScan.touched, iScan.filePtr);
    for k := 0 to |rs|
      invariant fresh(iScan.bm.hashTable.Repr - old(iScan.bm.hashTable.Repr))
      invariant status == OK && iScan.Valid() && iScan.Sole() && iScan.Insertion() == InsertAll(s, rs[..k])
      invariant iScan.Spares() && (old(iScan.CountRight()) ==> iScan.CountRight())
    {
      ghost var p, t := iScan.PoolNow(), iScan.touched;
      iScan.InsertionSound();
      InsertedNext(s, rs, k);
      var rid;
      status, rid := iScan.InsertRecord(rs[k]);
      LeavesTrans(old(iScan.PoolNow()), old(iScan.touched), p, t, iScan.PoolNow(), iScan.touched, iScan.filePtr);
    }
    assert rs[..|rs|] == rs;
    iScan.InsertionSound();
    InsertAllGains(s, rs);
    if Packed(s.file) && s.at == |s.file| - 1 {
      InsertAllAppends(s, rs);
    }
  }

  /** The directory and the file have room for all the pages that the records take. */
  predicate Fits(s: Inserting, rs: seq<Rec>) {
    s.at <= |s.file| && var t := InsertAll(s, rs); |t.file| < DIRCNT && t.next < MAXPAGES
  }

  lemma InsertedNone(s: Inserting, rs: seq<Rec>)
    requires s.at <= |s.file|
    ensures InsertAll(s, rs[..0]) == s
  {
  }

  /** One record more; there is room for it, as there is for all. */
  lemma InsertedNext(s: Inserting, rs: seq<Rec>, k: nat)
    requires Fits(s, rs) && k < |rs|
    ensures s.at <= |s.file| && InsertAll(s, rs[..k + 1]) == InsertOne(InsertAll(s, rs[..k]), rs[k])
    ensures |InsertAll(s, rs[..k]).file| < DIRCNT && InsertAll(s, rs[..k]).next < MAXPAGES
  {
    hide InsertOne, InsertAll;
    CutAt(rs, k);
    InsertedLast(s, rs[..k], rs[k]);
    InsertAllSplit(s, rs[..k], rs[k..]);
    InsertAllSizes(InsertAll(s, rs[..k]), rs[k..]);
  }

  lemma CutAt(rs: seq<Rec>, k: nat)
    requires k < |rs|
    ensures rs[..k] + [rs[k]] == rs[..k + 1] && rs[..k] + rs[k..] == rs
  {
  }

  lemma InsertedLast(s: Inserting, rs: seq<Rec>, r: Rec)
    requires s.at <= |s.file|
    ensures InsertAll(s, rs + [r]) == InsertOne(InsertAll(s, rs), r)
  {
    hide InsertOne;
    assert (rs + [r])[..|rs|] == rs;
  }

  lemma {:induction false} MatchAll(es: seq<Entry>, p: Rec -> bool)
    requires forall r :: p(r)
    ensures Matching(es, p) == es
  {
    if es != [] {
      MatchAll(es[1..], p);
      assert es == [es[0]] + es[1..];
    }
  }

  /** A file just created: one empty page. */
  ghost predicate IsFresh(h: Heap) { exists no :: h == FreshHeap(no) }

  lemma FreshLoad(h: Heap, rs: seq<Rec>, next: int)
    requires IsFresh(h) && h[0].no < next && forall i :: 0 <= i < |rs| ==> 1 <= |rs[i]| <= MAXREC
    ensures Records(AllEntries(InsertAll(Inserting(h, 0, next), rs).file)) == rs
  {
    hide AllEntries, InsertAll;
    var no :| h == FreshHeap(no);
    FreshIsPacked(no, 1);
    InsertAllAppends(Inserting(h, 0, next), rs);
    assert Records(AllEntries(h)) + rs == rs;
  }

  /** Fills a file through an insertion scan, which starts on its first page, and closes it. */
  method LoadFile(bm: BufMgr, f: FileRef, float: seq<byte> -> real, rs: seq<Rec>, ghost owed: set<Key>)
    returns (ghost owed': set<Key>)
    requires bm.Valid() && Openable(bm.Abs(), f, owed) && Closed(bm.Abs(), f)
    requires forall i :: 0 <= i < |rs| ==> 1 <= |rs[i]| <= MAXREC
    requires Fits(Inserting(HeapOf(ViewOf(bm.Abs(), f)), 0, |bm.Abs().disk[f]|), rs)
    modifies bm, bm.bufTable, bm.hashTable, bm.hashTable.ht, bm.hashTable.Repr, bm.disk, bm.mems
    ensures fresh(bm.hashTable.Repr - old(bm.hashTable.Repr))
    ensures bm.Valid() && Openable(bm.Abs(), f, owed') && Closed(bm.Abs(), f)
    ensures var t := InsertAll(Inserting(old(HeapOf(ViewOf(bm.Abs(), f))), 0, |old(bm.Abs()).disk[f]|), rs);
      HeapOf(ViewOf(bm.Abs(), f)) == t.file && |bm.Abs().disk[f]| == t.next
    ensures old(RightCount(ViewOf(bm.Abs(), f))) ==> RightCount(ViewOf(bm.Abs(), f))
    ensures LeavesOthers(old(bm.Abs()), owed, bm.Abs(), owed', f) && |bm.Abs().upl| == |old(bm.Abs()).upl|
  {
    hide LeavesOthers, HeapFile.PoolNow, HeapFile.CountRight, RightCount;
    hide ChainedHash.HashTable.Valid, BufMgr.Wired, BufMgr.Abs, Inv, HeapInv, PageInv, HeapFile.Open, HeapFile.Sole;
    hide HeapFile.FileSize, Fits, InsertAll, HeapOf, Closed, ViewOf, Openable, Described, Packed, AllEntries, Sum;
    FirstIs(bm.Abs(), f, owed);
    var iScan := new HeapFile(bm, f, float, owed);
    iScan.InsertionSound();
    ghost var p := iScan.PoolNow();
    iScan.CountIsRight();
    var status := Load(iScan, rs);
    iScan.CountIsRight();
    iScan.InsertionSound();
    LeavesTrans(old(bm.Abs()), owed, p, owed, iScan.PoolNow(), iScan.touched, f);
    ghost var q, u := iScan.PoolNow(), iScan.touched;
    status := iScan.Close();
    LeavesTrans(old(bm.Abs()), owed, q, u, bm.Abs(), iScan.touched, f);
    owed' := iScan.touched;
  }

  /** A scan of file f opened and started. */
  method NewScan(bm: BufMgr, f: FileRef, c: Condition, float: seq<byte> -> real,
      ghost t: set<Key>) returns (status: Status, hfs: HeapFile)
    requires bm.Valid() && Stored(bm.Abs(), f, t) && ConditionOK(c)
    modifies bm, bm.bufTable, bm.hashTable, bm.hashTable.ht, bm.hashTable.Repr, bm.disk, bm.mems
    ensures fresh(bm.hashTable.Repr - old(bm.hashTable.Repr)) && fresh(hfs) && bm.Valid()
    ensures status == if |old(bm.Abs()).upl| >= 2 then OK else BUFFEREXCEEDED
    ensures status != OK ==> bm.Abs().upl == []
    ensures hfs.bm == bm && hfs.filePtr == f
    ensures status == OK ==> hfs.Valid() && hfs.Sole() && hfs.Wanted() == Matcher(c, float)
    ensures status == OK ==> hfs.View() == old(ViewOf(bm.Abs(), f)) && hfs.Contents() == old(HeapIn(bm.Abs(), f, t))
    ensures status == OK ==> hfs.Ahead() == AllEntries(hfs.Contents())
    ensures status == OK ==> LeavesOthers(old(bm.Abs()), t, hfs.PoolNow(), hfs.touched, f)
    ensures status == OK ==> |hfs.PoolNow().upl| == |old(bm.Abs()).upl| - 2
    ensures status == OK ==> hfs.touched == t && !hfs.hdrDirtyFlag && !hfs.curDirtyFlag && hfs.filter == c
  {
    hide ChainedHash.HashTable.Valid, BufMgr.Wired, BufMgr.Abs, Inv, LeavesOthers, IsHeapFile, Closed;
    hide EntriesFrom, ViewOf, OpenStatus;
    hide HeapFile.Open, HeapFile.Sole, HeapFile.PoolNow, HeapFile.FileSize, HeapOf, Described, HeapInv;
    FirstIs(bm.Abs(), f, t);
    hfs := new HeapFile(bm, f, float, t);
    status := hfs.returnStatus;
    if status == OK {
      ghost var q := hfs.PoolNow();
      status := hfs.StartScan(c);
      LeavesTrans(old(bm.Abs()), t, q, t, hfs.PoolNow(), hfs.touched, f);
    }
  }

  /** Reads a file through an unfiltered scan and closes it. */
  method ScanFile(bm: BufMgr, f: FileRef, float: seq<byte> -> real, ghost owed: set<Key>) returns (out: seq<Entry>,
      ghost owed': set<Key>)
    requires bm.Valid() && Openable(bm.Abs(), f, owed) && Closed(bm.Abs(), f) && |HeapOf(ViewOf(bm.Abs(), f))| < DIRCNT
    modifies bm, bm.bufTable, bm.hashTable, bm.hashTable.ht, bm.hashTable.Repr, bm.disk, bm.mems
    ensures fresh(bm.hashTable.Repr - old(bm.hashTable.Repr))
    ensures bm.Valid() && Openable(bm.Abs(), f, owed') && Closed(bm.Abs(), f)
    ensures ViewOf(bm.Abs(), f) == old(ViewOf(bm.Abs(), f))
    ensures out == AllEntries(HeapOf(ViewOf(bm.Abs(), f)))
  {
    hide ChainedHash.HashTable.Valid, BufMgr.Wired, BufMgr.Abs, Inv, HeapInv, PageInv, HeapFile.Open;
    hide HeapFile.Sole, HeapFile.View, HeapFile.Contents, HeapFile.Valid, HeapFile.Ahead, HeapFile.Wanted;
    hide HeapOf, Closed, ViewOf, IsHeapFile, Described, EntriesFrom, Matching, LeavesOthers, HeapFile.PoolNow;
    FirstIs(bm.Abs(), f, owed);
    ghost var h := HeapOf(ViewOf(bm.Abs(), f));
    var status, hfs := NewScan(bm, f, NoFilter, float, owed);
    MatchAll(hfs.Ahead(), hfs.Wanted());
    status, out := Select(hfs);
    status := hfs.Close();
    owed' := hfs.touched;
  }

  /** Insert/scan round trip: a fresh file filled through one insertion scan reads back, through
      any evictions, exactly the inserted byte strings in insertion order. */
  method LoadThenScan(bm: BufMgr, f: FileRef, float: seq<byte> -> real, rs: seq<Rec>,
      ghost owed: set<Key>) returns (out: seq<Entry>, ghost owed': set<Key>)
    requires bm.Valid() && Openable(bm.Abs(), f, owed) && Closed(bm.Abs(), f)
    requires forall i :: 0 <= i < |rs| ==> 1 <= |rs[i]| <= MAXREC
    requires var h := HeapOf(ViewOf(bm.Abs(), f)); IsFresh(h) && Fits(Inserting(h, 0, |bm.Abs().disk[f]|), rs)
    modifies bm, bm.bufTable, bm.hashTable, bm.hashTable.ht, bm.hashTable.Repr, bm.disk, bm.mems
    ensures fresh(bm.hashTable.Repr - old(bm.hashTable.Repr))
    ensures bm.Valid() && Openable(bm.Abs(), f, owed') && Closed(bm.Abs(), f)
    ensures Records(out) == rs
    ensures |bm.Abs().disk[f]| ==
      InsertAll(Inserting(old(HeapOf(ViewOf(bm.Abs(), f))), 0, |old(bm.Abs()).disk[f]|), rs).next
  {
    hide ChainedHash.HashTable.Valid, BufMgr.Wired, BufMgr.Abs, Inv, HeapInv, PageInv, HeapOf, Closed, ViewOf, Openable;
    hide Described, InsertAll, AllEntries;
    FirstIs(bm.Abs(), f, owed);
    ghost var h := HeapOf(ViewOf(bm.Abs(), f));
    FirstBelow(bm.Abs(), f, owed);
    FreshLoad(h, rs, |bm.Abs().disk[f]|);
    owed' := LoadFile(bm, f, float, rs, owed);
    ghost var p := bm.Abs();
    FirstIs(p, f, owed');
    out, owed' := ScanFile(bm, f, float, owed');
    FirstIs(bm.Abs(), f, owed');
    SameViewSize(p, bm.Abs(), f);
  }

  lemma FirstBelow(p: Pool, f: FileRef, owed: set<Key>)
    requires Openable(p, f, owed)
    ensures Inv(p) && f in p.disk && HeapOK(ViewOf(p, f)) && HeapOf(ViewOf(p, f)) != []
    ensures HeapOf(ViewOf(p, f))[0].no < |p.disk[f]|
  {
    hide Inv, HeapOf, View;
    EntryExists(p, f, 0);
  }
}
