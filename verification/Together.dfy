/** Several heap files open at once on one buffer pool: what is done through one of them leaves the
    others as they are.  ScanSelect of select.C works on two of them. */
module Together {
  import opened Bytes
  import opened StatusCodes
  import opened PageSpec
  import opened FileSpec
  import opened PoolSpec
  import opened PoolRefinement
  import opened BufMgrs
  import opened HeapSpec
  import opened HeapLayout
  import opened HeapClient
  import opened Interference
  import opened HeapFiles
  import opened Queries
  import opened Joins
  import ChainedHash

  /** Two files open on one pool, with no other users, and one account of the changes owed. */
  ghost predicate Side(a: HeapFile, b: HeapFile)
    reads a, a.bm, a.bm.bufTable, a.bm.hashTable, a.bm.hashTable.ht, a.bm.hashTable.Repr, a.bm.disk, a.bm.mems
    reads b, b.bm, b.bm.bufTable, b.bm.hashTable, b.bm.hashTable.ht, b.bm.hashTable.Repr, b.bm.disk, b.bm.mems
  {
    && a != b && a.bm == b.bm && a.filePtr != b.filePtr && a.touched == b.touched
    && a.Valid() && a.Sole() && b.Valid() && b.Sole()
  }

  /** One scanNext with its getRecord, another file being open. */
  method FetchBeside(a: HeapFile, b: HeapFile) returns (status: Status, e: Entry)
    requires Side(a, b) && |a.Contents()| < DIRCNT
    modifies a`curPage, a`curPageNo, a`touched, a`curIdx, a`curRec, b`touched
    modifies a.bm, a.bm.bufTable, a.bm.hashTable, a.bm.hashTable.ht, a.bm.hashTable.Repr, a.bm.disk, a.bm.mems
    ensures fresh(a.bm.hashTable.Repr - old(a.bm.hashTable.Repr)) && status in {OK, FILEEOF}
    ensures Side(a, b) && a.View() == old(a.View()) && a.Contents() == old(a.Contents())
    ensures status == OK ==> DropTo(old(a.Ahead()), a.Wanted()) == [e] + a.Ahead()
    ensures status == FILEEOF ==> DropTo(old(a.Ahead()), a.Wanted()) == [] && a.Ahead() == []
    ensures b.View() == old(b.View()) && b.Contents() == old(b.Contents()) && b.Ahead() == old(b.Ahead())
    ensures b.Insertion() == old(b.Insertion())
    ensures a.Spares()
  {
    hide ChainedHash.HashTable.Valid, BufMgr.Valid, BufMgr.Wired, BufMgr.Abs, Inv, LeavesOthers, DropTo;
    hide HeapFile.Valid, HeapFile.View, HeapFile.Sole, HeapFile.Ahead, HeapFile.Contents, HeapFile.Insertion;
    hide HeapFile.AtRecord;
    hide HeapFile.Open, HeapFile.Wanted, HeapFile.CurrentEntry, HeapFile.PoolNow;
    OpenNow(a);
    status, e := Fetch(a);
    OpenNow(a);
    b.touched := a.touched;
    b.Undisturbed(a.filePtr);
  }

  lemma OpenNow(a: HeapFile)
    requires a.Valid()
    ensures a.Open() && a.bm.Valid() && a.bm.Wired() && a.PoolNow() == a.bm.Abs()
  {
    hide ChainedHash.HashTable.Valid, BufMgr.Wired, BufMgr.Abs, Inv, Anchored, FrameHolds, Positioned;
  }

  /** One insertRecord, another file being open. */
  method InsertBeside(b: HeapFile, a: HeapFile, rec: Rec) returns (status: Status)
    requires Side(a, b) && |b.Contents()| < DIRCNT && b.FileSize() < MAXPAGES && 1 <= |rec| <= MAXREC
    modifies b`curPage, b`curPageNo, b`curDirtyFlag, b`touched, b`curIdx, b`curRec, b`hdrDirtyFlag, a`touched
    modifies b.bm, b.bm.bufTable, b.bm.hashTable, b.bm.hashTable.ht, b.bm.hashTable.Repr, b.bm.disk, b.bm.mems
    ensures fresh(b.bm.hashTable.Repr - old(b.bm.hashTable.Repr)) && status == OK && Side(a, b)
    ensures old(b.Insertion()).at <= |old(b.Insertion()).file| && b.Insertion() == InsertOne(old(b.Insertion()), rec)
    ensures a.View() == old(a.View()) && a.Contents() == old(a.Contents()) && a.Ahead() == old(a.Ahead())
    ensures a.Insertion() == old(a.Insertion())
    ensures b.Spares()
  {
    hide ChainedHash.HashTable.Valid, BufMgr.Valid, BufMgr.Wired, BufMgr.Abs, Inv, LeavesOthers, InsertOne;
    hide HeapFile.Valid, HeapFile.View, HeapFile.Sole, HeapFile.Ahead, HeapFile.Contents, HeapFile.Insertion;
    hide HeapFile.AtRecord;
    hide HeapFile.Open, HeapFile.CurrentEntry, HeapFile.FileSize, HeapFile.PoolNow;
    OpenNow(b);
    var rid;
    status, rid := b.InsertRecord(rec);
    OpenNow(b);
    a.touched := b.touched;
    a.Undisturbed(b.filePtr);
  }

  // ----- ScanSelect -----

  /** The result records of a selection. */
  function Selected(ps: seq<Proj>, es: seq<Entry>): seq<Rec> {
    if es == [] then [] else
      Selected(ps, es[..|es| - 1]) +
        [if HasProjs(ps, es[|es| - 1].rec, []) then Project(ps, es[|es| - 1].rec, []) else []]
  }

  lemma {:induction false} SelectedLength(ps: seq<Proj>, es: seq<Entry>)
    ensures |Selected(ps, es)| == |es|
    ensures (forall e :: e in es ==> HasProjs(ps, e.rec, [])) ==>
      forall r :: r in Selected(ps, es) ==> |r| == TotalLength(ps)
  {
    hide HasProjs, Project;
    if es != [] {
      SelectedLength(ps, es[..|es| - 1]);
    }
  }

  lemma {:induction false} SelectedPrefix(ps: seq<Proj>, es: seq<Entry>, k: nat)
    requires k <= |es|
    ensures k <= |Selected(ps, es)| && Selected(ps, es)[..k] == Selected(ps, es[..k])
    decreases |es|
  {
    hide HasProjs, Project;
    SelectedLength(ps, es);
    SelectedLength(ps, es[..k]);
    if k < |es| {
      SelectedPrefix(ps, es[..|es| - 1], k);
      assert es[..|es| - 1][..k] == es[..k];
    } else {
      assert es[..k] == es;
    }
  }

  lemma SelectedLast(ps: seq<Proj>, out: seq<Entry>, e: Entry)
    requires HasProjs(ps, e.rec, [])
    ensures Selected(ps, out + [e]) == Selected(ps, out) + [Project(ps, e.rec, [])]
  {
    hide HasProjs, Project;
    assert (out + [e])[..|out|] == out;
  }

  /** A record that comes next in what fits has room. */
  lemma RoomForNext(s: Inserting, rs: seq<Rec>, pre: seq<Rec>, r: Rec)
    requires Fits(s, rs) && |pre| < |rs| && rs[..|pre|] == pre && rs[|pre|] == r
    ensures s.at <= |s.file| && InsertAll(s, pre + [r]) == InsertOne(InsertAll(s, pre), r)
    ensures |InsertAll(s, pre).file| < DIRCNT && InsertAll(s, pre).next < MAXPAGES
  {
    hide InsertAll, InsertOne;
    InsertedNext(s, rs, |pre|);
    assert rs[..|pre| + 1] == pre + [r];
  }

  /** One matching record more: its result record, and the room for it. */
  lemma SelectedNext(s: Inserting, ps: seq<Proj>, all: seq<Entry>, out: seq<Entry>, e: Entry, rest: seq<Entry>)
    requires Fits(s, Selected(ps, all)) && all == out + ([e] + rest) && HasProjs(ps, e.rec, [])
    ensures s.at <= |s.file| && out + [e] + rest == all && e in all
    ensures InsertAll(s, Selected(ps, out + [e])) == InsertOne(InsertAll(s, Selected(ps, out)), Project(ps, e.rec, []))
    ensures |InsertAll(s, Selected(ps, out)).file| < DIRCNT && InsertAll(s, Selected(ps, out)).next < MAXPAGES
  {
    hide HasProjs, Project, InsertAll, InsertOne, Fits, Selected;
    var k := |out|;
    assert all[..k] == out && all[..k + 1] == out + [e] && all[k] == e;
    SelectedPrefix(ps, all, k);
    SelectedPrefix(ps, all, k + 1);
    SelectedLast(ps, out, e);
    SelectedLength(ps, out);
    RoomForNext(s, Selected(ps, all), Selected(ps, out), Project(ps, e.rec, []));
  }

  /** Of the records `all` to be selected into s, those in `out` are there and the rest lie ahead. */
  ghost predicate Selecting(hfs: HeapFile, ifs: HeapFile, ps: seq<Proj>, s: Inserting, all: seq<Entry>, out: seq<Entry>)
    reads hfs, hfs.bm, hfs.bm.bufTable, hfs.bm.hashTable, hfs.bm.hashTable.ht, hfs.bm.hashTable.Repr, hfs.bm.disk
    reads hfs.bm.mems
    reads ifs, ifs.bm, ifs.bm.bufTable, ifs.bm.hashTable, ifs.bm.hashTable.ht, ifs.bm.hashTable.Repr, ifs.bm.disk
    reads ifs.bm.mems
  {
    && Side(hfs, ifs) && |hfs.Contents()| < DIRCNT && out + Matching(hfs.Ahead(), hfs.Wanted()) == all
    && s.at <= |s.file| && ifs.Insertion() == InsertAll(s, Selected(ps, out))
  }

  /** One round of the loop of ScanSelect. */
  method SelectNext(hfs: HeapFile, ifs: HeapFile, ps: seq<Proj>, data: array<byte>, ghost s: Inserting,
      ghost all: seq<Entry>,
      ghost out: seq<Entry>) returns (status: Status, ghost e: Entry)
    requires Selecting(hfs, ifs, ps, s, all, out) && Fits(s, Selected(ps, all)) && forall e :: e in all ==>
      HasProjs(ps, e.rec, [])
    requires data.Length == TotalLength(ps) && 1 <= TotalLength(ps) <= MAXREC && data !in hfs.bm.mems
    modifies hfs`curPage, hfs`curPageNo, hfs`touched, hfs`curIdx, hfs`curRec, data
    modifies ifs`curPage, ifs`curPageNo, ifs`curDirtyFlag, ifs`touched, ifs`curIdx, ifs`curRec, ifs`hdrDirtyFlag
    modifies hfs.bm, hfs.bm.bufTable, hfs.bm.hashTable, hfs.bm.hashTable.ht, hfs.bm.hashTable.Repr, hfs.bm.disk
    modifies hfs.bm.mems
    ensures fresh(hfs.bm.hashTable.Repr - old(hfs.bm.hashTable.Repr))
    ensures status in {OK, FILEEOF} && hfs.View() == old(hfs.View())
    ensures Selecting(hfs, ifs, ps, s, all, if status == OK then out + [e] else out)
    ensures if status == OK then |hfs.Ahead()| < |old(hfs.Ahead())| else hfs.Ahead() == [] && out == all
  {
    hide ChainedHash.HashTable.Valid, BufMgr.Valid, BufMgr.Wired, BufMgr.Abs, Inv, LeavesOthers, InsertOne, InsertAll;
    hide Fits, Sum, AllEntries;
    hide HeapFile.Valid, HeapFile.View, HeapFile.Sole, HeapFile.Ahead, HeapFile.Contents, HeapFile.Insertion;
    hide HeapFile.AtRecord;
    hide HeapFile.Open, HeapFile.CurrentEntry, HeapFile.FileSize, HeapFile.Wanted, DropTo, Matching, Selected, HasProjs;
    hide Project, TotalLength;
    ghost var ahead := hfs.Ahead();
    ghost var p := hfs.Wanted();
    var found;
    status, found := FetchBeside(hfs, ifs);
    e := found;
    MatchingNext(ahead, p);
    if status == FILEEOF {
      assert out + [] == out;
      NoneMatch(p);
    } else {
      SelectedNext(s, ps, all, out, e, Matching(hfs.Ahead(), p));
      FillData(ps, found.rec, [], data);
      InsertionRoom(ifs);
      status := InsertBeside(ifs, hfs, data[..]);
    }
  }

  lemma NoneMatch(p: Rec -> bool)
    ensures Matching([], p) == []
  {
  }

  lemma InsertionRoom(f: HeapFile)
    requires f.Valid()
    ensures f.Insertion() == Inserting(f.Contents(), f.curIdx, f.FileSize())
  {
    f.InsertionSound();
  }

  /** ScanSelect: every record ahead that matches has its projection inserted in the result, in
      scan order; the relation scanned does not change. */
  method SelectInto(hfs: HeapFile, ifs: HeapFile, ps: seq<Proj>) returns (status: Status)
    requires Side(hfs, ifs) && |hfs.Contents()| < DIRCNT && 1 <= TotalLength(ps) <= MAXREC
    requires forall e :: e in Matching(hfs.Ahead(), hfs.Wanted()) ==> HasProjs(ps, e.rec, [])
    requires Fits(ifs.Insertion(), Selected(ps, Matching(hfs.Ahead(), hfs.Wanted())))
    modifies hfs`curPage, hfs`curPageNo, hfs`touched, hfs`curIdx, hfs`curRec
    modifies ifs`curPage, ifs`curPageNo, ifs`curDirtyFlag, ifs`touched, ifs`curIdx, ifs`curRec, ifs`hdrDirtyFlag
    modifies hfs.bm, hfs.bm.bufTable, hfs.bm.hashTable, hfs.bm.hashTable.ht, hfs.bm.hashTable.Repr, hfs.bm.disk
    modifies hfs.bm.mems
    ensures fresh(hfs.bm.hashTable.Repr - old(hfs.bm.hashTable.Repr))
    ensures status == OK && Side(hfs, ifs) && hfs.View() == old(hfs.View()) && hfs.Ahead() == []
    ensures var rs := Selected(ps, Matching(old(hfs.Ahead()), old(hfs.Wanted()))); var s := old(ifs.Insertion());
      && s.at <= |s.file| && ifs.Insertion() == InsertAll(s, rs)
      && Sum(AllEntries(ifs.Contents())) == Sum(AllEntries(s.file)) + multiset(rs)
  {
    hide ChainedHash.HashTable.Valid, BufMgr.Valid, BufMgr.Wired, BufMgr.Abs, Inv, LeavesOthers, InsertOne, InsertAll;
    hide Fits, Sum, AllEntries;
    hide HeapFile.Valid, HeapFile.View, HeapFile.Sole, HeapFile.Ahead, HeapFile.Contents, HeapFile.Insertion;
    hide HeapFile.AtRecord;
    hide HeapFile.Open, HeapFile.CurrentEntry, HeapFile.FileSize, HeapFile.Wanted, DropTo, Matching, Selected, HasProjs;
    hide Project, TotalLength;
    ghost var all := Matching(hfs.Ahead(), hfs.Wanted());
    ifs.InsertionSound();
    ghost var s := ifs.Insertion();
    ghost var out := [];
    NoneSelected(s, ps);
    assert [] + all == all;
    var data := new byte[TotalLength(ps)];
    while true
      invariant fresh(hfs.bm.hashTable.Repr - old(hfs.bm.hashTable.Repr))
      invariant Selecting(hfs, ifs, ps, s, all, out) && hfs.View() == old(hfs.View())
      decreases |hfs.Ahead()|
    {
      ghost var e;
      status, e := SelectNext(hfs, ifs, ps, data, s, all, out);
      if status == FILEEOF {
        break;
      }
      out := out + [e];
    }
    InsertionRoom(ifs);
    SelectedLength(ps, all);
    InsertAllGains(s, Selected(ps, all));
    status := OK;
  }

  lemma NoneSelected(s: Inserting, ps: seq<Proj>)
    requires s.at <= |s.file|
    ensures Selected(ps, []) == [] && InsertAll(s, Selected(ps, [])) == s
  {
  }
}
