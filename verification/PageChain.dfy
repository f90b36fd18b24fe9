/** The page chain that the insertRecord of part4/heapfile.C maintains beside the directory. */
module PageChain {
  import opened PageSpec
  import opened HeapSpec

  /** Every page links to the one after it in the directory, the last to none. */
  ghost predicate Linked(h: Heap) { forall i :: 0 <= i < |h| ==> LinkAt(h, i) }

  ghost predicate LinkAt(h: Heap, i: nat)
    requires i < |h|
  {
    h[i].next == if i + 1 < |h| then h[i + 1].no else -1
  }

  function Numbers(h: Heap): (s: seq<int>)
    ensures |s| == |h|
  {
    seq(|h|, i requires 0 <= i < |h| => h[i].no)
  }

  /** Following nextPage from page `no` visits exactly `path`, in that order, and ends at -1. */
  ghost predicate Path(h: Heap, no: int, path: seq<int>)
    decreases |path|
  {
    if path == [] then no == -1
    else no == path[0] && PageIndex(h, no, 0) < |h| && Path(h, h[PageIndex(h, no, 0)].next, path[1..])
  }

  lemma {:induction false} PathFrom(h: Heap, i: nat)
    requires HeapInv(h) && Linked(h) && i <= |h|
    ensures Path(h, if i < |h| then h[i].no else -1, Numbers(h)[i..])
    decreases |h| - i
  {
    hide PageInv;
    if i < |h| {
      assert LinkAt(h, i);
      PathFrom(h, i + 1);
      var path := Numbers(h)[i..];
      assert path[1..] == Numbers(h)[i + 1..];
      assert PageIndex(h, h[i].no, 0) == i;
    }
  }

  /** The chain agrees with the directory exactly when following it from the first page visits
      the pages of the directory in order and ends there. */
  lemma LinkedIffPath(h: Heap)
    requires HeapInv(h)
    ensures Linked(h) <==> Path(h, h[0].no, Numbers(h))
  {
    hide PageInv, Path;
    if Linked(h) {
      PathFrom(h, 0);
      assert Numbers(h)[0..] == Numbers(h);
    }
    if Path(h, h[0].no, Numbers(h)) {
      assert Numbers(h)[0..] == Numbers(h);
      PathLinks(h, 0);
    }
  }

  lemma {:induction false} PathLinks(h: Heap, i: nat)
    requires HeapInv(h) && i < |h| && Path(h, h[i].no, Numbers(h)[i..])
    ensures forall j :: i <= j < |h| ==> LinkAt(h, j)
    decreases |h| - i
  {
    hide PageInv;
    var path := Numbers(h)[i..];
    assert PageIndex(h, h[i].no, 0) == i;
    assert path[1..] == Numbers(h)[i + 1..];
    if i + 1 < |h| {
      assert path[1..][0] == h[i + 1].no;
      PathLinks(h, i + 1);
    } else {
      assert path[1..] == [];
    }
  }

  // ----- The insertion of part4 -----

  /** insertRecord of part4: a page added to the file is linked from the page before it. */
  function InsertedLinked(h: Heap, i: nat, r: Rec, no: int): Heap
    requires i <= |h| && h != []
  {
    var j := Target(h, i, |r|);
    if j < |h| then h[j := PutOn(h[j], r)]
    else h[|h| - 1 := h[|h| - 1].(next := no)] + [PutOn(NewPage(no), r)]
  }

  lemma InsertKeepsLinks(h: Heap, i: nat, r: Rec, no: int)
    requires Linked(h) && i <= |h| && h != []
    ensures Linked(InsertedLinked(h, i, r, no))
  {
    hide Inserted, Room;
    var g := InsertedLinked(h, i, r, no);
    forall k | 0 <= k < |g|
      ensures LinkAt(g, k)
    {
      assert k < |h| ==> LinkAt(h, k);
    }
  }

  /** The same pages in the same order, but for the links. */
  ghost predicate SamePages(h: Heap, g: Heap) {
    |h| == |g| && forall k :: 0 <= k < |h| ==> g[k].(next := 0) == h[k].(next := 0)
  }

  /** Apart from the links it does what the insertion of part5 does. */
  lemma SameButLinks(h: Heap, i: nat, r: Rec, no: int)
    requires i <= |h| && h != []
    ensures SamePages(InsertedFrom(h, i, r, no), InsertedLinked(h, i, r, no))
  {
    hide Inserted, Room;
  }

  /** The insertion of part5 keeps the chain exactly when it adds no page. */
  lemma Part5KeepsLinksIff(h: Heap, i: nat, r: Rec, no: int)
    requires Linked(h) && i <= |h| && h != [] && no != -1
    ensures Linked(InsertedFrom(h, i, r, no)) <==> Target(h, i, |r|) < |h|
  {
    hide Inserted, Room;
    var g := InsertedFrom(h, i, r, no);
    if Target(h, i, |r|) == |h| {
      assert LinkAt(h, |h| - 1) && !LinkAt(g, |h| - 1);
    } else {
      forall k | 0 <= k < |g|
        ensures LinkAt(g, k)
      {
        assert LinkAt(h, k);
      }
    }
  }

  // ----- Runs of insertion scans -----

  datatype ScanOp = OpenScan | Insert(r: Rec)

  /** A file and the page that the current insertion scan stands on. */
  function StepScan(s: Inserting, op: ScanOp): Inserting
    requires s.file != [] && s.at <= |s.file|
  {
    match op
    case OpenScan => s.(at := 0)
    case Insert(r) =>
      var g := InsertedLinked(s.file, s.at, r, s.next);
      Inserting(g, Target(s.file, s.at, |r|), s.next + |g| - |s.file|)
  }

  ghost predicate ScanOK(s: Inserting) { InsertingOK(s) && Linked(s.file) && 0 <= s.next }

  lemma StepKeepsLinks(s: Inserting, op: ScanOp)
    requires ScanOK(s) && (op.Insert? ==> |op.r| <= MAXREC)
    ensures s.file != [] && s.at <= |s.file| && ScanOK(StepScan(s, op))
  {
    hide Inserted, Room, Target, PageInv;
    InvSize(s.file);
    match op
    case OpenScan =>
    case Insert(r) =>
      InsertKeepsLinks(s.file, s.at, r, s.next);
      SameButLinks(s.file, s.at, r, s.next);
      InsertFits(s.file, s.at, r, s.next);
      InsertBelow(s, r);
      SameInv(InsertedFrom(s.file, s.at, r, s.next), InsertedLinked(s.file, s.at, r, s.next));
  }

  lemma SameInv(h: Heap, g: Heap)
    requires HeapInv(h) && SamePages(h, g)
    ensures HeapInv(g)
    ensures forall n :: Below(h, n) ==> Below(g, n)
  {
    hide Room, Trimmed;
    forall k | 0 <= k < |g|
      ensures PageInv(g[k]) && g[k].no == h[k].no
    {
      assert PageInv(h[k]) && g[k].(next := 0) == h[k].(next := 0);
      assert g[k].slots == g[k].(next := 0).slots && h[k].slots == h[k].(next := 0).slots;
      assert g[k].no == g[k].(next := 0).no && h[k].no == h[k].(next := 0).no;
      assert g[k].space == g[k].(next := 0).space && h[k].space == h[k].(next := 0).space;
    }
  }

  ghost function RunScans(s: Inserting, ops: seq<ScanOp>): Inserting
  {
    if ops == [] then s else
      var t := RunScans(s, ops[..|ops| - 1]);
      if t.file != [] && t.at <= |t.file| then StepScan(t, ops[|ops| - 1]) else t
  }

  /** After any number of successive insertion scans on a file created empty, following nextPage
      from the first page visits exactly the pages of the directory, in order, and ends at -1. */
  lemma {:induction false} ChainAgreesWithDirectory(no: int, next: int, ops: seq<ScanOp>)
    requires 0 <= no < next && forall i :: 0 <= i < |ops| && ops[i].Insert? ==> |ops[i].r| <= MAXREC
    ensures var h := RunScans(Inserting(FreshHeap(no), 0, next), ops).file;
      HeapInv(h) && Path(h, h[0].no, Numbers(h))
  {
    hide Path, InsertedLinked, HeapInv;
    var s := Inserting(FreshHeap(no), 0, next);
    RunKeepsLinks(no, next, ops);
    LinkedIffPath(RunScans(s, ops).file);
  }

  lemma {:induction false} RunKeepsLinks(no: int, next: int, ops: seq<ScanOp>)
    requires 0 <= no < next && forall i :: 0 <= i < |ops| && ops[i].Insert? ==> |ops[i].r| <= MAXREC
    ensures ScanOK(RunScans(Inserting(FreshHeap(no), 0, next), ops))
    decreases |ops|
  {
    hide StepScan, LiveBytes;
    if ops == [] {
      assert PageInv(NewPage(no)) by { FreshIsPacked(no, 1); }
    } else {
      hide ScanOK;
      RunKeepsLinks(no, next, ops[..|ops| - 1]);
      StepKeepsLinks(RunScans(Inserting(FreshHeap(no), 0, next), ops[..|ops| - 1]), ops[|ops| - 1]);
    }
  }

  // ----- A load -----

  ghost function Inserts(s: Inserting, rs: seq<Rec>): Inserting
  {
    if rs == [] then s else
      var t := Inserts(s, rs[..|rs| - 1]);
      if t.file != [] && t.at <= |t.file| then StepScan(t, Insert(rs[|rs| - 1])) else t
  }

  /** The same scan over the same file, but for the links. */
  ghost predicate SameScan(s: Inserting, t: Inserting) { SamePages(s.file, t.file) && t.at == s.at && t.next == s.next }

  lemma {:induction false} SameTarget(h: Heap, g: Heap, i: nat, len: nat)
    requires SamePages(h, g) && i <= |h|
    ensures Target(g, i, len) == Target(h, i, len)
    decreases |h| - i
  {
    if i < |h| {
      assert g[i].(next := 0).space == h[i].(next := 0).space;
      SameTarget(h, g, i + 1, len);
    }
  }

  lemma SamePageAt(h: Heap, g: Heap, k: nat)
    requires SamePages(h, g) && k < |h|
    ensures g[k].no == h[k].no && g[k].slots == h[k].slots && g[k].space == h[k].space
  {
    assert g[k].(next := 0) == h[k].(next := 0);
    assert g[k].(next := 0).slots == g[k].slots && h[k].(next := 0).slots == h[k].slots;
    assert g[k].(next := 0).no == g[k].no && h[k].(next := 0).no == h[k].no;
    assert g[k].(next := 0).space == g[k].space && h[k].(next := 0).space == h[k].space;
  }

  lemma SamePagesInsert(h: Heap, g: Heap, i: nat, r: Rec, no: int)
    requires SamePages(h, g) && i <= |h|
    ensures SamePages(InsertedFrom(h, i, r, no), InsertedFrom(g, i, r, no))
  {
    hide Inserted, Room;
    SameTarget(h, g, i, |r|);
    var j := Target(h, i, |r|);
    if j < |h| {
      SamePageAt(h, g, j);
    }
  }

  lemma SamePagesTrans(h: Heap, g: Heap, f: Heap)
    requires SamePages(h, g) && SamePages(g, f)
    ensures SamePages(h, f)
  {
    forall k | 0 <= k < |h|
      ensures f[k].(next := 0) == h[k].(next := 0)
    {
      assert g[k].(next := 0) == h[k].(next := 0);
    }
  }

  lemma SameScanStep(s: Inserting, t: Inserting, r: Rec)
    requires SameScan(s, t) && s.at <= |s.file| && s.file != []
    ensures SameScan(InsertOne(s, r), StepScan(t, Insert(r)))
  {
    hide InsertedLinked, InsertedFrom, Target;
    SameTarget(s.file, t.file, s.at, |r|);
    SamePagesInsert(s.file, t.file, s.at, r, s.next);
    SameButLinks(t.file, t.at, r, t.next);
    SamePagesTrans(InsertedFrom(s.file, s.at, r, s.next), InsertedFrom(t.file, t.at, r, t.next),
      InsertedLinked(t.file, t.at, r, t.next));
  }

  /** A load through the insertion of part4 does what one through that of part5 does, but for the
      links. */
  lemma {:induction false} LoadSame(s: Inserting, rs: seq<Rec>)
    requires s.file != [] && s.at <= |s.file|
    ensures var t := Inserts(s, rs); SameScan(InsertAll(s, rs), t) && t.file != [] && t.at <= |t.file|
    decreases |rs|
  {
    hide InsertOne, StepScan;
    if rs == [] {
      assert SamePages(s.file, s.file);
    } else {
      var qs := rs[..|rs| - 1];
      LoadSame(s, qs);
      SameScanStep(InsertAll(s, qs), Inserts(s, qs), rs[|rs| - 1]);
      InsertAllSizes(s, rs);
    }
  }

  /** And the links agree with the directory after it if they did so before. */
  lemma {:induction false} LoadLinks(s: Inserting, rs: seq<Rec>)
    requires ScanOK(s) && forall i :: 0 <= i < |rs| ==> |rs[i]| <= MAXREC
    ensures ScanOK(Inserts(s, rs))
    decreases |rs|
  {
    hide InsertOne, StepScan, ScanOK;
    if rs != [] {
      var qs := rs[..|rs| - 1];
      LoadLinks(s, qs);
      StepKeepsLinks(Inserts(s, qs), Insert(rs[|rs| - 1]));
    }
  }

  /** The records are the same, in the same order. */
  lemma SameRecords(h: Heap, g: Heap)
    requires SamePages(h, g)
    ensures AllEntries(g) == AllEntries(h)
  {
    forall j | 0 <= j < |h|
      ensures h[j].no == g[j].no && h[j].slots == g[j].slots
    {
      SamePageAt(h, g, j);
    }
    EntriesFromSame(h, g, 0);
  }
}
