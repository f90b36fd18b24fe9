/** A heap file as a value: its page directory, and per page the slot directory. */
module HeapSpec {
  import opened StatusCodes
  import opened PageSpec

  /** One directory entry with the page it names: page number, free space according to the
      directory, forward link and slots of the page. */
  datatype DirPage = DirPage(no: int, space: int, next: int, slots: seq<Slot>)

  type Heap = seq<DirPage>

  datatype Entry = Entry(rid: RID, rec: Rec)

  /** The directory never promises more space than a page has. */
  ghost predicate PageInv(d: DirPage) {
    Trimmed(d.slots) && 0 <= d.space <= Room(d.slots)
  }

  ghost predicate HeapInv(h: Heap) {
    && 1 <= |h|
    && (forall i :: 0 <= i < |h| ==> PageInv(h[i]))
    && (forall i, j :: 0 <= i < j < |h| ==> h[i].no != h[j].no)
  }

  lemma InvSize(h: Heap)
    requires HeapInv(h)
    ensures 1 <= |h|
  {
  }

  // ----- The records in scan order -----

  function SlotEntries(no: int, s: seq<Slot>, k: nat): seq<Entry>
    requires k < |s|
  {
    if s[k].Live? then [Entry(RID(no, k), s[k].rec)] else []
  }

  function PageEntries(no: int, s: seq<Slot>, k: nat): seq<Entry>
    decreases |s| - k
  {
    if k >= |s| then [] else SlotEntries(no, s, k) + PageEntries(no, s, k + 1)
  }

  /** The records at slot k of page i and after, in (directory index, slot number) order. */
  function EntriesFrom(h: Heap, i: nat, k: nat): seq<Entry>
    decreases |h| - i
  {
    if i >= |h| then [] else PageEntries(h[i].no, h[i].slots, k) + EntriesFrom(h, i + 1, 0)
  }

  function AllEntries(h: Heap): seq<Entry> { EntriesFrom(h, 0, 0) }

  /** What remains of a scan that stopped at the first entry that matches. */
  ghost function DropTo(es: seq<Entry>, p: Rec -> bool): seq<Entry> {
    if es == [] || p(es[0].rec) then es else DropTo(es[1..], p)
  }

  ghost function Matching(es: seq<Entry>, p: Rec -> bool): seq<Entry> {
    if es == [] then [] else (if p(es[0].rec) then [es[0]] else []) + Matching(es[1..], p)
  }

  lemma {:induction false} DropToShrinks(es: seq<Entry>, p: Rec -> bool)
    ensures |DropTo(es, p)| <= |es|
    ensures DropTo(es, p) != [] ==> p(DropTo(es, p)[0].rec)
  {
    if es != [] && !p(es[0].rec) {
      DropToShrinks(es[1..], p);
    }
  }

  lemma DropToStep(e: Entry, es: seq<Entry>, p: Rec -> bool)
    ensures DropTo([e] + es, p) == if p(e.rec) then [e] + es else DropTo(es, p)
  {
    assert ([e] + es)[1..] == es;
  }

  lemma {:induction false} MatchingDropTo(es: seq<Entry>, p: Rec -> bool)
    ensures Matching(es, p) ==
      (if DropTo(es, p) == [] then [] else [DropTo(es, p)[0]] + Matching(DropTo(es, p)[1..], p))
  {
    DropToShrinks(es, p);
    if es != [] && !p(es[0].rec) {
      MatchingDropTo(es[1..], p);
    }
  }

  /** The entries a deletion of everything that matches leaves. */
  ghost function Others(es: seq<Entry>, p: Rec -> bool): seq<Entry> {
    if es == [] then [] else (if p(es[0].rec) then [] else [es[0]]) + Others(es[1..], p)
  }

  /** What a scan skips does not match. */
  lemma {:induction false} SkipOthers(es: seq<Entry>, p: Rec -> bool) returns (skipped: seq<Entry>)
    ensures es == skipped + DropTo(es, p)
    ensures Others(es, p) == skipped + Others(DropTo(es, p), p)
    ensures Matching(es, p) == Matching(DropTo(es, p), p)
    ensures DropTo(es, p) == [] ==> Matching(es, p) == [] && Others(es, p) == es
  {
    if es == [] || p(es[0].rec) {
      skipped := [];
    } else {
      var rest := SkipOthers(es[1..], p);
      skipped := [es[0]] + rest;
      Regroup([es[0]], rest, [], DropTo(es, p));
      Regroup([es[0]], rest, [], Others(DropTo(es, p), p));
      assert es == [es[0]] + es[1..];
    }
  }

  lemma HeadMatches(e: Entry, es: seq<Entry>, p: Rec -> bool)
    requires p(e.rec)
    ensures Matching([e] + es, p) == [e] + Matching(es, p) && Others([e] + es, p) == Others(es, p)
  {
    assert ([e] + es)[1..] == es;
  }

  lemma OnePageEntry(no: int, s: seq<Slot>, j: nat)
    ensures PageEntries(no, s, j) ==
      if j >= |s| then [] else if s[j].Live? then [Entry(RID(no, j), s[j].rec)] + PageEntries(no, s, j + 1)
        else PageEntries(no, s, j + 1)
  {
  }

  /** Where the next record of page i is, if it has one from slot k on. */
  lemma {:induction false} PageEntriesNext(no: int, s: seq<Slot>, k: nat)
    ensures k <= |s| && NextLive(s, k) < |s| ==> var j := NextLive(s, k);
      PageEntries(no, s, k) == [Entry(RID(no, j), s[j].rec)] + PageEntries(no, s, j + 1)
    ensures k > |s| || NextLive(s, k) == |s| ==> PageEntries(no, s, k) == []
    decreases |s| - k
  {
    hide LiveAt, PageEntries;
    OnePageEntry(no, s, k);
    if k < |s| && s[k].Free? {
      PageEntriesNext(no, s, k + 1);
    }
  }

  /** One step of a scan: either the page has another record, or the scan moves on. */
  lemma ScanStep(h: Heap, i: nat, k: nat)
    requires i < |h|
    ensures var s := h[i].slots;
      if k <= |s| && NextLive(s, k) < |s|
      then EntriesFrom(h, i, k) ==
        [Entry(RID(h[i].no, NextLive(s, k)), s[NextLive(s, k)].rec)] + EntriesFrom(h, i, NextLive(s, k) + 1)
      else EntriesFrom(h, i, k) == EntriesFrom(h, i + 1, 0)
  {
    hide PageEntries, NextLive;
    PageEntriesNext(h[i].no, h[i].slots, k);
  }

  /** Concatenation regrouped, in the two forms that the proofs below need. */
  lemma Regroup(a: seq<Entry>, b: seq<Entry>, c: seq<Entry>, d: seq<Entry>)
    ensures a + (b + c + d) == (a + b) + c + d
    ensures a + (b + d) == (a + b) + d
  {
  }

  // ----- Fetching by RID -----

  function PageIndex(h: Heap, no: int, i: nat): (j: nat)
    requires i <= |h|
    ensures i <= j <= |h| && (j < |h| ==> h[j].no == no)
    ensures forall a :: i <= a < j ==> h[a].no != no
    decreases |h| - i
  {
    if i == |h| || h[i].no == no then i else PageIndex(h, no, i + 1)
  }

  /** What HeapFile::getRecord returns for the RID of a record of the file. */
  function RecordAt(h: Heap, rid: RID): Rec {
    var i := PageIndex(h, rid.pageNo, 0);
    if i < |h| && LiveAt(h[i].slots, rid.slotNo) then h[i].slots[rid.slotNo].rec else []
  }

  /** The RID names a slot of a page of the file; the slot is live. */
  predicate SlotThere(h: Heap, rid: RID) {
    var i := PageIndex(h, rid.pageNo, 0); i < |h| && 0 <= rid.slotNo < |h[i].slots|
  }

  predicate LiveThere(h: Heap, rid: RID) {
    var i := PageIndex(h, rid.pageNo, 0); i < |h| && LiveAt(h[i].slots, rid.slotNo)
  }

  ghost predicate At(h: Heap, i: nat, e: Entry) {
    i < |h| && h[i].no == e.rid.pageNo && LiveAt(h[i].slots, e.rid.slotNo) && h[i].slots[e.rid.slotNo].rec == e.rec
  }

  lemma {:induction false} PageEntryAt(no: int, s: seq<Slot>, k: nat, e: Entry)
    requires e in PageEntries(no, s, k)
    ensures e.rid.pageNo == no && LiveAt(s, e.rid.slotNo) && s[e.rid.slotNo].rec == e.rec
    decreases |s| - k
  {
    if e !in SlotEntries(no, s, k) {
      PageEntryAt(no, s, k + 1, e);
    }
  }

  lemma {:induction false} EntryAt(h: Heap, a: nat, e: Entry) returns (i: nat)
    requires e in EntriesFrom(h, a, 0)
    ensures At(h, i, e)
    decreases |h| - a
  {
    if e in PageEntries(h[a].no, h[a].slots, 0) {
      PageEntryAt(h[a].no, h[a].slots, 0, e);
      i := a;
    } else {
      i := EntryAt(h, a + 1, e);
    }
  }

  /** Fetching an entry of a scan by its RID gives the record the scan saw. */
  lemma EntryRecord(h: Heap, e: Entry)
    requires HeapInv(h) && e in AllEntries(h)
    ensures RecordAt(h, e.rid) == e.rec && exists i :: 0 <= i < |h| && h[i].no == e.rid.pageNo
    ensures SlotThere(h, e.rid) && LiveThere(h, e.rid)
  {
    hide PageInv, EntriesFrom;
    var i := EntryAt(h, 0, e);
    var j := PageIndex(h, e.rid.pageNo, 0);
    assert j <= i;
  }

  // ----- Where a scan starts -----

  lemma {:induction false} PageBehind(no: int, s: seq<Slot>, j: nat, k: nat) returns (pre: seq<Entry>)
    requires j <= k
    ensures PageEntries(no, s, j) == pre + PageEntries(no, s, k)
    decreases k - j
  {
    if j == k || j >= |s| {
      pre := [];
    } else {
      var rest := PageBehind(no, s, j + 1, k);
      pre := SlotEntries(no, s, j) + rest;
      Regroup(SlotEntries(no, s, j), rest, [], PageEntries(no, s, k));
    }
  }

  lemma {:induction false} NothingBehind(no: int, s: seq<Slot>, j: nat, k: nat)
    requires j <= k && forall i :: j <= i < k ==> !LiveAt(s, i)
    ensures PageEntries(no, s, j) == PageEntries(no, s, k)
    decreases k - j
  {
    if j < k {
      assert !LiveAt(s, j);
      NothingBehind(no, s, j + 1, k);
    }
  }

  lemma {:induction false} SomethingBehind(no: int, s: seq<Slot>, j: nat, i: nat, k: nat)
    requires j <= i < k && LiveAt(s, i)
    ensures |PageEntries(no, s, j)| > |PageEntries(no, s, k)|
    decreases i - j
  {
    if j < i {
      SomethingBehind(no, s, j + 1, i, k);
    } else {
      var pre := PageBehind(no, s, j + 1, k);
    }
  }

  lemma {:induction false} Behind(h: Heap, a: nat, i: nat, k: nat) returns (pre: seq<Entry>)
    requires a <= i < |h|
    ensures EntriesFrom(h, a, 0) == pre + EntriesFrom(h, i, k)
    decreases i - a
  {
    hide PageEntries;
    if a == i {
      pre := PageBehind(h[i].no, h[i].slots, 0, k);
      Regroup(pre, PageEntries(h[i].no, h[i].slots, k), [], EntriesFrom(h, i + 1, 0));
    } else {
      var rest := Behind(h, a + 1, i, k);
      pre := PageEntries(h[a].no, h[a].slots, 0) + rest;
      Regroup(PageEntries(h[a].no, h[a].slots, 0), rest, [], EntriesFrom(h, i, k));
    }
  }

  /** startScan called on the first page does not go back to its beginning: a scan from slot k
      of the first page sees the whole file exactly when no record lies before slot k. */
  lemma RewoundIff(h: Heap, k: nat)
    requires h != []
    ensures EntriesFrom(h, 0, k) == AllEntries(h) <==> forall i :: 0 <= i < k ==> !LiveAt(h[0].slots, i)
  {
    hide PageEntries, LiveAt;
    var no, slots := h[0].no, h[0].slots;
    if forall i :: 0 <= i < k ==> !LiveAt(slots, i) {
      NothingBehind(no, slots, 0, k);
    } else {
      var i :| 0 <= i < k && LiveAt(slots, i);
      SomethingBehind(no, slots, 0, i, k);
      assert |AllEntries(h)| > |EntriesFrom(h, 0, k)|;
    }
  }

  // ----- Deleting during a scan -----

  function DeletedAt(h: Heap, i: nat, k: nat): Heap
    requires i < |h| && k < |h[i].slots|
  {
    h[i := h[i].(slots := Deleted(h[i].slots, k))]
  }

  /** The directory goes on promising what it promised: space regained on a page is not entered. */
  lemma DeleteKeepsInv(h: Heap, i: nat, k: nat)
    requires HeapInv(h) && i < |h| && LiveAt(h[i].slots, k)
    ensures var g := DeletedAt(h, i, k);
      && HeapInv(g) && |g| == |h|
      && (forall j :: 0 <= j < |h| ==> g[j].no == h[j].no && g[j].space == h[j].space && g[j].next == h[j].next)
      && (forall j :: 0 <= j < |h| && j != i ==> g[j].slots == h[j].slots)
  {
    DeleteRemovesOne(h[i].slots, k);
    assert PageInv(h[i]);
  }

  /** Entries at or after slot j see only the live slots from there on. */
  lemma {:induction false} PageEntriesSame(no: int, s: seq<Slot>, t: seq<Slot>, j: nat)
    requires forall i :: i >= j ==> LiveAt(s, i) == LiveAt(t, i)
    requires forall i :: i >= j && LiveAt(s, i) ==> LiveAt(t, i) && s[i] == t[i]
    ensures PageEntries(no, s, j) == PageEntries(no, t, j)
    decreases |s| + |t| - j
  {
    if j < |s| || j < |t| {
      PageEntriesSame(no, s, t, j + 1);
      assert LiveAt(s, j) == LiveAt(t, j);
    }
  }

  /** Losing slot k takes its entry out of the page, between what precedes and what follows. */
  lemma {:induction false} PageEntriesWithout(no: int, s: seq<Slot>, t: seq<Slot>, j: nat,
      k: nat) returns (pre: seq<Entry>)
    requires j <= k && LiveAt(s, k) && !LiveAt(t, k)
    requires forall i :: i != k ==> LiveAt(s, i) == LiveAt(t, i)
    requires forall i :: i != k && LiveAt(s, i) ==> LiveAt(t, i) && s[i] == t[i]
    ensures PageEntries(no, s, j) == pre + [Entry(RID(no, k), s[k].rec)] + PageEntries(no, s, k + 1)
    ensures PageEntries(no, t, j) == pre + PageEntries(no, s, k + 1)
    decreases k - j
  {
    hide PageEntries, SlotEntries;
    if j == k {
      OnePageEntry(no, s, k);
      OnePageEntry(no, t, k);
      OnePageEntry(no, t, k + 1);
      PageEntriesSame(no, s, t, k + 1);
      pre := [];
    } else {
      var rest := PageEntriesWithout(no, s, t, j + 1, k);
      pre := SlotEntries(no, s, j) + rest;
      FrontSlot(no, s, t, j);
      Regroup(SlotEntries(no, s, j), rest, [Entry(RID(no, k), s[k].rec)], PageEntries(no, s, k + 1));
    }
  }

  /** A slot that is the same in both pages, with what follows it. */
  lemma FrontSlot(no: int, s: seq<Slot>, t: seq<Slot>, j: nat)
    requires j < |s| && LiveAt(s, j) == LiveAt(t, j) && (LiveAt(s, j) ==> s[j] == t[j])
    ensures PageEntries(no, s, j) == SlotEntries(no, s, j) + PageEntries(no, s, j + 1)
    ensures PageEntries(no, t, j) == SlotEntries(no, s, j) + PageEntries(no, t, j + 1)
  {
    hide PageEntries;
    OnePageEntry(no, s, j);
    OnePageEntry(no, t, j);
    OnePageEntry(no, t, j + 1);
  }

  lemma {:induction false} EntriesFromSame(h: Heap, g: Heap, i: nat)
    requires |h| == |g| && forall j :: i <= j < |h| ==> h[j].no == g[j].no && h[j].slots == g[j].slots
    ensures EntriesFrom(h, i, 0) == EntriesFrom(g, i, 0)
    decreases |h| - i
  {
    if i < |h| {
      EntriesFromSame(h, g, i + 1);
    }
  }

  /** Deleting the record a scan is on takes that record out of the file and leaves what the
      scan has still to see as it was, even when slots were trimmed or the page emptied. */
  lemma DeleteAtCursor(h: Heap, i: nat, k: nat)
    requires i < |h| && LiveAt(h[i].slots, k)
    ensures var g := DeletedAt(h, i, k);
      && EntriesFrom(g, i, k + 1) == EntriesFrom(h, i, k + 1)
      && exists pre :: AllEntries(h) == pre + [Entry(RID(h[i].no, k), h[i].slots[k].rec)] + EntriesFrom(h, i, k + 1)
           && AllEntries(g) == pre + EntriesFrom(h, i, k + 1)
  {
    var g := DeletedAt(h, i, k);
    var s, t := h[i].slots, g[i].slots;
    DeleteRemovesOne(s, k);
    PageEntriesSame(h[i].no, s, t, k + 1);
    EntriesFromSame(h, g, i + 1);
    var pre := DeleteBefore(h, i, k, 0);
  }

  lemma {:induction false} DeleteBefore(h: Heap, i: nat, k: nat, a: nat) returns (pre: seq<Entry>)
    requires a <= i < |h| && LiveAt(h[i].slots, k)
    ensures EntriesFrom(h, a, 0) == pre + [Entry(RID(h[i].no, k), h[i].slots[k].rec)] + EntriesFrom(h, i, k + 1)
    ensures EntriesFrom(DeletedAt(h, i, k), a, 0) == pre + EntriesFrom(h, i, k + 1)
    decreases i - a
  {
    hide Deleted, PageEntries;
    var g := DeletedAt(h, i, k);
    var x := [Entry(RID(h[i].no, k), h[i].slots[k].rec)];
    var rest := EntriesFrom(h, i, k + 1);
    if a == i {
      DeleteRemovesOne(h[i].slots, k);
      pre := PageEntriesWithout(h[i].no, h[i].slots, g[i].slots, 0, k);
      EntriesFromSame(h, g, i + 1);
      Regroup(pre, x, PageEntries(h[i].no, h[i].slots, k + 1), EntriesFrom(h, i + 1, 0));
      Regroup(pre + x, PageEntries(h[i].no, h[i].slots, k + 1), [], EntriesFrom(h, i + 1, 0));
    } else {
      var tail := DeleteBefore(h, i, k, a + 1);
      var page := PageEntries(h[a].no, h[a].slots, 0);
      Regroup(page, tail, x, rest);
      pre := page + tail;
    }
  }

  // ----- Inserting -----

  /** The page an insertion scan standing at page i puts a record of `len` bytes on: the first
      one from there on whose entry promises the record and a slot; |h| for a new page. */
  function Target(h: Heap, i: nat, len: nat): (j: nat)
    requires i <= |h|
    ensures i <= j <= |h|
    ensures j < |h| ==> h[j].space >= len + SLOTSIZE
    decreases |h| - i
  {
    if i == |h| || h[i].space >= len + SLOTSIZE then i else Target(h, i + 1, len)
  }

  /** No page before the target, from page i on, promises the room. */
  lemma {:induction false} TargetIsFirst(h: Heap, i: nat, len: nat, a: nat)
    requires i <= |h| && i <= a < Target(h, i, len)
    ensures h[a].space < len + SLOTSIZE
    decreases |h| - i
  {
    if i < a {
      TargetIsFirst(h, i + 1, len, a);
    }
  }

  lemma TargetStep(h: Heap, i: nat, len: nat)
    requires i < |h|
    ensures Target(h, i, len) == if h[i].space >= len + SLOTSIZE then i else Target(h, i + 1, len)
    ensures Target(h, |h|, len) == |h|
  {
  }

  function NewPage(no: int): DirPage { DirPage(no, REGION, -1, []) }

  /** Record r put on page d, its directory entry brought up to date. */
  function PutOn(d: DirPage, r: Rec): DirPage {
    var s := Inserted(d.slots, r);
    DirPage(d.no, Room(s), d.next, s)
  }

  /** insertRecord from page i; `no` is the number of the page allocated if one is needed. */
  function InsertedFrom(h: Heap, i: nat, r: Rec, no: int): Heap
    requires i <= |h|
  {
    var j := Target(h, i, |r|);
    if j < |h| then h[j := PutOn(h[j], r)] else h + [PutOn(NewPage(no), r)]
  }

  const MAXREC := REGION - SLOTSIZE

  /** The record always fits where the directory says: an insertion of 1 to 4076 bytes never
      meets a full page, and the directory goes on promising no more than the pages have. */
  lemma InsertFits(h: Heap, i: nat, r: Rec, no: int)
    requires HeapInv(h) && i <= |h| && |r| <= MAXREC
    requires forall j :: 0 <= j < |h| ==> h[j].no != no
    ensures var j := Target(h, i, |r|);
      InsertCost(if j < |h| then h[j].slots else [], r) <= Room(if j < |h| then h[j].slots else [])
    ensures HeapInv(InsertedFrom(h, i, r, no))
  {
    var j := Target(h, i, |r|);
    assert j < |h| ==> PageInv(h[j]);
    InsertAddsOne(if j < |h| then h[j].slots else [], r);
  }

  /** An insertion puts exactly one entry into the file and leaves all others in their places,
      in the same order. */
  lemma InsertGains(h: Heap, i: nat, r: Rec, no: int) returns (pre: seq<Entry>, rest: seq<Entry>)
    requires HeapInv(h) && i <= |h|
    ensures var g := InsertedFrom(h, i, r, no); var j := Target(h, i, |r|);
      && AllEntries(h) == pre + rest
      && AllEntries(g) == pre + [Entry(RID(g[j].no, LeastFree(if j < |h| then h[j].slots else [])), r)] + rest
  {
    hide PageEntries, EntriesFrom, LiveBytes, Room, Target, PageInv, HeapInv;
    var g := InsertedFrom(h, i, r, no);
    var j := Target(h, i, |r|);
    if j < |h| {
      SlotsTrimmed(h, j);
      var k := LeastFree(h[j].slots);
      InsertThenDelete(h[j].slots, r);
      InsertAddsOne(h[j].slots, r);
      DeleteAtCursor(g, j, k);
      var back := DeletedAt(g, j, k);
      EntriesFromSame(h, back, 0);
      rest := EntriesFrom(g, j, k + 1);
      pre :| AllEntries(g) == pre + [Entry(RID(g[j].no, k), g[j].slots[k].rec)] + rest
        && AllEntries(back) == pre + rest;
    } else {
      var s := Inserted([], r);
      assert g[..|g| - 1] == h && s == [] + [Live(r)];
      EntriesSplit(g, 0);
      PageEntriesAppend(no, [], r, 0);
      PageEntriesNext(no, [], 0);
      pre, rest := AllEntries(h), [];
    }
  }

  lemma SlotsTrimmed(h: Heap, j: nat)
    requires HeapInv(h) && j < |h|
    ensures Trimmed(h[j].slots)
  {
    assert PageInv(h[j]);
  }

  /** An insertion scan over a file: the page it stands on and the number the next page will get. */
  datatype Inserting = Inserting(file: Heap, at: nat, next: int)

  function InsertOne(s: Inserting, r: Rec): Inserting
    requires s.at <= |s.file|
  {
    var g := InsertedFrom(s.file, s.at, r, s.next);
    Inserting(g, Target(s.file, s.at, |r|), s.next + |g| - |s.file|)
  }

  /** The record put on the page found, or on the page added, completes the insertion. */
  lemma InsertedOn(s: Inserting, r: Rec)
    requires s.at < |s.file|
    ensures var j := Target(s.file, s.at, |r|); var g := if j < |s.file| then s.file else s.file + [NewPage(s.next)];
      && j < |g| && g[j].slots == (if j < |s.file| then s.file[j].slots else [])
      && Inserting(g[j := PutOn(g[j], r)], j, s.next + if j < |s.file| then 0 else 1) == InsertOne(s, r)
  {
    hide Inserted, Room, Target;
  }

  ghost predicate InsertingOK(s: Inserting) { HeapInv(s.file) && s.at <= |s.file| && Below(s.file, s.next) }

  function Sum(es: seq<Entry>): multiset<Rec> { multiset(Records(es)) }

  lemma InsertOneGains(s: Inserting, r: Rec)
    requires InsertingOK(s) && |r| <= MAXREC
    ensures InsertingOK(InsertOne(s, r))
    ensures Sum(AllEntries(InsertOne(s, r).file)) == Sum(AllEntries(s.file)) + multiset{r}
  {
    hide AllEntries, HeapInv, LeastFree, PutOn;
    InsertFits(s.file, s.at, r, s.next);
    var pre, rest := InsertGains(s.file, s.at, r, s.next);
    var j := Target(s.file, s.at, |r|);
    var e := Entry(RID(InsertedFrom(s.file, s.at, r, s.next)[j].no,
      LeastFree(if j < |s.file| then s.file[j].slots else [])), r);
    SumParts(pre, e, rest);
    InsertBelow(s, r);
  }

  lemma InsertBelow(s: Inserting, r: Rec)
    requires s.at <= |s.file| && Below(s.file, s.next)
    ensures Below(InsertOne(s, r).file, InsertOne(s, r).next) && InsertOne(s, r).at <= |InsertOne(s, r).file|
  {
    hide Inserted, Room;
  }

  lemma SumParts(pre: seq<Entry>, e: Entry, rest: seq<Entry>)
    ensures Sum(pre + [e] + rest) == Sum(pre + rest) + multiset{e.rec}
  {
    assert Records(pre + [e] + rest) == Records(pre) + [e.rec] + Records(rest);
    assert Records(pre + rest) == Records(pre) + Records(rest);
  }

  /** Records inserted one after the other through the same insertion scan. */
  function InsertAll(s: Inserting, rs: seq<Rec>): (t: Inserting)
    requires s.at <= |s.file|
    ensures t.at <= |t.file|
  {
    if rs == [] then s else InsertOne(InsertAll(s, rs[..|rs| - 1]), rs[|rs| - 1])
  }

  lemma {:induction false} InsertAllGains(s: Inserting, rs: seq<Rec>)
    requires InsertingOK(s) && forall i :: 0 <= i < |rs| ==> |rs[i]| <= MAXREC
    ensures InsertingOK(InsertAll(s, rs))
    ensures Sum(AllEntries(InsertAll(s, rs).file)) == Sum(AllEntries(s.file)) + multiset(rs)
  {
    hide InsertOne, AllEntries, InsertingOK;
    if rs == [] {
      assert multiset(rs) == multiset{};
    } else {
      var n := |rs| - 1;
      InsertingAt(s);
      InsertAllGains(s, rs[..n]);
      InsertOneGains(InsertAll(s, rs[..n]), rs[n]);
      assert rs == rs[..n] + [rs[n]];
    }
  }

  lemma {:induction false} InsertAllSplit(s: Inserting, a: seq<Rec>, b: seq<Rec>)
    requires s.at <= |s.file|
    ensures InsertAll(s, a + b) == InsertAll(InsertAll(s, a), b)
    decreases |b|
  {
    hide InsertOne;
    if b == [] {
      assert a + b == a;
    } else {
      var n := |b| - 1;
      InsertAllSplit(s, a, b[..n]);
      assert (a + b)[..|a + b| - 1] == a + b[..n];
    }
  }

  /** Pages added to the directory are pages added to the file. */
  lemma {:induction false} InsertAllSizes(s: Inserting, rs: seq<Rec>)
    requires s.at <= |s.file|
    ensures var t := InsertAll(s, rs); |s.file| <= |t.file| && t.next - |t.file| == s.next - |s.file|
    decreases |rs|
  {
    hide Inserted, Room, Target;
    if rs != [] {
      InsertAllSizes(s, rs[..|rs| - 1]);
    }
  }

  // ----- Filling a fresh file -----

  /** A file filled by one insertion scan: no page has a hole, and the scan stands on the last. */
  ghost predicate Packed(h: Heap) {
    HeapInv(h) && forall i, k :: 0 <= i < |h| && 0 <= k < |h[i].slots| ==> LiveAt(h[i].slots, k)
  }

  lemma {:induction false} PageEntriesAppend(no: int, s: seq<Slot>, r: Rec, k: nat)
    requires k <= |s|
    ensures PageEntries(no, s + [Live(r)], k) == PageEntries(no, s, k) + [Entry(RID(no, |s|), r)]
    decreases |s| - k
  {
    var t := s + [Live(r)];
    if k < |s| {
      PageEntriesAppend(no, s, r, k + 1);
      assert t[k] == s[k];
    } else {
      assert PageEntries(no, t, k) == [Entry(RID(no, k), r)] + PageEntries(no, t, k + 1);
      assert PageEntries(no, t, k + 1) == [] && PageEntries(no, s, k) == [];
    }
  }

  lemma NoHoles(s: seq<Slot>, r: Rec)
    requires forall k :: 0 <= k < |s| ==> LiveAt(s, k)
    ensures Inserted(s, r) == s + [Live(r)]
    ensures forall k :: 0 <= k <= |s| ==> LiveAt(s + [Live(r)], k)
  {
    assert !LiveAt(s, LeastFree(s));
    var t := s + [Live(r)];
    forall k | 0 <= k <= |s|
      ensures LiveAt(t, k)
    {
      assert k < |s| ==> LiveAt(s, k) && t[k] == s[k];
    }
  }

  lemma {:induction false} EntriesSplit(h: Heap, i: nat)
    requires i < |h|
    ensures EntriesFrom(h, i, 0) == EntriesFrom(h[..|h| - 1], i, 0) + PageEntries(h[|h| - 1].no, h[|h| - 1].slots, 0)
    decreases |h| - i
  {
    var n := |h| - 1;
    if i < n {
      EntriesSplit(h, i + 1);
      assert h[..n][i] == h[i];
    } else {
      assert EntriesFrom(h, n + 1, 0) == [] && EntriesFrom(h[..n], n, 0) == [];
    }
  }

  /** An insertion into a packed file from its last page puts the record last in scan order. */
  lemma InsertAppends(h: Heap, r: Rec, no: int)
    requires Packed(h) && |r| <= MAXREC
    requires forall j :: 0 <= j < |h| ==> h[j].no != no
    ensures var g := InsertedFrom(h, |h| - 1, r, no); var last := g[|g| - 1];
      && Packed(g) && |h| <= |g| <= |h| + 1
      && AllEntries(g) == AllEntries(h) + [Entry(RID(last.no, |last.slots| - 1), r)]
  {
    hide HeapInv, Target, PageEntries, LeastFree, LiveBytes, NextFree;
    InvSize(h);
    var n := |h| - 1;
    var g := InsertedFrom(h, n, r, no);
    var j := Target(h, n, |r|);
    InsertFits(h, n, r, no);
    EntriesSplit(h, 0);
    EntriesSplit(g, 0);
    if j == n {
      NoHoles(h[n].slots, r);
      assert g[..n] == h[..n];
      PageEntriesAppend(h[n].no, h[n].slots, r, 0);
    } else {
      NoHoles([], r);
      assert g[..n + 1] == h;
      PageEntriesAppend(no, [], r, 0);
      assert PageEntries(no, [], 0) == [] by { PageEntriesNext(no, [], 0); }
    }
  }

  ghost predicate Below(h: Heap, next: int) { forall i :: 0 <= i < |h| ==> h[i].no < next }

  function Records(es: seq<Entry>): (rs: seq<Rec>)
    ensures |rs| == |es|
  {
    seq(|es|, i requires 0 <= i < |es| => es[i].rec)
  }

  /** Insert/scan round trip: a packed file filled through one insertion scan from its last page
      scans back what it held and then exactly the inserted records, in insertion order. */
  lemma {:induction false} InsertAllAppends(s: Inserting, rs: seq<Rec>)
    requires InsertingOK(s) && Packed(s.file) && s.at == |s.file| - 1 && forall i :: 0 <= i < |rs| ==> |rs[i]| <= MAXREC
    ensures var t := InsertAll(s, rs);
      && InsertingOK(t) && Packed(t.file) && t.at == |t.file| - 1
      && Records(AllEntries(t.file)) == Records(AllEntries(s.file)) + rs
  {
    hide AllEntries, Packed, InsertOne, InsertingOK;
    if rs == [] {
    } else {
      var n := |rs| - 1;
      InsertAllAppends(s, rs[..n]);
      InsertOneAppends(InsertAll(s, rs[..n]), rs[n]);
      assert rs == rs[..n] + [rs[n]];
    }
  }

  lemma InsertOneAppends(s: Inserting, r: Rec)
    requires InsertingOK(s) && Packed(s.file) && s.at == |s.file| - 1 && |r| <= MAXREC
    ensures var t := InsertOne(s, r);
      && InsertingOK(t) && Packed(t.file) && t.at == |t.file| - 1
      && Records(AllEntries(t.file)) == Records(AllEntries(s.file)) + [r]
  {
    hide AllEntries, Packed, HeapInv, PutOn;
    InsertOneGains(s, r);
    InsertAppends(s.file, r, s.next);
  }

  lemma InsertingAt(s: Inserting)
    requires InsertingOK(s)
    ensures s.at <= |s.file|
  {
  }

  // ----- The number of pages -----

  /** How many records of `len` bytes a page takes. */
  function PerPage(len: nat): nat { REGION / (len + SLOTSIZE) }

  /** The pages a fresh file has after n records of `len` bytes: one at least, and as few as
      hold them. */
  function PagesFor(n: nat, len: nat): nat
    requires len <= MAXREC
  {
    if n == 0 then 1 else (n + PerPage(len) - 1) / PerPage(len)
  }

  /** All pages but the last are full; the last has `used` records of the same length. */
  ghost predicate Uniform(h: Heap, len: nat, n: nat) {
    && 1 <= len <= MAXREC && 1 <= |h|
    && (forall i :: 0 <= i < |h| ==> h[i].space == REGION - (len + SLOTSIZE) * |h[i].slots| == Room(h[i].slots))
    && (forall i :: 0 <= i < |h| - 1 ==> |h[i].slots| == PerPage(len))
    && n == (|h| - 1) * PerPage(len) + |h[|h| - 1].slots|
    && |h[|h| - 1].slots| <= PerPage(len) && (|h| > 1 ==> 1 <= |h[|h| - 1].slots|)
  }

  lemma PerPageBounds(len: nat, k: nat)
    requires 1 <= len <= MAXREC
    ensures 1 <= PerPage(len)
    ensures k < PerPage(len) <==> REGION - (len + SLOTSIZE) * k >= len + SLOTSIZE
  {
    var c := len + SLOTSIZE;
    var q := REGION / c;
    assert q * c <= REGION < (q + 1) * c;
    if k < q {
      assert (k + 1) * c <= q * c;
    } else {
      assert k * c >= q * c;
    }
  }

  /** The same page with one more record of that length. */
  lemma PutOnFull(d: DirPage, len: nat, r: Rec)
    requires |r| == len && d.space == REGION - (len + SLOTSIZE) * |d.slots| == Room(d.slots)
    requires forall k :: 0 <= k < |d.slots| ==> LiveAt(d.slots, k)
    ensures var e := PutOn(d, r);
      |e.slots| == |d.slots| + 1 && e.space == REGION - (len + SLOTSIZE) * |e.slots| == Room(e.slots)
  {
    hide LeastFree, LiveBytes;
    NoHoles(d.slots, r);
    LiveBytesAppend(d.slots, Live(r));
    assert (len + SLOTSIZE) * (|d.slots| + 1) == (len + SLOTSIZE) * |d.slots| + len + SLOTSIZE;
  }

  lemma UniformStep(h: Heap, len: nat, n: nat, r: Rec, no: int)
    requires Uniform(h, len, n) && Packed(h) && |r| == len
    ensures Uniform(InsertedFrom(h, |h| - 1, r, no), len, n + 1)
  {
    hide PutOn, Room, LiveAt, PerPage, HeapInv;
    var m := |h| - 1;
    var last := h[m];
    var g := InsertedFrom(h, m, r, no);
    PerPageBounds(len, |last.slots|);
    assert Target(h, m, len) == if last.space >= len + SLOTSIZE then m else |h|;
    if |last.slots| < PerPage(len) {
      PutOnFull(last, len, r);
    } else {
      EmptyRoom(no, len);
      PutOnFull(NewPage(no), len, r);
      assert |g| - 1 == m + 1;
      assert (m + 1) * PerPage(len) == m * PerPage(len) + PerPage(len);
    }
  }

  lemma EmptyRoom(no: int, len: nat)
    ensures NewPage(no).space == Room([]) == REGION - (len + SLOTSIZE) * 0
  {
  }

  lemma {:induction false} Monotone(a: int, b: int, c: int)
    requires a < b && 0 <= c
    ensures a * c + c <= b * c
    decreases b - a
  {
    assert b * c == (b - 1) * c + c;
    if a < b - 1 {
      Monotone(a, b - 1, c);
    }
  }

  lemma Quotient(x: int, q: int, c: int, r: int)
    requires 0 < c && x == q * c + r && 0 <= r < c
    ensures x / c == q
  {
    var d := x / c;
    if q > d {
      Monotone(d, q, c);
    } else if q < d {
      Monotone(q, d, c);
    }
  }

  /** Page-count bound: n records of one length inserted into a fresh file take
      max(1, ceil(n / floor(4080 / (len + 4)))) pages. */
  lemma UniformPages(h: Heap, len: nat, n: nat)
    requires Uniform(h, len, n)
    ensures |h| == PagesFor(n, len)
  {
    hide PerPage, Room;
    var c := PerPage(len);
    PerPageBounds(len, 0);
    var used := |h[|h| - 1].slots|;
    var m := |h| - 1;
    if used == 0 {
      assert m * c == 0;
    } else {
      assert n + c - 1 == (m + 1) * c + (used - 1);
      Quotient(n + c - 1, m + 1, c, used - 1);
      assert m * c >= 0;
    }
  }

  /** The same for a whole fill of a file. */
  lemma {:induction false} FillUniform(s: Inserting, rs: seq<Rec>, len: nat, n: nat)
    requires InsertingOK(s) && Packed(s.file) && s.at == |s.file| - 1 && Uniform(s.file, len, n)
    requires forall i :: 0 <= i < |rs| ==> |rs[i]| == len
    ensures Uniform(InsertAll(s, rs).file, len, n + |rs|)
    decreases |rs|
  {
    hide InsertedFrom, InsertingOK, Packed, Uniform, Room, AllEntries;
    UniformLength(s.file, len, n);
    if rs != [] {
      var m := |rs| - 1;
      FillUniform(s, rs[..m], len, n);
      InsertAllAppends(s, rs[..m]);
      UniformStep(InsertAll(s, rs[..m]).file, len, n + m, rs[m], InsertAll(s, rs[..m]).next);
    }
  }

  lemma UniformLength(h: Heap, len: nat, n: nat)
    requires Uniform(h, len, n)
    ensures 1 <= len <= MAXREC
  {
  }

  /** A fresh heap file: one empty data page. */
  function FreshHeap(no: int): Heap { [NewPage(no)] }

  /** An insertion scan just opened on it. */
  function FreshInserting(no: int): Inserting { Inserting(FreshHeap(no), 0, no + 1) }

  lemma FreshIsPacked(no: int, len: nat)
    requires 1 <= len <= MAXREC
    ensures Packed(FreshHeap(no)) && Uniform(FreshHeap(no), len, 0) && AllEntries(FreshHeap(no)) == []
  {
    PageEntriesNext(no, [], 0);
    assert EntriesFrom(FreshHeap(no), 1, 0) == [];
    PerPageBounds(len, 0);
  }

  /** A fresh file filled through one insertion scan scans back exactly what was inserted. */
  lemma FreshScan(no: int, rs: seq<Rec>)
    requires forall i :: 0 <= i < |rs| ==> |rs[i]| <= MAXREC
    ensures Records(AllEntries(InsertAll(FreshInserting(no), rs).file)) == rs
    ensures InsertingOK(InsertAll(FreshInserting(no), rs))
  {
    hide AllEntries, InsertAll;
    FreshIsPacked(no, 1);
    InsertAllAppends(FreshInserting(no), rs);
    assert Records(AllEntries(FreshHeap(no))) + rs == rs;
  }

  /** A fresh file filled with records of one length: what a scan returns, and how many pages
      it takes, in the directory and in the file. */
  lemma FreshFill(no: int, rs: seq<Rec>, len: nat)
    requires 1 <= len <= MAXREC && forall i :: 0 <= i < |rs| ==> |rs[i]| == len
    ensures var t := InsertAll(FreshInserting(no), rs);
      Records(AllEntries(t.file)) == rs && |t.file| == PagesFor(|rs|, len) && t.next == no + PagesFor(|rs|, len)
  {
    hide InsertAll, Packed, Uniform, PagesFor, AllEntries;
    FreshIsPacked(no, len);
    FreshScan(no, rs);
    FillUniform(FreshInserting(no), rs, len, 0);
    UniformPages(InsertAll(FreshInserting(no), rs).file, len, |rs|);
    InsertAllSizes(FreshInserting(no), rs);
  }

  /** The page of a heap file just created: page 0 is the file header, page 1 the header page. */
  const FIRSTDATA := 2
}
