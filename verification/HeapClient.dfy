/** A heap file as a client of the buffer pool: it keeps the header page and one data page
    pinned, and announces its changes when it unpins. */
module HeapClient {
  import opened Bytes
  import opened StatusCodes
  import opened PageSpec
  import opened PageLayout
  import opened FileSpec
  import opened Disks
  import opened PoolSpec
  import opened PoolRefinement
  import opened PoolClient
  import opened HeapSpec
  import opened HeapLayout

  /** The pins and dirty flags of an open heap file whose current page is `cur`. */
  ghost predicate Anchored(p: Pool, f: FileRef, touched: set<Key>, hdrDirty: bool, cur: int, curDirty: bool) {
    && Inv(p) && f in p.disk && Coherent(p, touched)
    && Next(p.disk[f][0]) == -1
    && cur != HEADER && Pinned(p, Key(f, HEADER)) && Pinned(p, Key(f, cur))
    && (forall k :: k in touched && k.file == f ==> (k.pageNo == HEADER && hdrDirty) || (k.pageNo == cur && curDirty))
  }

  /** No one else has a page of the file pinned. */
  ghost predicate Alone(p: Pool, f: FileRef, cur: int) {
    && Pins(p, Key(f, cur)) == 1 && Pins(p, Key(f, HEADER)) == 1
    && (forall k :: Pinned(p, k) && k.file == f ==> k.pageNo == HEADER || k.pageNo == cur)
  }

  /** The scan stands on entry i of the directory, which is page `cur`, at record `rec`. */
  ghost predicate Positioned(v: FileView, i: int, cur: int, rec: RID) {
    && HeapOK(v) && 0 <= i < |HeapOf(v)| && HeapOf(v)[i].no == cur
    && (rec == NULLRID || (rec.pageNo == cur && 0 <= rec.slotNo))
  }

  lemma AnchoredPages(p: Pool, f: FileRef, touched: set<Key>, hdrDirty: bool, cur: int, curDirty: bool)
    requires Anchored(p, f, touched, hdrDirty, cur, curDirty)
    ensures PageExists(p.disk, Key(f, HEADER)) && PageExists(p.disk, Key(f, cur)) && f != NullFile
    ensures 0 <= p.index[Key(f, HEADER)] < |p.mem| && View(p, Key(f, HEADER)) == p.mem[p.index[Key(f, HEADER)]]
    ensures 0 <= p.index[Key(f, cur)] < |p.mem| && View(p, Key(f, cur)) == p.mem[p.index[Key(f, cur)]]
    ensures p.index[Key(f, HEADER)] != p.index[Key(f, cur)]
    ensures Pins(p, Key(f, cur)) >= 1
  {
    ViewOfResident(p, Key(f, HEADER));
    ViewOfResident(p, Key(f, cur));
    assert IndexedOK(p, Key(f, HEADER)) && IndexedOK(p, Key(f, cur));
  }

  /** Of this file, only the header page has changes that are not yet announced. */
  ghost predicate HeaderOnly(touched: set<Key>, f: FileRef) {
    forall k :: k in touched && k.file == f ==> k.pageNo == HEADER
  }

  /** Then the flag of the current page may be lowered. */
  lemma LowerFlag(p: Pool, f: FileRef, touched: set<Key>, hdrDirty: bool, cur: int, curDirty: bool)
    requires Anchored(p, f, touched, hdrDirty, cur, curDirty) && HeaderOnly(touched, f)
    ensures Anchored(p, f, touched, hdrDirty, cur, false)
  {
  }

  // ----- Turning to another page -----

  ghost function TurnedTo(p: Pool, f: FileRef, cur: int, curDirty: bool, n: int): Pool
    requires Inv(p)
  {
    InvUnPin(p, Key(f, cur), curDirty, false);
    AfterRead(AfterUnPin(p, Key(f, cur), curDirty, false), Key(f, n))
  }

  lemma UnPinCurrent(p: Pool, f: FileRef, touched: set<Key>, hdrDirty: bool, cur: int, curDirty: bool)
    requires Anchored(p, f, touched, hdrDirty, cur, curDirty)
    ensures UnPinStatus(p, Key(f, cur)) == OK
    ensures var q := AfterUnPin(p, Key(f, cur), curDirty, false); var t := Announced(touched, Key(f, cur), curDirty);
      && Inv(q) && SameViews(p, q) && Coherent(q, t) && SameFile(p, q, f)
      && Pinned(q, Key(f, HEADER)) && q.index[Key(f, HEADER)] == p.index[Key(f, HEADER)]
      && (forall k :: k in t && k.file == f ==> k.pageNo == HEADER && hdrDirty)
  {
    hide Inv, Coherent, SameViews, View;
    AnchoredPages(p, f, touched, hdrDirty, cur, curDirty);
    UnPinViews(p, Key(f, cur), curDirty, false, touched);
    UnPinKeeps(p, Key(f, cur), curDirty, false, Key(f, HEADER), f);
  }

  /** Unpinning the current page and reading page n changes no page of any file. */
  lemma Turn(p: Pool, f: FileRef, touched: set<Key>, hdrDirty: bool, cur: int, curDirty: bool, n: int)
    requires Anchored(p, f, touched, hdrDirty, cur, curDirty) && n != HEADER && PageExists(p.disk, Key(f, n))
    ensures var q := AfterUnPin(p, Key(f, cur), curDirty, false); var r := TurnedTo(p, f, cur, curDirty, n);
      var t := Announced(touched, Key(f, cur), curDirty);
      && Inv(q) && Inv(r) && SameViews(p, r) && SameFile(p, r, f)
      && ReadStatus(q, Key(f, n)) in {OK, BUFFEREXCEEDED}
      && (ReadStatus(q, Key(f, n)) == OK ==> Anchored(r, f, t, hdrDirty, n, curDirty) && HeaderOnly(t, f))
      && Pinned(r, Key(f, HEADER)) && r.index[Key(f, HEADER)] == p.index[Key(f, HEADER)]
  {
    hide Inv, Coherent, SameViews, View, AfterUnPin, AfterRead, Evicted, Announced;
    AnchoredPages(p, f, touched, hdrDirty, cur, curDirty);
    UnPinCurrent(p, f, touched, hdrDirty, cur, curDirty);
    var q := AfterUnPin(p, Key(f, cur), curDirty, false);
    var t := Announced(touched, Key(f, cur), curDirty);
    SameViewsPages(p, q);
    ReadViews(q, Key(f, n), t);
    ReadKeeps(q, Key(f, n), Key(f, HEADER), f);
    SameViewsTrans(p, q, AfterRead(q, Key(f, n)));
  }

  lemma SameViewsPages(p: Pool, q: Pool)
    requires Inv(p) && Inv(q) && SameViews(p, q)
    ensures forall k :: PageExists(p.disk, k) <==> PageExists(q.disk, k)
  {
  }

  /** Nobody else holding pages of the file, there is always a frame for the next page. */
  lemma TurnAlone(p: Pool, f: FileRef, touched: set<Key>, hdrDirty: bool, cur: int, curDirty: bool, n: int)
    requires Anchored(p, f, touched, hdrDirty, cur, curDirty) && n != HEADER && PageExists(p.disk, Key(f, n))
    requires Alone(p, f, cur) && n != cur
    ensures Inv(AfterUnPin(p, Key(f, cur), curDirty, false))
    ensures ReadStatus(AfterUnPin(p, Key(f, cur), curDirty, false), Key(f, n)) == OK
    ensures Alone(TurnedTo(p, f, cur, curDirty, n), f, n)
  {
    hide Inv, Coherent, AfterUnPin, AfterRead;
    UnPinMakesRoom(p, Key(f, cur), curDirty, false, Key(f, n));
    var q := AfterUnPin(p, Key(f, cur), curDirty, false);
    var r := AfterRead(q, Key(f, n));
    UnPinKeeps(p, Key(f, cur), curDirty, false, Key(f, n), f);
    ReadPinsOne(q, Key(f, n));
    UnPinnedNow(p, Key(f, cur), curDirty);
    PinsZero(q, Key(f, n));
    UnPinKeeps(p, Key(f, cur), curDirty, false, Key(f, HEADER), f);
    ReadKeeps(q, Key(f, n), Key(f, HEADER), f);
    forall k | Pinned(r, k) && k.file == f
      ensures k.pageNo == HEADER || k.pageNo == n
    {
      if k != Key(f, n) {
        ReadKeeps(q, Key(f, n), k, f);
        if k != Key(f, cur) {
          UnPinKeeps(p, Key(f, cur), curDirty, false, k, f);
        }
      }
    }
  }

  lemma PinsZero(p: Pool, k: Key)
    requires Inv(p) && !Pinned(p, k)
    ensures Pins(p, k) == 0
  {
    if k in p.index {
      assert IndexedOK(p, k) && FrameOK(p, p.index[k]);
    }
  }

  lemma UnPinnedNow(p: Pool, k: Key, dirty: bool)
    requires Inv(p) && Pins(p, k) == 1
    ensures !Pinned(AfterUnPin(p, k, dirty, false), k)
  {
    assert IndexedOK(p, k);
  }

  // ----- Turning to a new page -----

  ghost function TurnedToNew(p: Pool, f: FileRef, cur: int, curDirty: bool): Pool
    requires Inv(p)
  {
    InvUnPin(p, Key(f, cur), curDirty, false);
    var q := AfterUnPin(p, Key(f, cur), curDirty, false);
    if f in q.disk && CanAllocate(q.disk[f]) then AfterAlloc(q, f) else q
  }

  /** After the unpin there is a frame for the new page, nobody else holding pages of the file. */
  lemma AllocReady(p: Pool, f: FileRef, touched: set<Key>, hdrDirty: bool, cur: int, curDirty: bool)
    requires Anchored(p, f, touched, hdrDirty, cur, curDirty) && Alone(p, f, cur) && |p.disk[f]| < MAXPAGES
    ensures var q := AfterUnPin(p, Key(f, cur), curDirty, false);
      && Inv(q) && f in q.disk && CanAllocate(q.disk[f]) && AllocStatus(q, f) == OK
      && AllocatedPage(q.disk[f]) == |p.disk[f]| && AllocKey(q, f) == Key(f, |p.disk[f]|)
  {
    hide Inv, Coherent, AfterUnPin, AfterAlloc, AllocStatus, CanAllocate, Announced, SameViews;
    UnPinCurrent(p, f, touched, hdrDirty, cur, curDirty);
    UnPinListed(p, Key(f, cur), curDirty, false);
    var q := AfterUnPin(p, Key(f, cur), curDirty, false);
    FileFacts(q, f);
    AllocExtends(q, f);
  }

  /** Unpinning the current page and allocating another in its place.  No other page changes;
      the new page holds whatever was in the frame and is owed a dirty unpin. */
  lemma AllocTurn(p: Pool, f: FileRef, touched: set<Key>, hdrDirty: bool, cur: int, curDirty: bool)
    requires Anchored(p, f, touched, hdrDirty, cur, curDirty) && Alone(p, f, cur) && |p.disk[f]| < MAXPAGES
    ensures var r := TurnedToNew(p, f, cur, curDirty); var no := |p.disk[f]|;
      && Anchored(r, f, Announced(touched, Key(f, cur), curDirty) + {Key(f, no)}, hdrDirty, no, true) && Alone(r, f, no)
      && Pinned(r, Key(f, HEADER)) && r.index[Key(f, HEADER)] == p.index[Key(f, HEADER)] && |r.disk[f]| == no + 1
  {
    hide Inv, Coherent, AfterUnPin, AfterAlloc, AllocStatus, CanAllocate, Announced, SameViews;
    AnchoredPages(p, f, touched, hdrDirty, cur, curDirty);
    UnPinCurrent(p, f, touched, hdrDirty, cur, curDirty);
    UnPinListed(p, Key(f, cur), curDirty, false);
    UnPinnedNow(p, Key(f, cur), curDirty);
    var q := AfterUnPin(p, Key(f, cur), curDirty, false);
    var no := |p.disk[f]|;
    AllocReady(p, f, touched, hdrDirty, cur, curDirty);
    FileFacts(q, f);
    AllocGrows(q, f);
    AllocViews(q, f, Announced(touched, Key(f, cur), curDirty));
    UnPinKeeps(p, Key(f, cur), curDirty, false, Key(f, HEADER), f);
    AllocKeeps(q, f, Key(f, HEADER));
    var r := AfterAlloc(q, f);
    forall k | Pinned(r, k) && k.file == f
      ensures k.pageNo == HEADER || k.pageNo == no
    {
      if k != Key(f, no) {
        AllocKeeps(q, f, k);
        if k != Key(f, cur) {
          UnPinKeeps(p, Key(f, cur), curDirty, false, k, f);
        }
      }
    }
  }

  lemma AllocTurnView(p: Pool, f: FileRef, touched: set<Key>, hdrDirty: bool, cur: int, curDirty: bool)
    requires Anchored(p, f, touched, hdrDirty, cur, curDirty) && Alone(p, f, cur) && |p.disk[f]| < MAXPAGES
    ensures var r := TurnedToNew(p, f, cur, curDirty); var no := |p.disk[f]|;
      Inv(r) && f in r.disk && no in ViewOf(r, f) && no !in ViewOf(p, f)
        && ViewOf(r, f) == ViewOf(p, f)[no := ViewOf(r, f)[no]]
  {
    hide Inv, Coherent, AfterUnPin, AfterAlloc, AllocStatus, CanAllocate, Announced, SameViews, View;
    AllocTurn(p, f, touched, hdrDirty, cur, curDirty);
    AllocReady(p, f, touched, hdrDirty, cur, curDirty);
    UnPinCurrent(p, f, touched, hdrDirty, cur, curDirty);
    var q := AfterUnPin(p, Key(f, cur), curDirty, false);
    var no := |p.disk[f]|;
    AllocViews(q, f, Announced(touched, Key(f, cur), curDirty));
    SameViewOf(p, q, f);
    var r := AfterAlloc(q, f);
    forall n | n in ViewOf(q, f)
      ensures ViewOf(r, f)[n] == ViewOf(q, f)[n]
    {
      assert PageExists(q.disk, Key(f, n)) && SameView(q, r, Key(f, n));
    }
  }

  // ----- Changing the pinned pages -----

  /** Changing the bytes of the header page or of the current page, flag raised. */
  lemma WritePinned(p: Pool, f: FileRef, touched: set<Key>, hdrDirty: bool, cur: int, curDirty: bool, n: int, b: Image)
    requires Anchored(p, f, touched, hdrDirty, cur, curDirty) && |b| == PAGESIZE
    requires (n == HEADER && hdrDirty) || (n == cur && curDirty)
    ensures 0 <= p.index[Key(f, n)] < |p.mem|
    ensures var q := Written(p, p.index[Key(f, n)], b);
      && Anchored(q, f, touched + {Key(f, n)}, hdrDirty, cur, curDirty)
      && Inv(q) && f in q.disk && ViewOf(q, f) == ViewOf(p, f)[n := b]
      && SamePages(p, q)
  {
    hide View, Coherent;
    var k := Key(f, n);
    AnchoredPages(p, f, touched, hdrDirty, cur, curDirty);
    WrittenViews(p, k, b, touched);
    var q := Written(p, p.index[k], b);
    forall m | m in ViewOf(p, f)
      ensures ViewOf(q, f)[m] == ViewOf(p, f)[n := b][m]
    {
      assert m != n ==> SameView(p, q, Key(f, m));
    }
  }

  /** Raising a dirty flag early is harmless. */
  lemma RaiseFlags(p: Pool, f: FileRef, touched: set<Key>, hdrDirty: bool, cur: int, curDirty: bool, hdrDirty': bool,
      curDirty': bool)
    requires Anchored(p, f, touched, hdrDirty, cur, curDirty)
    requires hdrDirty ==> hdrDirty'
    requires curDirty ==> curDirty'
    ensures Anchored(p, f, touched, hdrDirty', cur, curDirty')
  {
  }

  lemma TurnView(p: Pool, f: FileRef, touched: set<Key>, hdrDirty: bool, cur: int, curDirty: bool, n: int)
    requires Anchored(p, f, touched, hdrDirty, cur, curDirty) && n != HEADER && PageExists(p.disk, Key(f, n))
    ensures Inv(TurnedTo(p, f, cur, curDirty, n)) && f in TurnedTo(p, f, cur, curDirty, n).disk
    ensures ViewOf(TurnedTo(p, f, cur, curDirty, n), f) == ViewOf(p, f)
  {
    hide Inv, Coherent, SameViews, View, TurnedTo;
    Turn(p, f, touched, hdrDirty, cur, curDirty, n);
    SameViewOf(p, TurnedTo(p, f, cur, curDirty, n), f);
  }

  /** Entries of the directory are pages of the file. */
  lemma EntryExists(p: Pool, f: FileRef, i: int)
    requires Inv(p) && f in p.disk && HeapOK(ViewOf(p, f)) && 0 <= i < |HeapOf(ViewOf(p, f))|
    ensures var n := HeapOf(ViewOf(p, f))[i].no;
      && PageExists(p.disk, Key(f, n)) && n != HEADER
      && n == EntryPage(ViewOf(p, f)[HEADER], i)
      && i < DIRCNT
      && |View(p, Key(f, n))| == PAGESIZE && WF(View(p, Key(f, n)))
      && HeapOf(ViewOf(p, f))[i].slots == Slots(View(p, Key(f, n)))
      && CurPage(View(p, Key(f, n))) == n
  {
    hide Inv, View, WF, Slots, Sound;
    var v := ViewOf(p, f);
    HeapAt(v, i);
    Bounds(v[EntryPage(v[HEADER], i)]);
    SoundCount(v[EntryPage(v[HEADER], i)]);
  }

  lemma WrittenParts(p: Pool, i: nat, b: Image)
    requires i < |p.mem|
    ensures var q := Written(p, i, b); q.index == p.index && q.frames == p.frames && q.disk == p.disk && q.upl == p.upl
    ensures forall k :: Pinned(Written(p, i, b), k) <==> Pinned(p, k)
    ensures forall k :: Pins(Written(p, i, b), k) == Pins(p, k)
  {
  }

  /** Without the record of slot k of its current page, the file is a heap file still, and the
      scan has the same entries ahead. */
  lemma DeletedView(v: FileView, i: int, no: int, rec: RID, m': seq<byte>, h': seq<byte>)
    requires Positioned(v, i, no, rec) && rec != NULLRID
    requires no in v && Erased(v[no], m', rec.slotNo)
    requires Counted(v[HEADER], h')
    ensures var v' := v[no := m'][HEADER := h'];
      && rec.slotNo < |HeapOf(v)[i].slots| && Positioned(v', i, no, rec)
      && HeapOf(v') == DeletedAt(HeapOf(v), i, rec.slotNo)
      && EntriesFrom(HeapOf(v'), i, rec.slotNo + 1) == EntriesFrom(HeapOf(v), i, rec.slotNo + 1)
  {
    hide WF, Slots, IntAt, Sound, NextPage, CurPage, PutInt, Deleted, EntriesFrom, HeapInv;
    var n :| CountedTo(v[HEADER], h', n);
    PutRecCnt(v[HEADER], n, i);
    HeapAt(v, i);
    Bounds(m');
    Bounds(v[no]);
    SoundCount(v[no]);
    EditPage(v, i, m', h');
    DeleteKeepsInv(HeapOf(v), i, rec.slotNo);
    DeleteAtCursor(HeapOf(v), i, rec.slotNo);
  }

  /** A page as Page::init leaves it. */
  ghost predicate Blank(m: seq<byte>, no: int) {
    WF(m) && Slots(m) == [] && CurPage(m) == no && NextPage(m) == -1
  }

  lemma BlankRoom(m: seq<byte>, no: int)
    requires Blank(m, no)
    ensures WF(m) && Sound(m) && Room(Slots(m)) == REGION
  {
  }

  /** With an empty page entered at its end, the file is a heap file still. */
  lemma AddedView(v: FileView, no: int, m': seq<byte>, h': seq<byte>)
    requires HeapOK(v) && no !in v && 1 <= no && OneMoreEntry(v[HEADER], h', no, REGION)
    requires Blank(m', no)
    ensures var v' := v[no := m'][HEADER := h'];
      && Positioned(v', |HeapOf(v)|, no, NULLRID) && HeapOf(v') == HeapOf(v) + [NewPage(no)]
  {
    hide WF, Slots, IntAt, Sound, NextPage, CurPage, LiveBytes;
    forall k | 0 <= k < |HeapOf(v)|
      ensures HeapOf(v)[k].no != no
    {
      HeapAt(v, k);
    }
    AddPage(v, no, m', h', REGION);
    AddedInv(HeapOf(v), no);
  }

  lemma AddedInv(h: Heap, no: int)
    requires HeapInv(h) && forall k :: 0 <= k < |h| ==> h[k].no != no
    ensures HeapInv(h + [NewPage(no)])
  {
    assert PageInv(NewPage(no));
  }

  /** Page m' is page m with record r put on it. */
  ghost predicate Extended(m: seq<byte>, m': seq<byte>, r: Rec) {
    && WF(m) && WF(m') && Slots(m') == Inserted(Slots(m), r)
    && CurPage(m') == CurPage(m) && NextPage(m') == NextPage(m)
  }

  /** Header h' is h with the free space of entry i, and the record count, brought up to date. */
  ghost predicate Settled(h: seq<byte>, h': seq<byte>, i: nat, space: int) {
    i < DIRCNT && SameDirectory(h, h', i) && EntrySpace(h', i) == space
  }

  lemma SettledEntry(h: seq<byte>, g: seq<byte>, h': seq<byte>, i: nat, space: int)
    requires |h| == PAGESIZE && i < DIRCNT && 0 <= space <= REGION
    requires g == PutInt(h, PAGES + 4 + 8 * i, space) && Counted(g, h')
    ensures Settled(h, h', i, space)
  {
    hide IntOf, PutInt;
    var n :| CountedTo(g, h', n);
    PutSpace(h, i, space);
    PutRecCnt(g, n, i);
  }

  /** With one record more on page i, and its entry up to date, the file is a heap file still. */
  lemma InsertedView(v: FileView, i: int, no: int, rec: RID, m': seq<byte>, h': seq<byte>, r: Rec)
    requires Positioned(v, i, no, rec) && no in v && i < DIRCNT
    requires Extended(v[no], m', r)
    requires InsertCost(HeapOf(v)[i].slots, r) <= Room(HeapOf(v)[i].slots)
    requires Settled(v[HEADER], h', i, Room(Inserted(HeapOf(v)[i].slots, r)))
    ensures var v' := v[no := m'][HEADER := h'];
      && Positioned(v', i, no, rec) && HeapOf(v') == HeapOf(v)[i := PutOn(HeapOf(v)[i], r)]
  {
    hide WF, Slots, IntAt, Sound, NextPage, CurPage, PutInt, Inserted, HeapInv, Room;
    HeapAt(v, i);
    Bounds(m');
    Bounds(v[no]);
    SoundCount(v[no]);
    EditPage(v, i, m', h');
    PutOnInv(HeapOf(v), i, r);
  }

  lemma PutOnInv(h: Heap, i: nat, r: Rec)
    requires HeapInv(h) && i < |h| && InsertCost(h[i].slots, r) <= Room(h[i].slots)
    ensures HeapInv(h[i := PutOn(h[i], r)])
  {
    hide Inserted, LiveBytes;
    assert PageInv(h[i]);
    InsertAddsOne(h[i].slots, r);
    assert PageInv(PutOn(h[i], r));
  }
}
