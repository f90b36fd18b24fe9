/** How a heap file lies in its pages (heapfile.h): page 1 is a FileHdrPage with the page
    directory, the other pages are slotted pages. */
module HeapLayout {
  import opened Bytes
  import opened PageSpec
  import opened PageLayout
  import opened FileSpec
  import opened HeapSpec

  const HEADER := 1
  const RECCNT := 52
  const PAGECNT := 56
  const PAGES := 60
  const DIRCNT := 504

  function PageCnt(h: seq<byte>): int requires |h| == PAGESIZE { IntAt(h, PAGECNT) }

  function EntryPage(h: seq<byte>, k: nat): int
    requires |h| == PAGESIZE && k < DIRCNT
  {
    IntAt(h, PAGES + 8 * k)
  }

  function EntrySpace(h: seq<byte>, k: nat): int
    requires |h| == PAGESIZE && k < DIRCNT
  {
    IntAt(h, PAGES + 4 + 8 * k)
  }

  /** Directory entry k names a slotted page that knows its own number. */
  ghost predicate EntryOK(v: FileView, h: seq<byte>, k: nat)
    requires |h| == PAGESIZE && k < DIRCNT
  {
    var e := EntryPage(h, k);
    e in v && e != HEADER && 1 <= e && WF(v[e]) && CurPage(v[e]) == e
  }

  /** The header page describes `v` as a heap file; unused entries are -1. */
  ghost predicate Described(v: FileView) {
    && HEADER in v && |v[HEADER]| == PAGESIZE
    && 1 <= PageCnt(v[HEADER]) <= DIRCNT
    && (forall k :: 0 <= k < PageCnt(v[HEADER]) ==> EntryOK(v, v[HEADER], k))
    && (forall k :: PageCnt(v[HEADER]) <= k < DIRCNT ==> EntryPage(v[HEADER], k) == -1)
  }

  ghost function PageAt(v: FileView, k: nat): DirPage
    requires Described(v) && k < PageCnt(v[HEADER])
  {
    assert EntryOK(v, v[HEADER], k);
    var h := v[HEADER];
    var m := v[EntryPage(h, k)];
    DirPage(EntryPage(h, k), EntrySpace(h, k), NextPage(m), Slots(m))
  }

  /** The heap file the pages stand for. */
  ghost function HeapOf(v: FileView): (h: Heap)
    requires Described(v)
    ensures |h| == PageCnt(v[HEADER])
  {
    seq(PageCnt(v[HEADER]), k requires 0 <= k < PageCnt(v[HEADER]) => PageAt(v, k))
  }

  ghost predicate HeapOK(v: FileView) { Described(v) && HeapInv(HeapOf(v)) }

  lemma HeapAt(v: FileView, k: nat)
    requires Described(v) && k < PageCnt(v[HEADER])
    ensures HeapOf(v)[k] == PageAt(v, k) && EntryOK(v, v[HEADER], k)
  {
    assert EntryOK(v, v[HEADER], k);
  }

  /** The record count of the header page. */
  function CountIn(v: FileView): int {
    if HEADER in v && |v[HEADER]| == PAGESIZE then IntAt(v[HEADER], RECCNT) else 0
  }

  /** It is the number of records of the file. */
  ghost predicate RightCount(v: FileView) { HeapOK(v) && CountIn(v) == |AllEntries(HeapOf(v))| }

  lemma {:induction false} FewEntries(h: Heap, i: nat)
    requires HeapInv(h) && i <= |h|
    ensures |EntriesFrom(h, i, 0)| <= REGION * (|h| - i)
    decreases |h| - i
  {
    if i < |h| {
      assert PageInv(h[i]);
      PageEntriesCount(h[i].no, h[i].slots, 0);
      FewEntries(h, i + 1);
    }
  }

  lemma {:induction false} PageEntriesCount(no: int, s: seq<Slot>, k: nat)
    ensures k <= |s| ==> |PageEntries(no, s, k)| <= |s| - k
    decreases |s| - k
  {
    if k < |s| {
      PageEntriesCount(no, s, k + 1);
    }
  }

  /** A full directory of pages holds far fewer records than the count can tell apart. */
  lemma MostEntries(h: Heap)
    requires HeapInv(h) && |h| <= DIRCNT
    ensures |AllEntries(h)| < 0x7fff_ffff
  {
    FewEntries(h, 0);
  }

  /** Where the header page of a heap file has what (heapfile.h). */
  lemma HeaderFormat(v: FileView, k: nat)
    requires HeapOK(v)
    ensures var h := v[1];
      && |h| == 4096 && CountIn(v) == IntAt(h, 52) && |HeapOf(v)| == IntAt(h, 56) && |HeapOf(v)| <= 504
      && (k < |HeapOf(v)| ==> HeapOf(v)[k].no == IntAt(h, 60 + 8 * k) && HeapOf(v)[k].space == IntAt(h, 64 + 8 * k))
  {
    hide IntAt, HeapInv;
    if k < |HeapOf(v)| {
      HeapAt(v, k);
    }
  }

  /** The pages of distinct entries are distinct. */
  lemma EntriesApart(v: FileView, i: nat, j: nat)
    requires HeapOK(v) && i < PageCnt(v[HEADER]) && j < PageCnt(v[HEADER]) && i != j
    ensures EntryPage(v[HEADER], i) != EntryPage(v[HEADER], j)
  {
    HeapAt(v, i);
    HeapAt(v, j);
  }

  /** Entry i of header h' may promise another amount of space; the rest of the directory is
      as in h. */
  ghost predicate SameDirectory(h: seq<byte>, h': seq<byte>, i: nat) {
    && |h| == PAGESIZE && |h'| == PAGESIZE && PageCnt(h') == PageCnt(h)
    && (forall k :: 0 <= k < DIRCNT ==> EntryPage(h', k) == EntryPage(h, k))
    && (forall k :: 0 <= k < DIRCNT && k != i ==> EntrySpace(h', k) == EntrySpace(h, k))
  }

  /** Changing the page of entry i, and its promised space, changes that page of the heap. */
  lemma EditPage(v: FileView, i: nat, m': seq<byte>, h': seq<byte>)
    requires HeapOK(v) && i < PageCnt(v[HEADER]) && SameDirectory(v[HEADER], h', i)
    requires WF(m') && CurPage(m') == EntryPage(v[HEADER], i)
    ensures var v' := v[EntryPage(v[HEADER], i) := m'][HEADER := h'];
      && Described(v')
      && HeapOf(v') == HeapOf(v)[i := DirPage(EntryPage(v[HEADER], i), EntrySpace(h', i), NextPage(m'), Slots(m'))]
  {
    hide WF, Slots, IntAt, HeapInv, Sound, NextPage, CurPage;
    var h := v[HEADER];
    var e := EntryPage(h, i);
    var v' := v[e := m'][HEADER := h'];
    Bounds(m');
    SoundCount(m');
    var d := DirPage(e, EntrySpace(h', i), NextPage(m'), Slots(m'));
    assert EntryOK(v, h, i);
    forall k | 0 <= k < PageCnt(h)
      ensures EntryOK(v', h', k)
      ensures k != i ==> v'[EntryPage(h, k)] == v[EntryPage(h, k)]
    {
      assert EntryOK(v, h, k);
      if k != i {
        EntriesApart(v, i, k);
      }
    }
    assert Described(v');
    forall k | 0 <= k < PageCnt(h)
      ensures HeapOf(v')[k] == if k == i then d else HeapOf(v)[k]
    {
      HeapAt(v, k);
      HeapAt(v', k);
    }
  }

  /** Header h' has one entry more than h: page `no`, with `space` bytes. */
  ghost predicate OneMoreEntry(h: seq<byte>, h': seq<byte>, no: int, space: int) {
    && |h| == PAGESIZE && |h'| == PAGESIZE && 0 <= PageCnt(h) < DIRCNT && PageCnt(h') == PageCnt(h) + 1
    && (forall k :: 0 <= k < DIRCNT && k != PageCnt(h) ==>
         EntryPage(h', k) == EntryPage(h, k) && EntrySpace(h', k) == EntrySpace(h, k))
    && EntryPage(h', PageCnt(h)) == no && EntrySpace(h', PageCnt(h)) == space
  }

  /** A new page entered in the directory extends the heap. */
  lemma AddPage(v: FileView, no: int, m': seq<byte>, h': seq<byte>, space: int)
    requires HeapOK(v) && OneMoreEntry(v[HEADER], h', no, space)
    requires no != HEADER && 1 <= no && WF(m') && CurPage(m') == no
    requires forall k :: 0 <= k < |HeapOf(v)| ==> HeapOf(v)[k].no != no
    ensures var v' := v[no := m'][HEADER := h'];
      && Described(v')
      && HeapOf(v') == HeapOf(v) + [DirPage(no, space, NextPage(m'), Slots(m'))]
  {
    hide WF, Slots, IntAt, HeapInv, Sound, NextPage, CurPage;
    var h := v[HEADER];
    var v' := v[no := m'][HEADER := h'];
    var n := PageCnt(h);
    Bounds(m');
    SoundCount(m');
    var d := DirPage(no, space, NextPage(m'), Slots(m'));
    forall k | 0 <= k <= n
      ensures EntryOK(v', h', k)
      ensures k < n ==> EntryPage(h, k) in v && v'[EntryPage(h, k)] == v[EntryPage(h, k)]
    {
      if k < n {
        HeapAt(v, k);
      }
    }
    assert Described(v');
    forall k | 0 <= k <= n
      ensures HeapOf(v')[k] == if k == n then d else HeapOf(v)[k]
    {
      if k < n {
        HeapAt(v, k);
      }
      HeapAt(v', k);
    }
  }

  // ----- Writing header fields -----

  lemma PutRecCnt(h: seq<byte>, v: int, i: nat)
    requires |h| == PAGESIZE && -0x8000_0000 <= v < 0x8000_0000
    ensures SameDirectory(h, PutInt(h, RECCNT, v), i)
    ensures forall k :: 0 <= k < DIRCNT ==> EntrySpace(PutInt(h, RECCNT, v), k) == EntrySpace(h, k)
  {
    hide IntOf, PutInt;
  }

  lemma PutSpace(h: seq<byte>, i: nat, v: int)
    requires |h| == PAGESIZE && i < DIRCNT && -0x8000_0000 <= v < 0x8000_0000
    ensures SameDirectory(h, PutInt(h, PAGES + 4 + 8 * i, v), i)
    ensures EntrySpace(PutInt(h, PAGES + 4 + 8 * i, v), i) == v
  {
    hide IntOf, PutInt;
  }

  lemma PutEntry(h: seq<byte>, no: int, space: int)
    requires |h| == PAGESIZE && 0 <= PageCnt(h) < DIRCNT
    requires -0x8000_0000 <= no < 0x8000_0000 && -0x8000_0000 <= space < 0x8000_0000
    ensures var n := PageCnt(h);
      var h' := PutInt(PutInt(PutInt(h, PAGECNT, n + 1), PAGES + 8 * n, no), PAGES + 4 + 8 * n, space);
      OneMoreEntry(h, h', no, space) && IntAt(h', RECCNT) == IntAt(h, RECCNT)
  {
    hide IntOf, PutInt;
    var n := PageCnt(h);
    var a := PutInt(h, PAGECNT, n + 1);
    var b := PutInt(a, PAGES + 8 * n, no);
    var c := PutInt(b, PAGES + 4 + 8 * n, space);
    assert PageCnt(c) == PageCnt(b) == PageCnt(a);
    assert EntryPage(c, n) == EntryPage(b, n);
  }

  // ----- Deleting a record -----

  /** Page m' is page m without the record of slot k. */
  ghost predicate Erased(m: seq<byte>, m': seq<byte>, k: nat) {
    && WF(m) && WF(m') && LiveAt(Slots(m), k) && Slots(m') == Deleted(Slots(m), k)
    && CurPage(m') == CurPage(m) && NextPage(m') == NextPage(m)
  }

  /** Header h' is h with record count n. */
  predicate CountedTo(h: seq<byte>, h': seq<byte>, n: int)
    requires |h| == PAGESIZE
  {
    -0x8000_0000 <= n < 0x8000_0000 && h' == PutInt(h, RECCNT, n)
  }

  /** Header h' is h with some other record count. */
  ghost predicate Counted(h: seq<byte>, h': seq<byte>)
    requires |h| == PAGESIZE
  {
    exists n :: CountedTo(h, h', n)
  }
}
