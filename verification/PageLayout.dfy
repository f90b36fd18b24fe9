/** How a page lies in its 4096 bytes (page.h): records grow upwards from byte 0,
    slot k is the four bytes that end at byte 4080 - 4k, and the fixed fields
    follow.  Everything is read from the raw bytes, so a record that ran into the
    directory would show. */
module PageLayout {
  import opened Bytes
  import opened PageSpec

  const SLOTCNT := 4080
  const FREEPTR := 4082
  const FREESPACE := 4084
  const NEXTPAGE := 4088
  const CURPAGE := 4092
  const MAXSLOTS := 1020

  /** Number of directory entries; the field holds it negated. */
  function Count(m: seq<byte>): int requires |m| == PAGESIZE { -ShortAt(m, SLOTCNT) }
  function FreePtr(m: seq<byte>): int requires |m| == PAGESIZE { ShortAt(m, FREEPTR) }
  function FreeSpace(m: seq<byte>): int requires |m| == PAGESIZE { ShortAt(m, FREESPACE) }
  function NextPage(m: seq<byte>): int requires |m| == PAGESIZE { IntAt(m, NEXTPAGE) }
  function CurPage(m: seq<byte>): int requires |m| == PAGESIZE { IntAt(m, CURPAGE) }

  function Off(m: seq<byte>, k: nat): int
    requires |m| == PAGESIZE && k < MAXSLOTS
  {
    ShortAt(m, 4076 - 4 * k)
  }

  function Len(m: seq<byte>, k: nat): int
    requires |m| == PAGESIZE && k < MAXSLOTS
  {
    ShortAt(m, 4078 - 4 * k)
  }

  /** Slot k holds a record that lies inside [0, freePtr). */
  ghost predicate InBounds(m: seq<byte>, k: nat)
    requires |m| == PAGESIZE && k < MAXSLOTS
  {
    1 <= Len(m, k) && 0 <= Off(m, k) && Off(m, k) + Len(m, k) <= FreePtr(m)
  }

  ghost predicate Apart(m: seq<byte>, j: nat, k: nat)
    requires |m| == PAGESIZE && j < MAXSLOTS && k < MAXSLOTS
  {
    Off(m, j) + Len(m, j) <= Off(m, k) || Off(m, k) + Len(m, k) <= Off(m, j)
  }

  ghost predicate Covers(m: seq<byte>, k: nat, b: int)
    requires |m| == PAGESIZE && k < MAXSLOTS
  {
    Len(m, k) != -1 && Off(m, k) <= b < Off(m, k) + Len(m, k)
  }

  /** The directory and the record area are sound: the record area ends at or below
      the directory, records lie inside it, and no two share a byte. */
  ghost predicate Sound(m: seq<byte>) {
    && |m| == PAGESIZE
    && 0 <= Count(m) <= MAXSLOTS
    && 0 <= FreePtr(m) && 0 <= FreeSpace(m)
    && FreePtr(m) + FreeSpace(m) + SLOTSIZE * Count(m) == REGION
    && (forall k :: 0 <= k < Count(m) && Len(m, k) != -1 ==> InBounds(m, k))
    && (forall j, k :: 0 <= j < Count(m) && 0 <= k < Count(m) && j != k && Len(m, j) != -1 && Len(m, k) != -1
          ==> Apart(m, j, k))
  }

  /** Byte b belongs to a record. */
  ghost predicate Covered(m: seq<byte>, b: int)
    requires Sound(m)
  {
    exists k :: 0 <= k < Count(m) && Covers(m, k, b)
  }

  ghost function SlotAt(m: seq<byte>, k: nat): Slot
    requires Sound(m) && k < Count(m)
  {
    if Len(m, k) == -1 then Free else Live(m[Off(m, k)..Off(m, k) + Len(m, k)])
  }

  /** The directory the bytes stand for. */
  ghost function Slots(m: seq<byte>): (s: seq<Slot>)
    requires Sound(m)
    ensures |s| == Count(m)
  {
    seq(Count(m), k requires 0 <= k < Count(m) => SlotAt(m, k))
  }

  /** No byte of the record area is wasted. */
  ghost predicate Tiled(m: seq<byte>)
    requires Sound(m)
  {
    && (forall b :: 0 <= b < FreePtr(m) ==> Covered(m, b))
    && FreePtr(m) == LiveBytes(Slots(m))
  }

  /** The page invariant. */
  ghost predicate WF(m: seq<byte>) {
    Sound(m) && Tiled(m) && Trimmed(Slots(m))
  }

  /** Where a page has what (page.h). */
  lemma PageFields(m: seq<byte>, k: nat)
    requires WF(m)
    ensures var n := |Slots(m)|;
      && ShortAt(m, 4080) == -n && ShortAt(m, 4082) + ShortAt(m, 4084) + 4 * n == 4080
      && NextPage(m) == IntAt(m, 4088) && CurPage(m) == IntAt(m, 4092) && 4 * n <= 4080
      && (k < n ==> var off, len := ShortAt(m, 4076 - 4 * k), ShortAt(m, 4078 - 4 * k);
           if len == -1 then Slots(m)[k] == Free
           else 0 <= off && 1 <= len && off + len <= ShortAt(m, 4082) && Slots(m)[k] == Live(m[off..off + len]))
  {
    hide IntAt, ShortAt, LiveBytes, Trimmed;
    Bounds(m);
    if k < |Slots(m)| {
      assert Len(m, k) != -1 ==> InBounds(m, k);
    }
  }

  /** What the code learns from the fields of a sound page. */
  lemma Bounds(m: seq<byte>)
    requires WF(m)
    ensures Sound(m) && 0 <= Count(m) <= MAXSLOTS && Count(m) == |Slots(m)|
    ensures 0 <= FreePtr(m) && FreePtr(m) + FreeSpace(m) + SLOTSIZE * Count(m) == REGION
    ensures 0 <= FreeSpace(m) == Room(Slots(m))
    ensures Count(m) > 0 ==> LiveAt(Slots(m), Count(m) - 1)
  {
  }

  /** The records tile the record area: every byte below the free pointer belongs to exactly one
      record, and no record reaches the directory that grows down towards it. */
  lemma RecordsTile(m: seq<byte>, b: int)
    requires WF(m)
    ensures 0 <= b < FreePtr(m) <==> exists k :: 0 <= k < Count(m) && Covers(m, k, b)
    ensures forall j, k :: 0 <= j < Count(m) && 0 <= k < Count(m) && Covers(m, j, b) && Covers(m, k, b) ==> j == k
    ensures forall k :: 0 <= k < Count(m) && Covers(m, k, b) ==> b < REGION - SLOTSIZE * Count(m)
  {
    if 0 <= b < FreePtr(m) {
      assert Covered(m, b);
    }
    forall k | 0 <= k < Count(m) && Covers(m, k, b)
      ensures 0 <= b < FreePtr(m) <= REGION - SLOTSIZE * Count(m)
    {
      assert InBounds(m, k);
    }
    forall j, k | 0 <= j < Count(m) && 0 <= k < Count(m) && Covers(m, j, b) && Covers(m, k, b)
      ensures j == k
    {
      assert j != k ==> Apart(m, j, k);
    }
  }

  /** What the code learns from a live slot of a sound page. */
  lemma SoundSlot(m: seq<byte>, k: nat)
    requires Sound(m) && k < Count(m) && Len(m, k) != -1
    ensures |m| == PAGESIZE && Count(m) <= MAXSLOTS
    ensures FreePtr(m) + FreeSpace(m) + SLOTSIZE * Count(m) == REGION && 0 <= FreeSpace(m)
    ensures InBounds(m, k)
  {
  }

  /** A slot is live when its length is not the free marker. */
  lemma SlotLive(m: seq<byte>, k: nat)
    requires Sound(m) && k < Count(m)
    ensures LiveAt(Slots(m), k) <==> Len(m, k) != -1
  {
    assert Slots(m)[k] == SlotAt(m, k);
  }

  /** What the code learns from reading slot k. */
  lemma ReadSlot(m: seq<byte>, k: nat)
    requires Sound(m) && k < Count(m)
    ensures LiveAt(Slots(m), k) <==> Len(m, k) != -1
    ensures Len(m, k) != -1 ==> InBounds(m, k) && Slots(m)[k] == Live(m[Off(m, k)..Off(m, k) + Len(m, k)])
  {
    assert Slots(m)[k] == SlotAt(m, k);
  }

  // ----- Insertion -----

  /** The bytes after record `r` has been put at the end of the record area under
      slot k: three fixed fields, one slot and the record changed, nothing else. */
  ghost predicate Placed(m: seq<byte>, m': seq<byte>, k: nat, r: Rec) {
    && Sound(m) && |m'| == PAGESIZE && k <= Count(m) && k < MAXSLOTS
    && FreePtr(m) + |r| + SLOTSIZE * Count(m') <= REGION
    && Count(m') == (if k == Count(m) then k + 1 else Count(m))
    && FreePtr(m') == FreePtr(m) + |r|
    && FreeSpace(m') == FreeSpace(m) - |r| - (if k == Count(m) then SLOTSIZE else 0)
    && Off(m', k) == FreePtr(m) && Len(m', k) == |r|
    && (forall b :: FreePtr(m) <= b < FreePtr(m) + |r| ==> m'[b] == r[b - FreePtr(m)])
    && forall b :: 0 <= b < PAGESIZE && !(FreePtr(m) <= b < FreePtr(m) + |r|)
         && !(4076 - 4 * k <= b < 4080 - 4 * k) && !(SLOTCNT <= b < FREESPACE + 2)
         ==> m'[b] == m[b]
  }

  lemma PlacedSlots(m: seq<byte>, m': seq<byte>, k: nat, r: Rec)
    requires Placed(m, m', k, r) && 1 <= |r|
    ensures forall j :: 0 <= j < Count(m) && j != k ==> Off(m', j) == Off(m, j) && Len(m', j) == Len(m, j)
    ensures NextPage(m') == NextPage(m) && CurPage(m') == CurPage(m)
  {
  }

  lemma PlacedSound(m: seq<byte>, m': seq<byte>, k: nat, r: Rec)
    requires Placed(m, m', k, r) && 1 <= |r|
    requires k < Count(m) ==> Len(m, k) == -1
    ensures Sound(m')
  {
    PlacedSlots(m, m', k, r);
  }

  /** Equal bytes, possibly at another offset, make equal records. */
  lemma SameBytes(m: seq<byte>, m': seq<byte>, at: int, n: int, d: int)
    requires 0 <= at && 0 <= n && at + n <= |m'| && 0 <= at + d && at + d + n <= |m|
    requires forall b :: at <= b < at + n ==> m'[b] == m[b + d]
    ensures m'[at..at + n] == m[at + d..at + d + n]
  {
  }

  /** A slot whose record lies `d` bytes lower in `m'`, byte for byte, is unchanged. */
  lemma SameSlot(m: seq<byte>, m': seq<byte>, j: nat, d: int)
    requires Sound(m) && Sound(m') && j < Count(m) && j < Count(m')
    requires Len(m', j) == Len(m, j)
    requires Len(m, j) != -1 ==> Off(m', j) + d == Off(m, j)
    requires Len(m, j) != -1 ==> forall b :: Off(m', j) <= b < Off(m', j) + Len(m, j) ==> m'[b] == m[b + d]
    ensures SlotAt(m', j) == SlotAt(m, j)
  {
    if Len(m, j) != -1 {
      assert InBounds(m, j) && InBounds(m', j);
      SameBytes(m, m', Off(m', j), Len(m, j), d);
    }
  }

  lemma PlacedSlotAt(m: seq<byte>, m': seq<byte>, k: nat, r: Rec, j: nat)
    requires Placed(m, m', k, r) && 1 <= |r| && Sound(m')
    requires j < Count(m') && j != k
    ensures j < Count(m) && SlotAt(m', j) == SlotAt(m, j)
  {
    PlacedSlots(m, m', k, r);
    assert Len(m, j) != -1 ==> InBounds(m, j);
    SameSlot(m, m', j, 0);
  }

  lemma PlacedContents(m: seq<byte>, m': seq<byte>, k: nat, r: Rec)
    requires Placed(m, m', k, r) && 1 <= |r| && Sound(m')
    requires k == LeastFree(Slots(m))
    ensures Slots(m') == Inserted(Slots(m), r)
  {
    var s, s' := Slots(m), Slots(m');
    forall j | 0 <= j < |s'| && j != k
      ensures j < |s| && s'[j] == s[j]
    {
      PlacedSlotAt(m, m', k, r, j);
    }
    assert s'[k] == SlotAt(m', k) == Live(r);
  }

  lemma PlacedTiled(m: seq<byte>, m': seq<byte>, k: nat, r: Rec, b: int)
    requires Placed(m, m', k, r) && 1 <= |r| && Sound(m')
    requires 0 <= b < FreePtr(m')
    requires b < FreePtr(m) ==> Covered(m, b)
    requires k < Count(m) ==> Len(m, k) == -1
    ensures Covered(m', b)
  {
    PlacedSlots(m, m', k, r);
    if b < FreePtr(m) {
      var j :| 0 <= j < Count(m) && Covers(m, j, b);
      assert Covers(m', j, b);
    } else {
      assert Covers(m', k, b);
    }
  }

  lemma PlacedWF(m: seq<byte>, m': seq<byte>, k: nat, r: Rec)
    requires WF(m) && Placed(m, m', k, r) && 1 <= |r|
    requires k == LeastFree(Slots(m))
    ensures WF(m') && Slots(m') == Inserted(Slots(m), r)
  {
    assert k < Count(m) ==> Slots(m)[k] == SlotAt(m, k);
    PlacedSound(m, m', k, r);
    PlacedContents(m, m', k, r);
    InsertAddsOne(Slots(m), r);
    forall b | 0 <= b < FreePtr(m')
      ensures Covered(m', b)
    {
      PlacedTiled(m, m', k, r, b);
    }
  }

  // ----- Deletion -----

  /** The bytes of `m'` are those of `m` with the `n` bytes at `at` squeezed out of
      the record area. */
  ghost predicate Squeezed(m: seq<byte>, m': seq<byte>, at: int, n: int)
    requires Sound(m)
  {
    && |m'| == PAGESIZE && 0 <= at && 0 <= n && at + n <= FreePtr(m)
    && (forall b :: 0 <= b < at ==> m'[b] == m[b])
    && (forall b :: at <= b < FreePtr(m) - n ==> m'[b] == m[b + n])
  }

  /** The distance by which the record of slot j moves down when slot k is freed. */
  ghost function Shift(m: seq<byte>, k: nat, j: nat): int
    requires |m| == PAGESIZE && k < MAXSLOTS && j < MAXSLOTS
  {
    if Off(m, j) > Off(m, k) then Len(m, k) else 0
  }

  /** Slot k of `m` has been freed, its bytes squeezed out and the offsets of the
      records that moved rewritten; the directory has not been trimmed yet. */
  ghost predicate Freed(m: seq<byte>, m': seq<byte>, k: nat) {
    && Sound(m) && |m'| == PAGESIZE && k < Count(m) && Len(m, k) != -1
    && Squeezed(m, m', Off(m, k), Len(m, k))
    && Count(m') == Count(m)
    && FreePtr(m') == FreePtr(m) - Len(m, k)
    && FreeSpace(m') == FreeSpace(m) + Len(m, k)
    && NextPage(m') == NextPage(m) && CurPage(m') == CurPage(m)
    && Len(m', k) == -1
    && (forall j :: 0 <= j < Count(m) && j != k ==> Len(m', j) == Len(m, j))
    && (forall j :: 0 <= j < Count(m) && j != k && Len(m, j) != -1 ==>
          Off(m', j) == Off(m, j) - Shift(m, k, j))
  }

  lemma FreedSound(m: seq<byte>, m': seq<byte>, k: nat)
    requires Freed(m, m', k)
    ensures Sound(m')
  {
    forall i, j | 0 <= i < Count(m) && 0 <= j < Count(m) && i != j && Len(m', i) != -1 && Len(m', j) != -1
      ensures Apart(m', i, j)
    {
      assert Apart(m, i, j) && Apart(m, i, k) && Apart(m, j, k);
    }
    forall j | 0 <= j < Count(m) && Len(m', j) != -1
      ensures InBounds(m', j)
    {
      assert InBounds(m, j) && InBounds(m, k) && Apart(m, j, k);
    }
  }

  /** Changes above the record area do not disturb the squeezed bytes. */
  lemma SqueezedMore(m: seq<byte>, m1: seq<byte>, m2: seq<byte>, at: int, n: int)
    requires Sound(m) && Squeezed(m, m1, at, n) && |m2| == PAGESIZE
    requires forall b :: 0 <= b < FreePtr(m) ==> m2[b] == m1[b]
    ensures Squeezed(m, m2, at, n)
  {
  }

  lemma SqueezedBytes(m: seq<byte>, m': seq<byte>, at: int, n: int, lo: int, len: int)
    requires Sound(m) && Squeezed(m, m', at, n) && 0 <= lo && 0 <= len
    requires (at + n <= lo && lo + len <= FreePtr(m)) || lo + len <= at
    ensures var d := if lo > at then n else 0;
      forall b :: lo - d <= b < lo - d + len ==> m'[b] == m[b + d]
  {
  }

  lemma FreedBytes(m: seq<byte>, m': seq<byte>, k: nat, j: nat)
    requires Freed(m, m', k) && j < Count(m) && j != k && Len(m, j) != -1
    ensures InBounds(m, j) && Off(m', j) + Shift(m, k, j) == Off(m, j)
    ensures forall b :: Off(m', j) <= b < Off(m', j) + Len(m, j) ==> m'[b] == m[b + Shift(m, k, j)]
  {
    hide Squeezed;
    assert InBounds(m, j) && InBounds(m, k) && Apart(m, j, k);
    SqueezedBytes(m, m', Off(m, k), Len(m, k), Off(m, j), Len(m, j));
  }

  lemma FreedSlotAt(m: seq<byte>, m': seq<byte>, k: nat, j: nat)
    requires Freed(m, m', k) && Sound(m') && j < Count(m) && j != k
    ensures SlotAt(m', j) == SlotAt(m, j)
  {
    hide Squeezed;
    if Len(m, j) != -1 {
      FreedBytes(m, m', k, j);
    }
    SameSlot(m, m', j, Shift(m, k, j));
  }

  lemma FreedContents(m: seq<byte>, m': seq<byte>, k: nat)
    requires Freed(m, m', k) && Sound(m')
    ensures Slots(m') == Slots(m)[k := Free]
  {
    var s, s' := Slots(m), Slots(m');
    forall j | 0 <= j < |s| && j != k
      ensures s'[j] == s[j]
    {
      FreedSlotAt(m, m', k, j);
    }
    assert s'[k] == SlotAt(m', k);
  }

  lemma FreedCovered(m: seq<byte>, m': seq<byte>, k: nat, b: int)
    requires Freed(m, m', k) && Sound(m') && 0 <= b < FreePtr(m')
    requires Covered(m, if b < Off(m, k) then b else b + Len(m, k))
    ensures Covered(m', b)
  {
    var c := if b < Off(m, k) then b else b + Len(m, k);
    var j :| 0 <= j < Count(m) && Covers(m, j, c);
    assert InBounds(m, j);
    assert j != k ==> Apart(m, j, k);
    assert Covers(m', j, b);
  }

  lemma FreedTiled(m: seq<byte>, m': seq<byte>, k: nat)
    requires Sound(m) && Tiled(m) && Freed(m, m', k) && Sound(m')
    ensures Tiled(m')
  {
    FreedContents(m, m', k);
    LiveBytesUpdate(Slots(m), k, Free);
    ReadSlot(m, k);
    hide Slots, SlotAt, LiveBytes, Squeezed;
    forall b | 0 <= b < FreePtr(m')
      ensures Covered(m', b)
    {
      FreedCovered(m, m', k, b);
    }
  }

  /** The bytes after record k have moved down over it and the offsets with them; the lengths and
      the bytes beyond the directory are as they were. */
  ghost predicate GapClosed(m: seq<byte>, m': seq<byte>, k: nat) {
    && Sound(m) && |m'| == PAGESIZE && k < Count(m) && Len(m, k) != -1 && Squeezed(m, m', Off(m, k), Len(m, k))
    && (forall j :: 0 <= j < Count(m) ==> Len(m', j) == Len(m, j))
    && (forall j :: 0 <= j < Count(m) && Len(m, j) != -1 ==> Off(m', j) == Off(m, j) - Shift(m, k, j))
    && (forall b :: REGION <= b < PAGESIZE ==> m'[b] == m[b])
  }

  /** The bytes of slot k have been accounted for, and the slot marked free. */
  ghost predicate SlotReleased(m: seq<byte>, m': seq<byte>, k: nat) {
    && |m| == |m'| == PAGESIZE && k < MAXSLOTS
    && FreeSpace(m') == FreeSpace(m) + Len(m, k) && FreePtr(m') == FreePtr(m) - Len(m, k) && Len(m', k) == -1
    && (forall b :: 0 <= b < PAGESIZE && !(4076 - 4 * k <= b < 4080 - 4 * k) && !(FREEPTR <= b < FREESPACE + 2) ==>
          m'[b] == m[b])
  }

  /** Both together free the slot. */
  lemma GapAndRelease(m: seq<byte>, m1: seq<byte>, m': seq<byte>, k: nat)
    requires GapClosed(m, m1, k) && SlotReleased(m1, m', k)
    ensures Freed(m, m', k)
  {
    hide Sound, ShortOf, IntOf, Shift;
    SoundSlot(m, k);
    SqueezedMore(m, m1, m', Off(m, k), Len(m, k));
  }

  lemma GapFacts(m: seq<byte>, m1: seq<byte>, k: nat)
    requires GapClosed(m, m1, k)
    ensures |m1| == PAGESIZE && k < MAXSLOTS && 0 <= Len(m1, k) <= FreePtr(m1) && 0 <= FreeSpace(m1)
    ensures FreePtr(m1) + FreeSpace(m1) <= REGION
  {
    hide Sound, Shift, ShortOf;
    SoundSlot(m, k);
  }

  /** There is no gap behind the physically last record. */
  lemma NoGap(m: seq<byte>, k: nat)
    requires Sound(m) && k < Count(m) && Len(m, k) != -1 && Off(m, k) + Len(m, k) == FreePtr(m)
    ensures GapClosed(m, m, k)
  {
    hide Sound, Shift, ShortOf;
    SoundSlot(m, k);
    LastMovesNone(m, k);
  }

  /** A record that ends the record area has none beyond it, so freeing it moves nothing. */
  lemma LastMovesNone(m: seq<byte>, k: nat)
    requires Sound(m) && k < Count(m) && Len(m, k) != -1
    requires Off(m, k) + Len(m, k) == FreePtr(m)
    ensures forall j :: 0 <= j < Count(m) && Len(m, j) != -1 ==> Shift(m, k, j) == 0
  {
    forall j | 0 <= j < Count(m) && Len(m, j) != -1
      ensures Shift(m, k, j) == 0
    {
      assert InBounds(m, j) && InBounds(m, k);
      assert j != k ==> Apart(m, j, k);
    }
  }

  lemma FreedPage(m: seq<byte>, m': seq<byte>, k: nat)
    requires WF(m) && Freed(m, m', k)
    ensures Sound(m') && Tiled(m') && LiveAt(Slots(m), k) && Slots(m') == Slots(m)[k := Free]
    ensures forall j :: 0 <= j < Count(m) && j != k ==> Len(m', j) == Len(m, j)
  {
    FreedSound(m, m', k);
    FreedContents(m, m', k);
    FreedTiled(m, m', k);
    SlotLive(m, k);
  }

  // ----- Trimming the directory -----

  /** `m'` is `m` with the directory cut down to its first n entries. */
  ghost predicate Cut(m: seq<byte>, m': seq<byte>, n: nat) {
    && |m| == PAGESIZE && |m'| == PAGESIZE && n <= Count(m)
    && Count(m') == n
    && FreeSpace(m') == FreeSpace(m) + SLOTSIZE * (Count(m) - n)
    && FreePtr(m') == FreePtr(m) && CurPage(m') == CurPage(m)
    && (forall k :: 0 <= k < REGION ==> m'[k] == m[k])
  }

  lemma CutSound(m: seq<byte>, m': seq<byte>, n: nat)
    requires Sound(m) && Cut(m, m', n)
    ensures Sound(m')
    ensures forall k :: 0 <= k < n ==> Off(m', k) == Off(m, k) && Len(m', k) == Len(m, k)
  {
    assert forall k :: 0 <= k < n ==> Off(m', k) == Off(m, k) && Len(m', k) == Len(m, k);
    forall j, k | 0 <= j < n && 0 <= k < n && j != k && Len(m', j) != -1 && Len(m', k) != -1
      ensures Apart(m', j, k)
    {
      assert Apart(m, j, k);
    }
    forall k | 0 <= k < n && Len(m', k) != -1
      ensures InBounds(m', k)
    {
      assert InBounds(m, k);
    }
  }

  lemma CutSlots(m: seq<byte>, m': seq<byte>, n: nat)
    requires Sound(m) && Cut(m, m', n) && Sound(m')
    ensures Slots(m') == Slots(m)[..n]
  {
    CutSound(m, m', n);
    forall k | 0 <= k < n
      ensures Slots(m')[k] == Slots(m)[k]
    {
      assert Len(m, k) != -1 ==> InBounds(m, k);
      SameSlot(m, m', k, 0);
    }
  }

  lemma {:induction false} TrimIsPrefix(s: seq<Slot>, n: nat)
    requires n <= |s| && Trimmed(s[..n])
    requires forall k :: n <= k < |s| ==> s[k].Free?
    ensures Trim(s) == s[..n]
  {
    if n < |s| {
      assert s[..|s| - 1][..n] == s[..n];
      TrimIsPrefix(s[..|s| - 1], n);
    } else {
      assert s[..n] == s;
    }
  }

  /** Keeping the extent of every record keeps the bytes they cover. */
  lemma SameCover(m: seq<byte>, m': seq<byte>)
    requires Sound(m) && Sound(m') && Count(m') <= Count(m)
    requires forall j :: 0 <= j < Count(m') ==> Off(m', j) == Off(m, j) && Len(m', j) == Len(m, j)
    requires forall j :: Count(m') <= j < Count(m) ==> Len(m, j) == -1
    ensures forall b :: 0 <= b < FreePtr(m) && Covered(m, b) ==> Covered(m', b)
  {
    forall b | 0 <= b < FreePtr(m) && Covered(m, b)
      ensures Covered(m', b)
    {
      var j :| 0 <= j < Count(m) && Covers(m, j, b);
      assert Covers(m', j, b);
    }
  }

  lemma CutWF(m: seq<byte>, m': seq<byte>, n: nat)
    requires Sound(m) && Tiled(m) && Cut(m, m', n)
    requires forall k :: n <= k < Count(m) ==> Len(m, k) == -1
    requires n > 0 ==> Len(m, n - 1) != -1
    ensures WF(m') && Slots(m') == Trim(Slots(m))
  {
    hide Slots, SlotAt, LiveBytes, Covered, ShortOf, IntOf;
    var s := Slots(m);
    CutSound(m, m', n);
    CutSlots(m, m', n);
    if n > 0 {
      SlotLive(m, n - 1);
    }
    forall k | n <= k < |s|
      ensures s[k].Free?
    {
      SlotLive(m, k);
    }
    TrimIsPrefix(s, n);
    LiveBytesTrim(s);
    SameCover(m, m');
  }

  lemma SoundCount(m: seq<byte>)
    requires Sound(m)
    ensures |m| == PAGESIZE && 0 <= Count(m) <= MAXSLOTS
    ensures 0 <= FreeSpace(m) && FreePtr(m) + FreeSpace(m) + SLOTSIZE * Count(m) == REGION && 0 <= FreePtr(m)
  {
  }

  /** Freeing a slot other than the last leaves a trimmed directory. */
  lemma NothingToTrim(m: seq<byte>, m': seq<byte>, k: nat)
    requires WF(m) && Sound(m') && Tiled(m') && k < Count(m) - 1 && Slots(m') == Slots(m)[k := Free]
    ensures WF(m') && Slots(m') == Trim(Slots(m'))
  {
    TrimIsPrefix(Slots(m'), Count(m));
  }

  // ----- Update in place -----

  /** Record k of `m` has had its first |r| bytes overwritten. */
  ghost predicate Overwritten(m: seq<byte>, m': seq<byte>, k: nat, r: Rec) {
    && Sound(m) && |m'| == PAGESIZE && k < Count(m) && Len(m, k) != -1 && |r| <= Len(m, k)
    && (forall b :: Off(m, k) <= b < Off(m, k) + |r| ==> m'[b] == r[b - Off(m, k)])
    && (forall b :: 0 <= b < PAGESIZE && !(Off(m, k) <= b < Off(m, k) + |r|) ==> m'[b] == m[b])
  }

  lemma OverwrittenFields(m: seq<byte>, m': seq<byte>, k: nat, r: Rec)
    requires Overwritten(m, m', k, r)
    ensures Sound(m') && Count(m') == Count(m) && FreePtr(m') == FreePtr(m) && FreeSpace(m') == FreeSpace(m)
    ensures NextPage(m') == NextPage(m) && CurPage(m') == CurPage(m)
    ensures forall j :: 0 <= j < Count(m) ==> Off(m', j) == Off(m, j) && Len(m', j) == Len(m, j)
  {
    assert InBounds(m, k);
    forall i, j | 0 <= i < Count(m) && 0 <= j < Count(m) && i != j && Len(m, i) != -1 && Len(m, j) != -1
      ensures Apart(m', i, j)
    {
      assert Apart(m, i, j);
    }
    forall j | 0 <= j < Count(m) && Len(m, j) != -1
      ensures InBounds(m', j)
    {
      assert InBounds(m, j);
    }
  }

  lemma OverwrittenOther(m: seq<byte>, m': seq<byte>, k: nat, r: Rec, j: nat)
    requires Overwritten(m, m', k, r) && Sound(m') && j < Count(m) && j != k && Count(m') == Count(m)
    requires Off(m', j) == Off(m, j) && Len(m', j) == Len(m, j)
    ensures SlotAt(m', j) == SlotAt(m, j)
  {
    assert InBounds(m, k);
    assert Len(m, j) != -1 ==> InBounds(m, j) && Apart(m, j, k);
    SameSlot(m, m', j, 0);
  }

  lemma OverwrittenItself(m: seq<byte>, m': seq<byte>, at: int, n: int, r: Rec)
    requires |m'| == |m| && 0 <= at && |r| <= n && at + n <= |m|
    requires forall b :: at <= b < at + |r| ==> m'[b] == r[b - at]
    requires forall b :: at + |r| <= b < at + n ==> m'[b] == m[b]
    ensures m'[at..at + n] == r + m[at..at + n][|r|..]
  {
    SameBytes(m, m', at + |r|, n - |r|, 0);
    assert m'[at..at + |r|] == r;
    assert m'[at..at + n] == m'[at..at + |r|] + m'[at + |r|..at + n];
    assert m[at..at + n][|r|..] == m[at + |r|..at + n];
  }

  lemma OverwrittenSlots(m: seq<byte>, m': seq<byte>, k: nat, r: Rec)
    requires Overwritten(m, m', k, r) && Sound(m')
    ensures LiveAt(Slots(m), k) && |r| <= |Slots(m)[k].rec|
    ensures Slots(m') == Updated(Slots(m), k, r + Slots(m)[k].rec[|r|..])
  {
    var s, s' := Slots(m), Slots(m');
    OverwrittenFields(m, m', k, r);
    assert InBounds(m, k);
    OverwrittenItself(m, m', Off(m, k), Len(m, k), r);
    assert s[k] == SlotAt(m, k) && s'[k] == SlotAt(m', k);
    hide Overwritten;
    forall j | 0 <= j < |s| && j != k
      ensures s'[j] == s[j]
    {
      OverwrittenOther(m, m', k, r, j);
    }
  }

  lemma OverwrittenWF(m: seq<byte>, m': seq<byte>, k: nat, r: Rec)
    requires WF(m) && Overwritten(m, m', k, r)
    ensures WF(m') && LiveAt(Slots(m), k)
    ensures Slots(m') == Updated(Slots(m), k, r + Slots(m)[k].rec[|r|..])
  {
    hide Overwritten, LiveBytes, Covered, Slots, SlotAt, IntAt, Off, Len, InBounds, Apart;
    var s := Slots(m);
    OverwrittenFields(m, m', k, r);
    OverwrittenSlots(m, m', k, r);
    LiveBytesUpdate(s, k, Live(r + s[k].rec[|r|..]));
    SameCover(m, m');
  }

  // ----- The page chain -----

  /** Changing nothing but the forward link keeps the page. */
  lemma OverwrittenLink(m: seq<byte>, m': seq<byte>)
    requires WF(m) && |m'| == PAGESIZE
    requires forall b :: 0 <= b < PAGESIZE && !(NEXTPAGE <= b < CURPAGE) ==> m'[b] == m[b]
    ensures WF(m') && Slots(m') == Slots(m) && CurPage(m') == CurPage(m)
  {
    assert Cut(m, m', Count(m));
    assert Count(m) > 0 ==> Slots(m)[Count(m) - 1] == SlotAt(m, Count(m) - 1);
    CutWF(m, m', Count(m));
  }
}
