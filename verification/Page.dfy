/** The slotted page of page.C, working in place on its 4096 bytes. */
module Pages {
  import opened Bytes
  import opened StatusCodes
  import opened PageSpec
  import opened PageLayout

  class Page {
    const mem: array<byte>

    ghost predicate Sized() { mem.Length == PAGESIZE }

    constructor ()
      ensures Sized() && fresh(mem)
    {
      mem := new byte[PAGESIZE](i => 0);
    }

    /** Reads the short at `off`. */
    function Short(off: nat): (v: int)
      requires off + 2 <= mem.Length
      reads mem
      ensures v == ShortAt(mem[..], off)
    {
      ShortOf(mem[off], mem[off + 1])
    }

    function Int(off: nat): (v: int)
      requires off + 4 <= mem.Length
      reads mem
      ensures v == IntAt(mem[..], off)
    {
      IntOf(mem[off], mem[off + 1], mem[off + 2], mem[off + 3])
    }

    method SetShort(off: nat, v: int)
      requires off + 2 <= mem.Length && -0x8000 <= v < 0x8000
      modifies mem
      ensures Short(off) == v
      ensures forall b :: 0 <= b < mem.Length && !(off <= b < off + 2) ==> mem[b] == old(mem[b])
    {
      ShortRoundTrip(v);
      mem[off] := LowByte(v);
      mem[off + 1] := HighByte(v);
    }

    method SetInt(off: nat, v: int)
      requires off + 4 <= mem.Length && -0x8000_0000 <= v < 0x8000_0000
      modifies mem
      ensures mem[..] == PutInt(old(mem[..]), off, v)
    {
      IntRoundTrip(v);
      mem[off] := LowByte(v);
      mem[off + 1] := HighByte(v);
      mem[off + 2] := Byte2(v);
      mem[off + 3] := Byte3(v);
    }

    /** memcpy of a record into the page. */
    method CopyIn(at: nat, r: Rec)
      requires at + |r| <= mem.Length
      modifies mem
      ensures forall b :: at <= b < at + |r| ==> mem[b] == r[b - at]
      ensures forall b :: 0 <= b < mem.Length && !(at <= b < at + |r|) ==> mem[b] == old(mem[b])
    {
      for i := 0 to |r|
        invariant forall b :: at <= b < at + i ==> mem[b] == r[b - at]
        invariant forall b :: 0 <= b < mem.Length && !(at <= b < at + |r|) ==> mem[b] == old(mem[b])
      {
        mem[at + i] := r[i];
      }
    }

    /** bcopy of `cnt` bytes from `src` down to `dst`, overlapping or not. */
    method ShiftDown(src: nat, dst: nat, cnt: nat)
      requires dst <= src && src + cnt <= mem.Length
      modifies mem
      ensures forall b :: dst <= b < dst + cnt ==> mem[b] == old(mem[b + (src - dst)])
      ensures forall b :: 0 <= b < mem.Length && !(dst <= b < dst + cnt) ==> mem[b] == old(mem[b])
    {
      for i := 0 to cnt
        invariant forall b :: dst <= b < dst + i ==> mem[b] == old(mem[b + (src - dst)])
        invariant forall b :: 0 <= b < mem.Length && !(dst <= b < dst + i) ==> mem[b] == old(mem[b])
      {
        mem[dst + i] := mem[src + i];
      }
    }

    /** A whole page read into the frame. */
    method Load(b: seq<byte>)
      requires Sized() && |b| == PAGESIZE
      modifies mem
      ensures mem[..] == b
    {
      forall i | 0 <= i < PAGESIZE {
        mem[i] := b[i];
      }
    }

    /** Page::init: an empty directory; the record bytes are left as they are. */
    method Init(pageNo: int)
      requires Sized() && -0x8000_0000 <= pageNo < 0x8000_0000
      modifies mem
      ensures WF(mem[..]) && Slots(mem[..]) == []
      ensures NextPage(mem[..]) == -1 && CurPage(mem[..]) == pageNo
    {
      SetInt(NEXTPAGE, -1);
      SetShort(SLOTCNT, 0);
      SetInt(CURPAGE, pageNo);
      SetShort(FREEPTR, 0);
      SetShort(FREESPACE, REGION);
      assert Count(mem[..]) == Short(SLOTCNT) == 0;
      assert FreePtr(mem[..]) == Short(FREEPTR) == 0;
      assert FreeSpace(mem[..]) == Short(FREESPACE);
    }

    method SetNextPage(pageNo: int)
      requires Sized() && WF(mem[..]) && -0x8000_0000 <= pageNo < 0x8000_0000
      modifies mem
      ensures WF(mem[..]) && Slots(mem[..]) == old(Slots(mem[..]))
      ensures NextPage(mem[..]) == pageNo && CurPage(mem[..]) == old(CurPage(mem[..]))
    {
      ghost var m := mem[..];
      SetInt(NEXTPAGE, pageNo);
      OverwrittenLink(m, mem[..]);
    }

    function GetFreeSpace(): (v: int)
      requires Sized() && WF(mem[..])
      reads mem
      ensures v == Room(Slots(mem[..]))
    {
      Short(FREESPACE)
    }

    /** The first free slot, as the directory scan of insertRecord finds it. */
    method FindSlot() returns (i: int)
      requires Sized() && WF(mem[..])
      ensures i <= 0 && -i == LeastFree(Slots(mem[..]))
    {
      hide WF, Sound, Slots, SlotAt, LiveBytes, Room;
      Bounds(mem[..]);
      ghost var s := Slots(mem[..]);
      i := 0;
      while i > Short(SLOTCNT)
        invariant Short(SLOTCNT) <= i <= 0
        invariant LeastFree(s) == NextFree(s, -i)
      {
        SlotLive(mem[..], -i);
        if Short(4078 + 4 * i) == -1 {
          break;
        } else {
          i := i - 1;
        }
      }
    }

    method SetSlot(k: nat, offset: int, length: int)
      requires Sized() && k < MAXSLOTS && -0x8000 <= offset < 0x8000 && -0x8000 <= length < 0x8000
      modifies mem
      ensures Off(mem[..], k) == offset && Len(mem[..], k) == length
      ensures forall b :: 0 <= b < PAGESIZE && !(4076 - 4 * k <= b < 4080 - 4 * k) ==> mem[b] == old(mem[b])
    {
      SetShort(4076 - 4 * k, offset);
      ghost var m := mem[..];
      SetShort(4078 - 4 * k, length);
      assert Off(mem[..], k) == Off(m, k);
    }

    /** The second half of insertRecord: fill slot -i and copy the record in. */
    method PutRecord(i: int, rec: Rec, ghost m: seq<byte>)
      requires Sized() && Sound(m) && 0 <= -i <= Count(m) && -i < MAXSLOTS
      requires FreePtr(m) + |rec| + SLOTSIZE * Count(mem[..]) <= REGION
      requires Count(mem[..]) == (if -i == Count(m) then -i + 1 else Count(m))
      requires FreeSpace(mem[..]) == FreeSpace(m) - |rec| - (if -i == Count(m) then SLOTSIZE else 0)
      requires forall b :: 0 <= b < PAGESIZE && !(SLOTCNT <= b < FREEPTR) && !(FREESPACE <= b < FREESPACE + 2) ==>
        mem[b] == m[b]
      modifies mem
      ensures Placed(m, mem[..], -i, rec)
    {
      hide Sound, ShortOf, IntOf;
      SoundCount(m);
      assert Short(FREEPTR) == FreePtr(m);
      SetSlot(-i, Short(FREEPTR), |rec|);
      assert Short(FREEPTR) == FreePtr(m);
      ghost var m1 := mem[..];
      CopyIn(Short(FREEPTR), rec);
      assert Short(FREEPTR) == FreePtr(m);
      SetShort(FREEPTR, Short(FREEPTR) + |rec|);
      assert Off(mem[..], -i) == Off(m1, -i) && Len(mem[..], -i) == Len(m1, -i);
    }

    /** Page::insertRecord.  It succeeds exactly when the record, and a directory entry
        if no free slot can be reused, fit in what the live records leave over. */
    method InsertRecord(rec: Rec) returns (status: Status, rid: RID)
      requires Sized() && WF(mem[..])
      requires 1 <= |rec|
      modifies mem
      ensures status == if InsertCost(old(Slots(mem[..])), rec) <= Room(old(Slots(mem[..]))) then OK else NOSPACE
      ensures status == NOSPACE ==> mem[..] == old(mem[..]) && rid == NULLRID
      ensures WF(mem[..])
      ensures status == OK ==> Slots(mem[..]) == Inserted(old(Slots(mem[..])), rec)
      ensures status == OK ==> rid == RID(CurPage(mem[..]), LeastFree(old(Slots(mem[..]))))
      ensures CurPage(mem[..]) == old(CurPage(mem[..])) && NextPage(mem[..]) == old(NextPage(mem[..]))
    {
      hide WF, Sound, Slots, SlotAt, LiveBytes, Room, Placed;
      Bounds(mem[..]);
      ghost var m := mem[..];
      rid := NULLRID;
      var i := FindSlot();
      if i == Short(SLOTCNT) {
        // a new slot
        if |rec| + SLOTSIZE > Short(FREESPACE) {
          return NOSPACE, rid;
        }
        SetShort(FREESPACE, Short(FREESPACE) - (|rec| + SLOTSIZE));
        SetShort(SLOTCNT, Short(SLOTCNT) - 1);
      } else {
        // an existing slot
        if |rec| > Short(FREESPACE) {
          return NOSPACE, rid;
        }
        SetShort(FREESPACE, Short(FREESPACE) - |rec|);
      }
      PutRecord(i, rec, m);
      PlacedWF(m, mem[..], -i, rec);
      PlacedSlots(m, mem[..], -i, rec);
      rid := RID(Int(CURPAGE), -i);
      return OK, rid;
    }

    /** The front of the record of slot k overwritten in place. */
    method Overwrite(k: nat, rec: Rec)
      requires Sized() && Sound(mem[..]) && k < Count(mem[..]) && Len(mem[..], k) != -1 && |rec| <= Len(mem[..], k)
      modifies mem
      ensures Overwritten(old(mem[..]), mem[..], k, rec)
    {
      hide Sound, ShortOf;
      SoundSlot(mem[..], k);
      CopyIn(Short(4076 - 4 * k), rec);
    }

    /** Page::updateRecord: overwrites the front of the record in place.  The
        caller must not bring more bytes than the record holds. */
    method UpdateRecord(rec: Rec, rid: RID) returns (status: Status)
      requires Sized() && WF(mem[..]) && 0 <= rid.slotNo
      requires LiveAt(Slots(mem[..]), rid.slotNo) ==> |rec| <= |Slots(mem[..])[rid.slotNo].rec|
      modifies mem
      ensures status == if old(LiveAt(Slots(mem[..]), rid.slotNo)) then OK else INVALIDSLOTNO
      ensures status != OK ==> mem[..] == old(mem[..])
      ensures WF(mem[..])
      ensures status == OK ==>
        Slots(mem[..]) == old(Updated(Slots(mem[..]), rid.slotNo, rec + Slots(mem[..])[rid.slotNo].rec[|rec|..]))
      ensures CurPage(mem[..]) == old(CurPage(mem[..])) && NextPage(mem[..]) == old(NextPage(mem[..]))
    {
      hide WF, Sound, Slots, SlotAt, LiveBytes, Room, Overwritten, ShortOf, IntOf;
      Bounds(mem[..]);
      ghost var m := mem[..];
      var slotNo := -rid.slotNo;
      if slotNo <= Short(SLOTCNT) {
        return INVALIDSLOTNO;
      }
      ReadSlot(m, -slotNo);
      if Short(4078 + 4 * slotNo) == -1 {
        return INVALIDSLOTNO;
      }
      Overwrite(-slotNo, rec);
      OverwrittenFields(m, mem[..], -slotNo, rec);
      OverwrittenWF(m, mem[..], -slotNo, rec);
      return OK;
    }

    /** Page::firstRecord: the least live slot. */
    method FirstRecord() returns (status: Status, rid: RID)
      requires Sized() && WF(mem[..])
      ensures var s := Slots(mem[..]); var k := NextLive(s, 0);
        if k < |s| then status == OK && rid == RID(CurPage(mem[..]), k)
        else status == NORECORDS && rid == NULLRID
    {
      hide WF, Sound, Slots, SlotAt, LiveBytes, Room;
      Bounds(mem[..]);
      ghost var s := Slots(mem[..]);
      rid := NULLRID;
      if Short(SLOTCNT) == 0 {
        return NORECORDS, rid;
      }
      var i := 0;
      while i > Short(SLOTCNT)
        invariant Short(SLOTCNT) <= i <= 0
        invariant forall j :: 0 <= j < -i ==> !LiveAt(s, j)
      {
        SlotLive(mem[..], -i);
        if Short(4078 + 4 * i) != -1 {
          rid := RID(Int(CURPAGE), -i);
          break;
        }
        i := i - 1;
      }
      return OK, rid;
    }

    /** Page::nextRecord: the least live slot after the given one. */
    method NextRecord(cur: RID) returns (status: Status, rid: RID)
      requires Sized() && WF(mem[..]) && 0 <= cur.slotNo
      ensures var s := Slots(mem[..]); var k := cur.slotNo + 1;
        if k < |s| && NextLive(s, k) < |s| then status == OK && rid == RID(CurPage(mem[..]), NextLive(s, k))
        else status == ENDOFPAGE && rid == NULLRID
    {
      hide LiveAt, Trimmed, WF, Sound, Slots, SlotAt, LiveBytes, Room;
      Bounds(mem[..]);
      ghost var s := Slots(mem[..]);
      ghost var k := cur.slotNo + 1;
      rid := NULLRID;
      var i := -(cur.slotNo + 1);
      while i > Short(SLOTCNT)
        invariant i <= -k
        invariant -|s| <= -k ==> -|s| <= i && forall j :: k <= j < -i ==> !LiveAt(s, j)
      {
        SlotLive(mem[..], -i);
        if Short(4078 + 4 * i) != -1 {
          rid := RID(Int(CURPAGE), -i);
          return OK, rid;
        }
        i := i - 1;
      }
      return ENDOFPAGE, rid;
    }

    /** Page::getRecord, for a slot number inside the directory. */
    method GetRecord(rid: RID) returns (status: Status, rec: Rec)
      requires Sized() && WF(mem[..]) && 0 <= rid.slotNo < |Slots(mem[..])|
      ensures var slot := Slots(mem[..])[rid.slotNo];
        if slot.Live? then status == OK && rec == slot.rec else status == INVALIDSLOTNO && rec == []
    {
      hide WF, Sound, Slots, SlotAt, LiveBytes, Room;
      Bounds(mem[..]);
      var i := -rid.slotNo;
      ghost var k := rid.slotNo;
      ReadSlot(mem[..], k);
      if Short(4078 + 4 * i) == -1 {
        return INVALIDSLOTNO, [];
      }
      var offset, length := Short(4076 + 4 * i), Short(4078 + 4 * i);
      return OK, mem[offset..offset + length];
    }

    /** The loop of deleteRecord that moves down the offsets of the records beyond
        slot k.  `m` is the page before its bytes were moved. */
    method RewriteOffsets(k: nat, ghost m: seq<byte>)
      requires Sized() && Sound(m) && k < Count(m) && Len(m, k) != -1
      requires Count(mem[..]) == Count(m)
      requires forall j :: 0 <= j < Count(m) ==> Off(mem[..], j) == Off(m, j) && Len(mem[..], j) == Len(m, j)
      modifies mem
      ensures forall j :: 0 <= j < Count(m) ==> Len(mem[..], j) == Len(m, j)
      ensures forall j :: 0 <= j < Count(m) && Len(m, j) != -1 ==> Off(mem[..], j) == Off(m, j) - Shift(m, k, j)
      ensures forall b :: 0 <= b < PAGESIZE && !(REGION - 4 * Count(m) <= b < REGION) ==> mem[b] == old(mem[b])
    {
      hide Sound, Shift, ShortOf;
      SoundSlot(m, k);
      ghost var n := Count(m);
      var i := 0;
      while i > Short(SLOTCNT)
        invariant -n <= i <= 0 && Short(SLOTCNT) == -n
        invariant forall j :: 0 <= j < n ==> Len(mem[..], j) == Len(m, j)
        invariant Off(mem[..], k) == Off(m, k)
        invariant forall j :: 0 <= j < -i && Len(m, j) != -1 ==> Off(mem[..], j) == Off(m, j) - Shift(m, k, j)
        invariant forall j :: -i <= j < n ==> Off(mem[..], j) == Off(m, j)
        invariant forall b :: 0 <= b < PAGESIZE && !(REGION - 4 * n <= b < REGION) ==> mem[b] == old(mem[b])
        decreases n + i
      {
        RewriteOffset(-i, k, m);
        i := i - 1;
      }
    }

    method RewriteOffset(j: nat, k: nat, ghost m: seq<byte>)
      requires Sized() && Sound(m) && k < Count(m) && Len(m, k) != -1 && j < Count(m)
      requires Off(mem[..], k) == Off(m, k) && Off(mem[..], j) == Off(m, j)
      requires Len(mem[..], k) == Len(m, k) && Len(mem[..], j) == Len(m, j)
      modifies mem
      ensures Len(m, j) != -1 ==> Off(mem[..], j) == Off(m, j) - Shift(m, k, j)
      ensures j == k ==> Off(mem[..], j) == Off(m, j)
      ensures forall b :: 0 <= b < PAGESIZE && !(4076 - 4 * j <= b < 4078 - 4 * j) ==> mem[b] == old(mem[b])
    {
      assert InBounds(m, k);
      assert Len(m, j) != -1 ==> InBounds(m, j);
      if Short(4078 - 4 * j) >= 0 && Short(4076 - 4 * j) > Short(4076 - 4 * k) {
        SetShort(4076 - 4 * j, Short(4076 - 4 * j) - Short(4078 - 4 * k));
      }
    }

    /** The tail both branches of deleteRecord share: account for the bytes of slot k
        and mark it free. */
    method ReleaseSlot(k: nat)
      requires Sized() && k < MAXSLOTS
      requires 0 <= Len(mem[..], k) <= FreePtr(mem[..]) && 0 <= FreeSpace(mem[..])
      requires FreePtr(mem[..]) + FreeSpace(mem[..]) <= REGION
      modifies mem
      ensures SlotReleased(old(mem[..]), mem[..], k)
    {
      ghost var m := mem[..];
      SetShort(FREESPACE, Short(FREESPACE) + Short(4078 - 4 * k));
      assert Len(mem[..], k) == Len(m, k) && FreePtr(mem[..]) == FreePtr(m);
      ghost var m1 := mem[..];
      SetShort(FREEPTR, Short(FREEPTR) - Short(4078 - 4 * k));
      assert FreeSpace(mem[..]) == FreeSpace(m1);
      ghost var m2 := mem[..];
      SetSlot(k, -1, -1);
      assert FreeSpace(mem[..]) == FreeSpace(m2) && FreePtr(mem[..]) == FreePtr(m2);
    }

    /** The branch of deleteRecord for a record with others after it: close the gap. */
    method CloseGap(k: nat)
      requires Sized() && Sound(mem[..]) && k < Count(mem[..]) && Len(mem[..], k) != -1
      modifies mem
      ensures GapClosed(old(mem[..]), mem[..], k)
    {
      hide Sound, ShortOf, Shift;
      SoundSlot(mem[..], k);
      ghost var m := mem[..];
      var thisOffset := Short(4076 - 4 * k);
      var nextOffset := Short(4076 - 4 * k) + Short(4078 - 4 * k);
      var cnt := Short(FREEPTR) - nextOffset;
      ShiftDown(nextOffset, thisOffset, cnt);
      assert forall j :: 0 <= j < Count(m) ==> Off(mem[..], j) == Off(m, j) && Len(mem[..], j) == Len(m, j);
      assert Squeezed(m, mem[..], thisOffset, Len(m, k));
      ghost var m1 := mem[..];
      RewriteOffsets(k, m);
      SqueezedMore(m, m1, mem[..], thisOffset, Len(m, k));
    }

    /** The loop of deleteRecord that drops free slots from the end of the directory.
        It runs when the slot just freed was the last one. */
    method TrimDirectory()
      requires Sized() && Sound(mem[..]) && Tiled(mem[..])
      requires 0 < Count(mem[..]) && Len(mem[..], Count(mem[..]) - 1) == -1
      modifies mem
      ensures WF(mem[..]) && Slots(mem[..]) == Trim(old(Slots(mem[..])))
      ensures CurPage(mem[..]) == old(CurPage(mem[..])) && NextPage(mem[..]) == old(NextPage(mem[..]))
    {
      hide Sound, Tiled, Slots, SlotAt, LiveBytes, Room, Trim, ShortOf, IntOf;
      ghost var m := mem[..];
      SoundCount(m);
      DropSlot();
      while Short(SLOTCNT) < 0 && Short(4078 + 4 * (Short(SLOTCNT) + 1)) == -1
        invariant 0 <= Count(mem[..]) < Count(m) && Cut(m, mem[..], Count(mem[..]))
        invariant NextPage(mem[..]) == NextPage(m)
        invariant forall k :: Count(mem[..]) <= k < Count(m) ==> Len(m, k) == -1
        decreases Count(mem[..])
      {
        assert Len(mem[..], Count(mem[..]) - 1) == Len(m, Count(mem[..]) - 1);
        DropSlot();
      }
      assert Count(mem[..]) > 0 ==> Len(mem[..], Count(mem[..]) - 1) == Len(m, Count(mem[..]) - 1);
      CutWF(m, mem[..], Count(mem[..]));
    }

    method DropSlot()
      requires Sized() && 0 < Count(mem[..]) <= MAXSLOTS
      requires 0 <= FreeSpace(mem[..]) <= REGION
      modifies mem
      ensures Count(mem[..]) == old(Count(mem[..])) - 1
      ensures FreeSpace(mem[..]) == old(FreeSpace(mem[..])) + SLOTSIZE
      ensures FreePtr(mem[..]) == old(FreePtr(mem[..]))
      ensures CurPage(mem[..]) == old(CurPage(mem[..])) && NextPage(mem[..]) == old(NextPage(mem[..]))
      ensures forall b :: 0 <= b < REGION ==> mem[b] == old(mem[b])
    {
      hide ShortOf, IntOf;
      ghost var m := mem[..];
      SetShort(SLOTCNT, Short(SLOTCNT) + 1);
      assert FreeSpace(mem[..]) == FreeSpace(m);
      SetShort(FREESPACE, Short(FREESPACE) + SLOTSIZE);
    }

    /** The compaction of deleteRecord: frees slot k, leaving the directory untrimmed. */
    method FreeSlot(k: nat)
      requires Sized() && Sound(mem[..]) && k < Count(mem[..]) && Len(mem[..], k) != -1
      modifies mem
      ensures Freed(old(mem[..]), mem[..], k)
    {
      hide Sound, ShortOf, IntOf, GapClosed, SlotReleased, Freed;
      ghost var m := mem[..];
      SoundSlot(m, k);
      if Short(4076 - 4 * k) + Short(4078 - 4 * k) == Short(FREEPTR) {
        // physically the last record: nothing to move
        NoGap(m, k);
        GapFacts(m, m, k);
        ReleaseSlot(k);
        GapAndRelease(m, m, mem[..], k);
      } else {
        CloseGap(k);
        ghost var m1 := mem[..];
        GapFacts(m, m1, k);
        ReleaseSlot(k);
        GapAndRelease(m, m1, mem[..], k);
      }
    }

    /** Page::deleteRecord. */
    method DeleteRecord(rid: RID) returns (status: Status)
      requires Sized() && WF(mem[..]) && 0 <= rid.slotNo
      modifies mem
      ensures status == if old(LiveAt(Slots(mem[..]), rid.slotNo)) then OK else INVALIDSLOTNO
      ensures status != OK ==> mem[..] == old(mem[..])
      ensures WF(mem[..])
      ensures status == OK ==> Slots(mem[..]) == Deleted(old(Slots(mem[..])), rid.slotNo)
      ensures CurPage(mem[..]) == old(CurPage(mem[..])) && NextPage(mem[..]) == old(NextPage(mem[..]))
    {
      hide WF, Sound, Tiled, Slots, SlotAt, LiveBytes, Room, Trim, ShortOf, IntOf;
      Bounds(mem[..]);
      ghost var m := mem[..];
      var slotNo := -rid.slotNo;
      if slotNo <= Short(SLOTCNT) {
        return INVALIDSLOTNO;
      }
      SlotLive(m, rid.slotNo);
      if Short(4078 + 4 * slotNo) == -1 {
        return INVALIDSLOTNO;
      }
      FreeSlot(-slotNo);
      FreedPage(m, mem[..], rid.slotNo);
      if slotNo == Short(SLOTCNT) + 1 {
        TrimDirectory();
      } else {
        NothingToTrim(m, mem[..], rid.slotNo);
      }
      return OK;
    }
  }
}
