/** What a slotted page means, without its bytes: a directory of slots, each
    free or holding one record.  The space a page has left is a function of
    this directory alone. */
module PageSpec {
  import opened Bytes

  type Rec = seq<byte>

  datatype Slot = Free | Live(rec: Rec)

  const PAGESIZE := 4096
  const REGION := 4080    // bytes shared by the records and the slot directory
  const SLOTSIZE := 4     // sizeof(slot_t)

  /** Total length of the live records. */
  function LiveBytes(s: seq<Slot>): nat {
    if s == [] then 0
    else LiveBytes(s[..|s| - 1]) + match s[|s| - 1] case Free => 0 case Live(r) => |r|
  }

  /** Bytes used by neither a live record nor a directory entry. */
  function Room(s: seq<Slot>): int { REGION - SLOTSIZE * |s| - LiveBytes(s) }

  /** The directory ends with a live slot, or is empty. */
  predicate Trimmed(s: seq<Slot>) { s != [] ==> s[|s| - 1].Live? }

  predicate LiveAt(s: seq<Slot>, k: int) { 0 <= k < |s| && s[k].Live? }

  /** The first slot at or after `k` that is live; |s| when there is none. */
  function NextLive(s: seq<Slot>, k: nat): (j: nat)
    requires k <= |s|
    ensures k <= j <= |s|
    ensures j < |s| ==> LiveAt(s, j)
    ensures forall i :: k <= i < j ==> !LiveAt(s, i)
    decreases |s| - k
  {
    if k == |s| || s[k].Live? then k else NextLive(s, k + 1)
  }

  function NextFree(s: seq<Slot>, k: nat): (j: nat)
    requires k <= |s|
    ensures k <= j <= |s|
    ensures !LiveAt(s, j)
    ensures forall i :: k <= i < j ==> LiveAt(s, i)
    decreases |s| - k
  {
    if k == |s| || s[k].Free? then k else NextFree(s, k + 1)
  }

  /** The least slot number that holds no record. */
  function LeastFree(s: seq<Slot>): (j: nat)
    ensures j <= |s|
    ensures !LiveAt(s, j)
    ensures forall i :: 0 <= i < j ==> LiveAt(s, i)
  {
    NextFree(s, 0)
  }

  /** Space an insertion takes: the bytes of the record, and those of a directory
      entry when no free slot can be reused. */
  function InsertCost(s: seq<Slot>, r: Rec): nat {
    |r| + if LeastFree(s) == |s| then SLOTSIZE else 0
  }

  function Inserted(s: seq<Slot>, r: Rec): seq<Slot> {
    var k := LeastFree(s);
    if k == |s| then s + [Live(r)] else s[k := Live(r)]
  }

  /** Drops the free slots at the end of the directory. */
  function Trim(s: seq<Slot>): (t: seq<Slot>)
    ensures Trimmed(t) && t <= s
    ensures forall i :: |t| <= i < |s| ==> s[i].Free?
  {
    if s == [] || s[|s| - 1].Live? then s else Trim(s[..|s| - 1])
  }

  function Deleted(s: seq<Slot>, k: nat): seq<Slot>
    requires k < |s|
  {
    Trim(s[k := Free])
  }

  function Updated(s: seq<Slot>, k: nat, r: Rec): seq<Slot>
    requires k < |s|
  {
    s[k := Live(r)]
  }

  // ----- Laws of the directory -----

  /** A trimmed directory is empty exactly when the page holds no record, so the code
      may test the one for the other. */
  lemma EmptyMeansNoRecord(s: seq<Slot>)
    requires Trimmed(s)
    ensures s == [] <==> forall k :: !LiveAt(s, k)
    ensures s == [] <==> NextLive(s, 0) == |s|
  {
    if s != [] {
      assert LiveAt(s, |s| - 1);
    }
  }

  lemma {:induction false} LiveBytesUpdate(s: seq<Slot>, k: nat, x: Slot)
    requires k < |s|
    ensures LiveBytes(s[k := x]) + (if s[k].Live? then |s[k].rec| else 0)
         == LiveBytes(s) + (if x.Live? then |x.rec| else 0)
  {
    var n := |s| - 1;
    if k == n {
      assert s[k := x][..n] == s[..n];
    } else {
      assert s[k := x][..n] == s[..n][k := x];
      LiveBytesUpdate(s[..n], k, x);
    }
  }

  lemma {:induction false} LiveBytesAppend(s: seq<Slot>, x: Slot)
    ensures LiveBytes(s + [x]) == LiveBytes(s) + (if x.Live? then |x.rec| else 0)
  {
    assert (s + [x])[..|s|] == s;
  }

  lemma {:induction false} LiveBytesTrim(s: seq<Slot>)
    ensures LiveBytes(Trim(s)) == LiveBytes(s)
  {
    if s != [] && s[|s| - 1].Free? {
      LiveBytesTrim(s[..|s| - 1]);
    }
  }

  /** A deletion removes exactly one record: every other slot number holds what it held. */
  lemma DeleteRemovesOne(s: seq<Slot>, k: nat)
    requires LiveAt(s, k)
    ensures !LiveAt(Deleted(s, k), k)
    ensures forall j :: j != k ==> LiveAt(Deleted(s, k), j) == LiveAt(s, j)
    ensures forall j :: j != k && LiveAt(s, j) ==> LiveAt(Deleted(s, k), j) && Deleted(s, k)[j] == s[j]
    ensures Room(Deleted(s, k)) == Room(s) + |s[k].rec| + SLOTSIZE * (|s| - |Deleted(s, k)|)
  {
    LiveBytesUpdate(s, k, Free);
    LiveBytesTrim(s[k := Free]);
    var t := s[k := Free];
    forall j | j != k
      ensures LiveAt(Deleted(s, k), j) == LiveAt(s, j)
      ensures LiveAt(s, j) ==> LiveAt(Deleted(s, k), j) && Deleted(s, k)[j] == s[j]
    {
      assert 0 <= j < |s| ==> t[j] == s[j];
    }
  }

  /** An insertion adds exactly one record, at the least slot number that is not live. */
  lemma InsertAddsOne(s: seq<Slot>, r: Rec)
    requires Trimmed(s)
    ensures var k := LeastFree(s); LiveAt(Inserted(s, r), k) && Inserted(s, r)[k] == Live(r)
    ensures forall j :: j != LeastFree(s) ==> LiveAt(Inserted(s, r), j) == LiveAt(s, j)
    ensures forall j :: LiveAt(s, j) ==> LiveAt(Inserted(s, r), j) && Inserted(s, r)[j] == s[j]
    ensures Trimmed(Inserted(s, r))
    ensures Room(Inserted(s, r)) == Room(s) - InsertCost(s, r)
  {
    var k := LeastFree(s);
    if k == |s| {
      LiveBytesAppend(s, Live(r));
    } else {
      LiveBytesUpdate(s, k, Live(r));
    }
  }

  /** Deleting what was just inserted gives back the same page. */
  lemma InsertThenDelete(s: seq<Slot>, r: Rec)
    requires Trimmed(s)
    ensures LiveAt(Inserted(s, r), LeastFree(s))
    ensures Deleted(Inserted(s, r), LeastFree(s)) == s
  {
    var k := LeastFree(s);
    var t := Inserted(s, r);
    if k == |s| {
      assert t[k := Free][..|s|] == s;
    } else {
      assert t[k := Free] == s;
    }
  }
}
