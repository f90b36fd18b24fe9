/** The circular doubly linked list of unpinned frames in buf.C.  The descriptors lie in
    one table and a pointer to a descriptor is its number; the sentinel comes last. */
module PoolRing {
  import opened PageSpec
  import opened FileSpec
  import opened Disks
  import opened PoolSpec
  import opened PoolFree
  import opened PoolRefinement

  /** struct BufDesc (buf.h). */
  datatype BufDesc = BufDesc(file: FileRef, pageNo: int, pinCnt: int, dirty: bool, valid: bool, next: int, prior: int) {

    /** BufDesc::Clear. */
    function Clear(): BufDesc { BufDesc(NullFile, -1, 0, false, false, NULL, NULL) }

    /** BufDesc::Set. */
    function Set(f: FileRef, n: int): BufDesc { BufDesc(f, n, 1, false, true, NULL, NULL) }

    function ToFrame(): Frame { Frame(file, pageNo, pinCnt, dirty, valid) }
  }

  const NULL := -1

  /** The frames a table describes; its last entry is the sentinel. */
  ghost function FramesOf(t: seq<BufDesc>): (s: seq<Frame>)
    requires |t| > 0
    ensures |s| == |t| - 1
  {
    seq(|t| - 1, i requires 0 <= i < |t| - 1 => t[i].ToFrame())
  }

  /** The a-th frame of the list; beyond either end comes the sentinel n. */
  function At(upl: seq<int>, a: int, n: int): int {
    if 0 <= a < |upl| then upl[a] else n
  }

  ghost predicate LinksAt(t: seq<BufDesc>, upl: seq<int>, a: int, n: int)
    requires 0 <= a < |upl| && 0 <= upl[a] < |t|
  {
    t[upl[a]].next == At(upl, a + 1, n) && t[upl[a]].prior == At(upl, a - 1, n)
  }

  /** The links of table t, whose sentinel is n, run through exactly `upl` and back. */
  ghost predicate Ring(t: seq<BufDesc>, upl: seq<int>, n: int) {
    && 0 < |t| == n + 1
    && (forall a :: 0 <= a < |upl| ==> 0 <= upl[a] < n)
    && Distinct(upl)
    && (forall a :: 0 <= a < |upl| ==> LinksAt(t, upl, a, n))
    && t[n].next == At(upl, 0, n) && t[n].prior == At(upl, |upl| - 1, n)
  }

  /** The table with a taken out from between its neighbours. */
  function Unlinked(t: seq<BufDesc>, i: int): seq<BufDesc>
    requires 0 <= i < |t| && 0 <= t[i].prior < |t| && 0 <= t[i].next < |t|
  {
    var s := t[t[i].prior := t[t[i].prior].(next := t[i].next)];
    s[t[i].next := s[t[i].next].(prior := t[i].prior)]
  }

  /** The table with i linked in between x and y, which were neighbours. */
  function Linked(t: seq<BufDesc>, x: int, i: int, y: int): seq<BufDesc>
    requires 0 <= i < |t| && 0 <= x < |t| && 0 <= y < |t|
  {
    var s := t[i := t[i].(next := y, prior := x)];
    var r := s[x := s[x].(next := i)];
    r[y := r[y].(prior := i)]
  }

  // What relinking does to each descriptor.

  lemma UnlinkedEach(t: seq<BufDesc>, i: int)
    requires 0 <= i < |t| && 0 <= t[i].prior < |t| && 0 <= t[i].next < |t|
    ensures var u := Unlinked(t, i); |u| == |t| && forall j :: 0 <= j < |t| ==>
      u[j] == t[j].(next := if j == t[i].prior then t[i].next else t[j].next,
                    prior := if j == t[i].next then t[i].prior else t[j].prior)
  {
  }

  lemma LinkedEach(t: seq<BufDesc>, x: int, i: int, y: int)
    requires 0 <= i < |t| && 0 <= x < |t| && 0 <= y < |t| && i != x && i != y
    ensures var u := Linked(t, x, i, y); |u| == |t| && forall j :: 0 <= j < |t| ==>
      u[j] == t[j].(next := if j == i then y else if j == x then i else t[j].next,
                    prior := if j == i then x else if j == y then i else t[j].prior)
  {
  }

  lemma SameFrames(t: seq<BufDesc>, u: seq<BufDesc>)
    requires 0 < |t| == |u| && forall j :: 0 <= j < |t| ==> u[j].ToFrame() == t[j].ToFrame()
    ensures FramesOf(u) == FramesOf(t)
  {
  }

  lemma RingDistinct(t: seq<BufDesc>, upl: seq<int>, n: int)
    requires Ring(t, upl, n)
    ensures Distinct(upl)
  {
  }

  /** Rewriting the descriptor of one frame. */
  lemma FramesUpdate(t: seq<BufDesc>, i: int, d: BufDesc)
    requires 0 <= i < |t| - 1
    ensures FramesOf(t[i := d]) == FramesOf(t)[i := d.ToFrame()]
    ensures FramesOf(t)[i] == t[i].ToFrame()
  {
  }

  lemma {:induction false} WithoutAt(s: seq<int>, b: nat)
    requires Distinct(s) && b < |s|
    ensures Without(s, s[b]) == s[..b] + s[b + 1..]
  {
    if b > 0 {
      assert s[1..][b - 1] == s[b];
      WithoutAt(s[1..], b - 1);
      assert s[1..][..b - 1] == s[1..b] && s[1..][b..] == s[b + 1..];
    }
  }

  /** The links of one frame after the b-th has been taken off. */
  lemma RingUnlinkedAt(t: seq<BufDesc>, u: seq<BufDesc>, upl: seq<int>, w: seq<int>, n: int, b: nat, a: nat)
    requires Ring(t, upl, n) && b < |upl| && a < |w| == |upl| - 1 && |u| == |t|
    requires forall c :: 0 <= c < |w| ==> w[c] == upl[if c < b then c else c + 1]
    requires forall j :: 0 <= j < |t| ==>
      u[j] == t[j].(next := if j == At(upl, b - 1, n) then At(upl, b + 1, n) else t[j].next,
                    prior := if j == At(upl, b + 1, n) then At(upl, b - 1, n) else t[j].prior)
    ensures 0 <= w[a] < |u| && LinksAt(u, w, a, n)
  {
    var c := if a < b then a else a + 1;
    assert LinksAt(t, upl, c, n);
    assert upl[c] == At(upl, b - 1, n) <==> c == b - 1;
    assert upl[c] == At(upl, b + 1, n) <==> c == b + 1;
  }

  /** Taking the b-th frame off the list. */
  lemma RingUnlinked(t: seq<BufDesc>, upl: seq<int>, n: int, b: nat)
    requires Ring(t, upl, n) && b < |upl|
    ensures var i := upl[b];
      && 0 <= i < |t| && 0 <= t[i].prior < |t| && 0 <= t[i].next < |t|
      && t[i].prior == At(upl, b - 1, n) && t[i].next == At(upl, b + 1, n)
      && Ring(Unlinked(t, i), Without(upl, i), n)
      && FramesOf(Unlinked(t, i)) == FramesOf(t)
  {
    hide Unlinked, FramesOf, Without, Ring, At;
    var i := upl[b];
    RingLink(t, upl, n, b);
    var u := Unlinked(t, i);
    UnlinkedEach(t, i);
    SameFrames(t, u);
    WithoutAt(upl, b);
    WithoutElements(upl, i);
    UnlinkedRing(t, u, upl, Without(upl, i), n, b);
  }

  lemma RingLink(t: seq<BufDesc>, upl: seq<int>, n: int, b: nat)
    requires Ring(t, upl, n) && b < |upl|
    ensures 0 < |t| == n + 1 && 0 <= upl[b] < n && Distinct(upl)
    ensures 0 <= t[upl[b]].prior < |t| && 0 <= t[upl[b]].next < |t|
    ensures t[upl[b]].prior == At(upl, b - 1, n) && t[upl[b]].next == At(upl, b + 1, n)
  {
    hide Distinct;
    assert LinksAt(t, upl, b, n);
  }

  /** The links of all the frames left, and of the sentinel. */
  lemma UnlinkedRing(t: seq<BufDesc>, u: seq<BufDesc>, upl: seq<int>, w: seq<int>, n: int, b: nat)
    requires Ring(t, upl, n) && b < |upl| && w == upl[..b] + upl[b + 1..] && |u| == |t| && Distinct(w)
    requires forall j :: 0 <= j < |t| ==>
      u[j] == t[j].(next := if j == At(upl, b - 1, n) then At(upl, b + 1, n) else t[j].next,
                    prior := if j == At(upl, b + 1, n) then At(upl, b - 1, n) else t[j].prior)
    ensures Ring(u, w, n)
  {
    hide Distinct, LinksAt;
    forall a | 0 <= a < |w|
      ensures 0 <= w[a] < n && LinksAt(u, w, a, n)
    {
      assert w[a] == upl[if a < b then a else a + 1];
      RingUnlinkedAt(t, u, upl, w, n, b, a);
    }
  }

  /** Linking a new frame in at the rear. */
  lemma RingRear(t: seq<BufDesc>, upl: seq<int>, n: int, i: int)
    requires Ring(t, upl, n) && 0 <= i < n && i !in upl
    ensures 0 <= t[n].next < |t| && t[n].next != i
    ensures Ring(Linked(t, n, i, t[n].next), [i] + upl, n)
    ensures FramesOf(Linked(t, n, i, t[n].next)) == FramesOf(t)
  {
    hide Linked, FramesOf;
    assert upl != [] ==> upl[0] in upl;
    var u := Linked(t, n, i, t[n].next);
    LinkedEach(t, n, i, t[n].next);
    SameFrames(t, u);
    var w := [i] + upl;
    assert forall a :: 1 <= a < |w| ==> w[a] == upl[a - 1] && w[a] in upl;
    forall a | 0 <= a < |w|
      ensures LinksAt(u, w, a, n)
    {
      assert a > 0 ==> LinksAt(t, upl, a - 1, n);
    }
  }

  /** Linking a new frame in at the front. */
  lemma RingFront(t: seq<BufDesc>, upl: seq<int>, n: int, i: int)
    requires Ring(t, upl, n) && 0 <= i < n && i !in upl
    ensures 0 <= t[n].prior < |t| && t[n].prior != i
    ensures Ring(Linked(t, t[n].prior, i, n), upl + [i], n)
    ensures FramesOf(Linked(t, t[n].prior, i, n)) == FramesOf(t)
  {
    hide Linked, FramesOf;
    assert upl != [] ==> upl[|upl| - 1] in upl;
    var u := Linked(t, t[n].prior, i, n);
    LinkedEach(t, t[n].prior, i, n);
    SameFrames(t, u);
    var w := upl + [i];
    assert forall a :: 0 <= a < |upl| ==> w[a] == upl[a] && w[a] in upl;
    forall a | 0 <= a < |w|
      ensures LinksAt(u, w, a, n)
    {
      assert a < |upl| ==> LinksAt(t, upl, a, n);
    }
  }

  /** Descriptors off the list may change as they like; those on it, in all but their links. */
  lemma RingKept(t: seq<BufDesc>, u: seq<BufDesc>, upl: seq<int>, n: int)
    requires Ring(t, upl, n) && |u| == |t|
    requires forall i :: (i in upl || i == n) && 0 <= i <= n ==> u[i].next == t[i].next && u[i].prior == t[i].prior
    ensures Ring(u, upl, n)
  {
    forall a | 0 <= a < |upl|
      ensures LinksAt(u, upl, a, n)
    {
      assert upl[a] in upl && LinksAt(t, upl, a, n);
    }
  }

  /** The two ends of the list as the sentinel and its neighbours see them. */
  lemma Ends(t: seq<BufDesc>, upl: seq<int>, n: int)
    requires Ring(t, upl, n)
    ensures |t| == n + 1 && 0 < |t|
    ensures t[n].next == At(upl, 0, n) && 0 <= t[n].next <= n && t[t[n].next].prior == n
    ensures t[n].prior == At(upl, |upl| - 1, n) && 0 <= t[n].prior <= n && t[t[n].prior].next == n
    ensures t[n].next == n <==> upl == []
  {
    assert upl != [] ==> LinksAt(t, upl, 0, n) && LinksAt(t, upl, |upl| - 1, n);
  }

  lemma RearOf(t: seq<BufDesc>, upl: seq<int>, n: int, b: nat)
    requires Ring(t, upl, n) && b < |upl|
    ensures |t| == n + 1 && 0 <= upl[b] < n
    ensures At(Without(upl, upl[b]), 0, n) == if upl[b] == t[n].next then t[upl[b]].next else t[n].next
    ensures forall u: seq<BufDesc> :: Ring(u, Without(upl, upl[b]), n) ==> u[n].next == At(Without(upl, upl[b]), 0, n)
  {
    WithoutAt(upl, b);
    assert LinksAt(t, upl, b, n);
    if b > 0 {
      assert upl[0] != upl[b];
    }
  }

  /** The table as the constructor of BufMgr leaves it. */
  ghost predicate Initial(t: seq<BufDesc>, n: nat) {
    && 0 < n && |t| == n + 1
    && (forall j :: 0 <= j <= n ==> t[j].ToFrame() == Cleared)
    && (forall j :: 0 <= j < n ==> t[j].next == j + 1 && t[j].prior == if j == 0 then n else j - 1)
    && t[n].next == 0 && t[n].prior == n - 1
  }

  lemma InitialRing(t: seq<BufDesc>, n: nat)
    requires Initial(t, n)
    ensures Ring(t, seq(n, i => i), n) && FramesOf(t) == seq(n, i => Cleared)
  {
    var upl := seq(n, i => i);
    assert forall a :: 0 <= a < n ==> LinksAt(t, upl, a, n);
  }

  /** A pool with nothing in it: every frame is free, frame 0 is the first to go. */
  ghost function EmptyPool(n: nat, mem: seq<Image>, disk: map<FileRef, Pages>): Pool {
    Pool(seq(n, i => Cleared), mem, seq(n, i => i), map[], disk)
  }

  lemma EmptyInv(n: nat, mem: seq<Image>, disk: map<FileRef, Pages>)
    requires |mem| == n && (forall i :: 0 <= i < n ==> |mem[i]| == PAGESIZE) && DiskOK(disk)
    ensures Inv(EmptyPool(n, mem, disk))
  {
    var p := EmptyPool(n, mem, disk);
    forall i | 0 <= i < n
      ensures i in p.upl && FrameOK(p, i)
    {
      assert p.upl[i] == i;
    }
  }

  /** A new pool owes nothing, shows every page as it is on disk, and holds no free page. */
  lemma EmptyShowsDisk(n: nat, mem: seq<Image>, disk: map<FileRef, Pages>, free: FreePages, k: Key)
    requires |mem| == n && (forall i :: 0 <= i < n ==> |mem[i]| == PAGESIZE) && DiskOK(disk)
    ensures Inv(EmptyPool(n, mem, disk)) && Coherent(EmptyPool(n, mem, disk), {})
    ensures PageExists(disk, k) ==> View(EmptyPool(n, mem, disk), k) == disk[k.file][k.pageNo]
    ensures free.Keys == disk.Keys && (forall f :: f in disk ==> Listed(disk, free, f)) ==>
      ListsOK(EmptyPool(n, mem, disk), free)
  {
    EmptyInv(n, mem, disk);
  }
}
