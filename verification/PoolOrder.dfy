/** The order in which the buffer pool gives up its frames, over whole runs. */
module PoolOrder {
  import opened StatusCodes
  import opened FileSpec
  import opened Disks
  import opened PoolSpec
  import opened PoolRefinement

  /** How a frame last came to be unpinned: not loved, or released after a failed call, at
      some time; loved, at some time; or never pinned yet. */
  datatype Tag = Unloved(at: nat) | Never | Loved(at: nat)

  /** The intended order: unloved frames, the latest first; then frames never used, by number;
      then loved frames, the earliest first. */
  predicate Before(tags: seq<Tag>, i: int, j: int)
    requires 0 <= i < |tags| && 0 <= j < |tags|
  {
    match (tags[i], tags[j])
    case (Unloved(a), Unloved(b)) => a > b
    case (Unloved(_), _) => true
    case (Never, Never) => i < j
    case (Never, Loved(_)) => true
    case (Loved(a), Loved(b)) => a < b
    case _ => false
  }

  ghost predicate Frames(s: seq<int>, n: nat) { forall a :: 0 <= a < |s| ==> 0 <= s[a] < n }

  ghost predicate InOrder(s: seq<int>, tags: seq<Tag>)
    requires Frames(s, |tags|)
  {
    forall a, b :: 0 <= a < b < |s| ==> Before(tags, s[a], s[b])
  }

  predicate Earlier(t: Tag, now: nat) { t.Never? || t.at < now }

  /** The list is in the intended order, and all that happened is in the past. */
  ghost predicate Ordered(p: Pool, tags: seq<Tag>, now: nat) {
    && |tags| == |p.frames| && Frames(p.upl, |tags|)
    && (forall i :: 0 <= i < |tags| ==> Earlier(tags[i], now))
    && InOrder(p.upl, tags)
  }

  lemma {:induction false} WithoutInOrder(s: seq<int>, x: int, tags: seq<Tag>)
    requires Distinct(s) && Frames(s, |tags|) && InOrder(s, tags)
    ensures Frames(Without(s, x), |tags|) && InOrder(Without(s, x), tags)
  {
    WithoutElements(s, x);
    if s != [] && s[0] != x {
      var t := s[1..];
      assert forall i :: i in t ==> i in s;
      assert forall a :: 0 <= a < |t| ==> t[a] == s[a + 1];
      WithoutInOrder(t, x, tags);
      WithoutElements(t, x);
      var w := Without(t, x);
      forall a | 0 <= a < |w|
        ensures 0 <= w[a] < |tags| && Before(tags, s[0], w[a])
      {
        assert w[a] in w;
        var b :| 0 <= b < |t| && t[b] == w[a];
        assert s[b + 1] == w[a];
      }
      assert Without(s, x) == [s[0]] + w;
    } else if s != [] {
      assert forall a :: 0 <= a < |s[1..]| ==> s[1..][a] == s[a + 1];
    }
  }

  /** Only the tags of listed frames matter. */
  lemma RetagUnlisted(s: seq<int>, tags: seq<Tag>, i: int, t: Tag)
    requires Frames(s, |tags|) && InOrder(s, tags) && 0 <= i < |tags| && i !in s
    ensures InOrder(s, tags[i := t])
  {
    forall a, b | 0 <= a < b < |s|
      ensures Before(tags[i := t], s[a], s[b])
    {
      assert s[a] in s && s[b] in s && Before(tags, s[a], s[b]);
    }
  }

  /** A frame put at the rear as the latest unloved one, or at the front as the latest loved one. */
  lemma PutBack(s: seq<int>, tags: seq<Tag>, i: int, now: nat, loveIt: bool)
    requires Frames(s, |tags|) && InOrder(s, tags) && 0 <= i < |tags| && i !in s
    requires forall j :: 0 <= j < |tags| ==> Earlier(tags[j], now)
    ensures var tags' := tags[i := if loveIt then Loved(now) else Unloved(now)];
      var s' := if loveIt then s + [i] else [i] + s;
      Frames(s', |tags'|) && InOrder(s', tags') && forall j :: 0 <= j < |tags| ==> Earlier(tags'[j], now + 1)
  {
    var tags' := tags[i := if loveIt then Loved(now) else Unloved(now)];
    var s' := if loveIt then s + [i] else [i] + s;
    RetagUnlisted(s, tags, i, tags'[i]);
    var d := if loveIt then 0 else 1;
    assert forall a :: d <= a < |s| + d ==> s'[a] == s[a - d];
    forall a, b | 0 <= a < b < |s'|
      ensures Before(tags', s'[a], s'[b])
    {
      if loveIt && b == |s| {
        assert s[a] in s && Earlier(tags[s[a]], now);
      } else if !loveIt && a == 0 {
        assert s[b - 1] in s && Earlier(tags[s[b - 1]], now);
      } else {
        assert Before(tags', s[a - d], s[b - d]);
      }
    }
  }

  /** The frames an operation puts back on the list, and how. */
  ghost function StepTags(p: Pool, tags: seq<Tag>, now: nat, e: Event): seq<Tag>
    requires Inv(p) && |tags| == |p.frames|
  {
    assert p.upl != [] ==> p.upl[0] in p.upl;
    match e
    case Read(k) =>
      if ReadStatus(p, k) in {BADPAGENO, UNIXERR} && p.upl != [] then tags[p.upl[0] := Unloved(now)] else tags
    case UnPin(k, dirty, loveIt) =>
      if UnPinStatus(p, k) == OK && p.frames[p.index[k]].pinCnt == 1
      then tags[p.index[k] := if loveIt then Loved(now) else Unloved(now)] else tags
    case Alloc(f) =>
      if f in p.disk && CanAllocate(p.disk[f]) && AllocStatus(p, f) == HASHTBLERROR
      then tags[p.upl[0] := Unloved(now)] else tags
    case _ => tags
  }

  lemma AfterReadList(p: Pool, k: Key)
    requires Inv(p)
    ensures |AfterRead(p, k).frames| == |p.frames|
    ensures AfterRead(p, k).upl ==
      if k.file == NullFile then p.upl
      else if k in p.index then (if p.frames[p.index[k]].pinCnt == 0 then Without(p.upl, p.index[k]) else p.upl)
      else if p.upl == [] then [] else if ReadStatus(p, k) == OK then p.upl[1..] else [p.upl[0]] + p.upl[1..]
  {
    if p.upl != [] {
      EvictedFrame(p);
    }
  }

  lemma {:induction false} AfterFlushList(p: Pool, f: FileRef, i: nat)
    requires Inv(p) && i <= |p.frames|
    ensures AfterFlush(p, f, i).upl == p.upl
    decreases |p.frames| - i
  {
    hide Inv;
    if i < |p.frames| {
      FrameFields(p, i);
      if p.frames[i].file != f {
        AfterFlushList(p, f, i + 1);
      } else if p.frames[i].valid && p.frames[i].pinCnt <= 0 {
        InvFlushed(p, i);
        AfterFlushList(Flushed(p, i), f, i + 1);
      }
    }
  }

  lemma AfterAllocList(p: Pool, f: FileRef)
    requires Inv(p) && f in p.disk && CanAllocate(p.disk[f])
    ensures |AfterAlloc(p, f).frames| == |p.frames|
    ensures AfterAlloc(p, f).upl ==
      if p.upl == [] then [] else if AllocStatus(p, f) == OK then p.upl[1..] else [p.upl[0]] + p.upl[1..]
  {
    hide Allocated, Inv, AllocDisk, FileOK;
    InvAllocDisk(p, f);
    AllocDiskKeeps(p, f);
    if p.upl != [] {
      EvictedFrame(AllocDisk(p, f));
    }
  }

  /** Taking the victim off keeps the order; so does putting it back at the rear. */
  lemma VictimOff(p: Pool, tags: seq<Tag>, now: nat)
    requires Inv(p) && Ordered(p, tags, now) && p.upl != []
    ensures 0 <= p.upl[0] < |tags|
    ensures Frames(p.upl[1..], |tags|) && InOrder(p.upl[1..], tags)
    ensures var s := [p.upl[0]] + p.upl[1..]; var tags' := tags[p.upl[0] := Unloved(now)];
      Frames(s, |tags'|) && InOrder(s, tags') && forall j :: 0 <= j < |tags| ==> Earlier(tags'[j], now + 1)
  {
    var v := p.upl[0];
    assert v in p.upl;
    TailElements(p.upl);
    assert forall a :: 0 <= a < |p.upl[1..]| ==> p.upl[1..][a] == p.upl[a + 1];
    PutBack(p.upl[1..], tags, v, now, false);
  }

  lemma UnPinKeepsOrder(p: Pool, tags: seq<Tag>, now: nat, k: Key, dirty: bool, loveIt: bool)
    requires Inv(p) && Ordered(p, tags, now)
    ensures Ordered(Step(p, UnPin(k, dirty, loveIt)), StepTags(p, tags, now, UnPin(k, dirty, loveIt)), now + 1)
  {
    hide InOrder;
    if UnPinStatus(p, k) == OK {
      assert IndexedOK(p, k) && FrameOK(p, p.index[k]);
      assert p.index[k] !in p.upl;
    }
    if UnPinStatus(p, k) == OK && p.frames[p.index[k]].pinCnt == 1 {
      PutBack(p.upl, tags, p.index[k], now, loveIt);
    }
  }

  lemma ReadKeepsOrder(p: Pool, tags: seq<Tag>, now: nat, k: Key)
    requires Inv(p) && Ordered(p, tags, now)
    ensures Ordered(Step(p, Read(k)), StepTags(p, tags, now, Read(k)), now + 1)
  {
    hide InOrder, AfterRead;
    AfterReadList(p, k);
    if k.file != NullFile && k in p.index {
      WithoutInOrder(p.upl, p.index[k], tags);
    } else if p.upl != [] {
      VictimOff(p, tags, now);
    }
  }

  lemma AllocKeepsOrder(p: Pool, tags: seq<Tag>, now: nat, f: FileRef)
    requires Inv(p) && Ordered(p, tags, now)
    ensures Ordered(Step(p, Alloc(f)), StepTags(p, tags, now, Alloc(f)), now + 1)
  {
    hide InOrder, AfterAlloc, CanAllocate, Allocated;
    if f in p.disk && CanAllocate(p.disk[f]) {
      AfterAllocList(p, f);
      if p.upl != [] {
        VictimOff(p, tags, now);
      }
    }
  }

  lemma StepKeepsOrder(p: Pool, tags: seq<Tag>, now: nat, e: Event)
    requires Inv(p) && Ordered(p, tags, now)
    ensures Ordered(Step(p, e), StepTags(p, tags, now, e), now + 1)
  {
    hide InOrder, AfterRead, AfterAlloc, AfterFlush, AfterUnPin, CanAllocate, Allocated;
    match e
    case Read(k) => ReadKeepsOrder(p, tags, now, k);
    case Write(k, b) =>
    case UnPin(k, dirty, loveIt) => UnPinKeepsOrder(p, tags, now, k, dirty, loveIt);
    case Flush(f) => AfterFlushList(p, f, 0);
    case Dispose(k) =>
    case Alloc(f) => AllocKeepsOrder(p, tags, now, f);
  }

  ghost function RunTags(p: Pool, tags: seq<Tag>, now: nat, es: seq<Event>): seq<Tag>
    requires Inv(p) && Ordered(p, tags, now)
    decreases |es|
  {
    if es == [] then tags else
      StepKeepsInv(p, es[0]);
      StepKeepsOrder(p, tags, now, es[0]);
      RunTags(Step(p, es[0]), StepTags(p, tags, now, es[0]), now + 1, es[1..])
  }

  lemma {:induction false} RunKeepsOrder(p: Pool, tags: seq<Tag>, now: nat, es: seq<Event>)
    requires Inv(p) && Ordered(p, tags, now)
    ensures Inv(Run(p, es)) && Ordered(Run(p, es), RunTags(p, tags, now, es), now + |es|)
    decreases |es|
  {
    hide Inv, Step, StepTags, InOrder;
    if es != [] {
      StepKeepsInv(p, es[0]);
      StepKeepsOrder(p, tags, now, es[0]);
      RunKeepsOrder(Step(p, es[0]), StepTags(p, tags, now, es[0]), now + 1, es[1..]);
    }
  }

  /** Replacement over every run: the next victim precedes every other unpinned frame in the
      intended order, so loved pages go least recently unpinned first and unloved pages most
      recently unpinned first. */
  lemma VictimIsFirst(p: Pool, tags: seq<Tag>, now: nat, es: seq<Event>, i: int)
    requires Inv(p) && Ordered(p, tags, now)
    requires Run(p, es).upl != [] && i != Run(p, es).upl[0]
    requires 0 <= i < |Run(p, es).frames| && Run(p, es).frames[i].pinCnt == 0
    ensures |RunTags(p, tags, now, es)| == |Run(p, es).frames| && 0 <= Run(p, es).upl[0] < |Run(p, es).frames|
    ensures Before(RunTags(p, tags, now, es), Run(p, es).upl[0], i)
    ensures var t, v := RunTags(p, tags, now, es), Run(p, es).upl[0];
      match t[i]
      case Unloved(at) => t[v].Unloved? && t[v].at > at
      case Never => t[v].Unloved? || (t[v].Never? && v < i)
      case Loved(at) => t[v].Loved? ==> t[v].at < at
  {
    hide Run, RunTags;
    RunKeepsOrder(p, tags, now, es);
    var q := Run(p, es);
    assert i in q.upl && q.upl[0] in q.upl;
    var b :| 0 <= b < |q.upl| && q.upl[b] == i;
  }

  /** A new pool starts in that order, no frame having been pinned yet. */
  lemma NewPoolOrdered(p: Pool)
    requires Inv(p) && p.upl == seq(|p.frames|, i => i)
    ensures Ordered(p, seq(|p.frames|, i => Never), 0)
  {
  }
}
