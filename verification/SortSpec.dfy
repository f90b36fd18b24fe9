/** Keys, sorted runs and what a merge of runs has still to deliver (sort.C). */
module SortSpec {
  import opened Bytes
  import opened StatusCodes
  import opened PageSpec
  import opened HeapSpec
  import opened Comparing

  /** The attribute a file is sorted on. */
  datatype SortKey = SortKey(offset: int, length: int, attr: Datatype, float: seq<byte> -> real)

  /** What the constructor of SortedFile checks. */
  predicate KeyOK(k: SortKey) {
    0 <= k.offset && 1 <= k.length && (k.attr != STRING ==> k.length == 4)
  }

  predicate HasKey(k: SortKey, r: Rec) {
    KeyOK(k) && k.offset + k.length <= |r|
  }

  function Field(k: SortKey, r: Rec): (f: seq<byte>)
    requires HasKey(k, r)
    ensures |f| == k.length
  {
    r[k.offset..k.offset + k.length]
  }

  /** reccmp puts record a no later than record b. */
  predicate Le(k: SortKey, a: Rec, b: Rec) {
    HasKey(k, a) && HasKey(k, b) && RecCmp(k.attr, k.float, Field(k, a), Field(k, b)) <= 0
  }

  /** The keys that the constructor accepts. */
  lemma KeyAccepted(k: SortKey)
    ensures KeyOK(k) <==>
      0 <= k.offset && ((k.attr == STRING && 1 <= k.length) || (k.attr in {INTEGER, FLOAT} && k.length == 4))
  {
  }

  /** The key of a record is made of the bytes at its offset. */
  lemma FieldBytes(k: SortKey, r: Rec)
    requires KeyOK(k) && k.offset + k.length <= |r|
    ensures HasKey(k, r) && forall j :: 0 <= j < k.length ==> Field(k, r)[j] == r[k.offset + j]
  {
  }

  /** The strings at the offset agree in i bytes, and in the next that of a is smaller. */
  predicate KeySmallerAt(k: SortKey, a: Rec, b: Rec, i: nat) {
    && 0 <= k.offset && i < k.length && k.offset + k.length <= |a| && k.offset + k.length <= |b|
    && a[k.offset..k.offset + i] == b[k.offset..k.offset + i] && a[k.offset + i] < b[k.offset + i]
  }

  /** The order that the attribute type means: numbers by size, strings lexicographically. */
  ghost predicate KeyLe(k: SortKey, a: Rec, b: Rec) {
    && 0 <= k.offset && 0 <= k.length && k.offset + k.length <= |a| && k.offset + k.length <= |b|
    && match k.attr
       case INTEGER => k.length == 4 && IntAt(a, k.offset) <= IntAt(b, k.offset)
       case FLOAT =>
         k.float(a[k.offset..k.offset + k.length]) <= k.float(b[k.offset..k.offset + k.length])
       case STRING =>
         || a[k.offset..k.offset + k.length] == b[k.offset..k.offset + k.length]
         || exists i: nat :: KeySmallerAt(k, a, b, i)
  }

  /** reccmp orders two records as their attribute type means exactly when the difference does not
      overflow, which only integer keys can fail. */
  lemma LeExactIff(k: SortKey, a: Rec, b: Rec)
    requires KeyOK(k) && k.offset + k.length <= |a| && k.offset + k.length <= |b|
    ensures (Le(k, a, b) <==> KeyLe(k, a, b)) <==>
      (k.attr == INTEGER ==> -0x8000_0000 <= IntAt(a, k.offset) - IntAt(b, k.offset) <= 0x7fff_ffff)
  {
    hide IntOf, IntAt, MemCmp, IntDiff;
    var x, y := Field(k, a), Field(k, b);
    match k.attr
    case INTEGER =>
      FieldInt(a, k.offset);
      FieldInt(b, k.offset);
      IntDiffExactIff(IntAt(x, 0), IntAt(y, 0));
      if !Int32(IntAt(x, 0) - IntAt(y, 0)) {
        IntDiffSign(IntAt(x, 0), IntAt(y, 0));
      }
    case FLOAT =>
    case STRING =>
      MemCmpLexicographic(x, y);
      KeySmaller(k, a, b);
  }

  lemma KeySmaller(k: SortKey, a: Rec, b: Rec)
    requires HasKey(k, a) && HasKey(k, b)
    ensures (exists i: nat :: SmallerAt(Field(k, a), Field(k, b), i)) <==> exists i: nat :: KeySmallerAt(k, a, b, i)
  {
    var x, y := Field(k, a), Field(k, b);
    forall i: nat | i < k.length
      ensures SmallerAt(x, y, i) <==> KeySmallerAt(k, a, b, i)
    {
      assert x[..i] == a[k.offset..k.offset + i] && y[..i] == b[k.offset..k.offset + i];
    }
    if i: nat :| SmallerAt(x, y, i) {
      assert KeySmallerAt(k, a, b, i);
    }
    if i: nat :| KeySmallerAt(k, a, b, i) {
      assert SmallerAt(x, y, i);
    }
  }

  /** All records reach as far as the key. */
  ghost predicate Keyed(k: SortKey, rs: multiset<Rec>) { forall a :: a in rs ==> HasKey(k, a) }

  /** And no difference of two integer keys overflows. */
  ghost predicate Sortable(k: SortKey, rs: multiset<Rec>) {
    && Keyed(k, rs)
    && (forall a, b :: a in rs && b in rs ==> Comparable(k.attr, Field(k, a), Field(k, b)))
  }

  /** Records are sortable when they have the key and no two integer keys are further apart than
      32 bits allow. */
  lemma SortableIff(k: SortKey, rs: multiset<Rec>)
    ensures Sortable(k, rs) <==>
      && (forall a :: a in rs ==> KeyOK(k) && k.offset + k.length <= |a|)
      && (k.attr == INTEGER ==> forall a, b :: a in rs && b in rs ==>
           -0x8000_0000 <= IntAt(a, k.offset) - IntAt(b, k.offset) <= 0x7fff_ffff)
  {
    hide IntOf, IntAt;
    if Keyed(k, rs) && k.attr == INTEGER {
      forall a, b | a in rs && b in rs
        ensures HasKey(k, a) && HasKey(k, b)
        ensures IntAt(Field(k, a), 0) == IntAt(a, k.offset) && IntAt(Field(k, b), 0) == IntAt(b, k.offset)
      {
        FieldInt(a, k.offset);
        FieldInt(b, k.offset);
      }
    }
  }

  /** On sortable records reccmp is a total order. */
  lemma LeOrder(k: SortKey, rs: multiset<Rec>, a: Rec, b: Rec, c: Rec)
    requires Sortable(k, rs) && a in rs && b in rs && c in rs
    ensures Le(k, a, b) || Le(k, b, a)
    ensures Le(k, a, b) && Le(k, b, c) ==> Le(k, a, c)
    ensures Le(k, a, a)
  {
    hide RecCmp, Comparable;
    RecCmpOrder(k.attr, k.float, Field(k, a), Field(k, b), Field(k, c));
    RecCmpOrder(k.attr, k.float, Field(k, a), Field(k, a), Field(k, a));
  }

  ghost predicate Sorted(k: SortKey, rs: seq<Rec>) {
    forall i, j :: 0 <= i < j < |rs| ==> Le(k, rs[i], rs[j])
  }

  /** In the order that the attribute type means. */
  ghost predicate InKeyOrder(k: SortKey, rs: seq<Rec>) {
    forall i, j :: 0 <= i < j < |rs| ==> KeyLe(k, rs[i], rs[j])
  }

  lemma SortedInKeyOrder(k: SortKey, rs: seq<Rec>)
    requires Sorted(k, rs) && Sortable(k, multiset(rs))
    ensures InKeyOrder(k, rs)
  {
    hide Le, KeyLe, Comparable;
    forall i, j | 0 <= i < j < |rs|
      ensures KeyLe(k, rs[i], rs[j])
    {
      assert rs[i] in multiset(rs) && rs[j] in multiset(rs);
      LeInKeyOrder(k, multiset(rs), rs[i], rs[j]);
    }
  }

  /** On sortable records reccmp is the order that the attribute type means. */
  lemma LeInKeyOrder(k: SortKey, rs: multiset<Rec>, a: Rec, b: Rec)
    requires Sortable(k, rs) && a in rs && b in rs
    ensures Le(k, a, b) <==> KeyLe(k, a, b)
  {
    hide Le, KeyLe, IntOf, IntAt;
    LeExactIff(k, a, b);
    assert Comparable(k.attr, Field(k, a), Field(k, b));
    if k.attr == INTEGER {
      FieldInt(a, k.offset);
      FieldInt(b, k.offset);
    }
  }

  lemma Smaller(k: SortKey, rs: multiset<Rec>, sub: multiset<Rec>)
    requires sub <= rs
    ensures Keyed(k, rs) ==> Keyed(k, sub)
    ensures Sortable(k, rs) ==> Sortable(k, sub)
  {
    forall a | a in sub
      ensures a in rs
    {
    }
  }

  // ----- Runs -----

  /** A sorted run and the scan over it: `pos` records have been fetched, the last of them into
      `rec` with its RID in `rid` unless it has been given away (`valid` is false). */
  datatype Run = Run(file: Heap, pos: nat, valid: bool, rid: RID, rec: Rec)

  function RunRecords(r: Run): seq<Rec> { Records(AllEntries(r.file)) }

  /** The run's end was reached. */
  predicate Ended(r: Run) { r.valid && r.rid.pageNo < 0 }

  /** The run holds its next record. */
  predicate Holding(r: Run) { r.valid && r.rid.pageNo >= 0 }

  ghost predicate RunOK(r: Run) {
    && r.pos <= |AllEntries(r.file)|
    && (forall e :: e in AllEntries(r.file) ==> e.rid.pageNo >= 0)
    && (Ended(r) ==> r.pos == |AllEntries(r.file)|)
    && (Holding(r) ==> 1 <= r.pos && r.rec == RunRecords(r)[r.pos - 1])
  }

  /** What the run has still to deliver. */
  ghost function Left(r: Run): seq<Rec>
    requires r.pos <= |AllEntries(r.file)| && (Holding(r) ==> 1 <= r.pos)
  {
    RunRecords(r)[if Holding(r) then r.pos - 1 else r.pos..]
  }

  ghost predicate RunsOK(runs: seq<Run>) { forall i :: 0 <= i < |runs| ==> RunOK(runs[i]) }

  ghost predicate RunsSorted(k: SortKey, runs: seq<Run>) {
    forall i :: 0 <= i < |runs| ==> Sorted(k, RunRecords(runs[i]))
  }

  lemma SortedAppend(k: SortKey, runs: seq<Run>, r: Run)
    requires RunsSorted(k, runs) && Sorted(k, RunRecords(r))
    ensures RunsSorted(k, runs + [r])
  {
    hide Sorted, RunRecords;
  }

  /** The order of a run is a matter of its file alone. */
  lemma SortedReplace(k: SortKey, runs: seq<Run>, i: nat, r: Run)
    requires i < |runs| && r.file == runs[i].file
    ensures RunsSorted(k, runs) ==> RunsSorted(k, runs[i := r])
  {
    hide Sorted;
  }

  /** What all runs have still to deliver. */
  ghost function Rest(runs: seq<Run>): multiset<Rec>
    requires RunsOK(runs)
  {
    if runs == [] then multiset{} else
      assert RunOK(runs[0]);
      multiset(Left(runs[0])) + Rest(runs[1..])
  }

  lemma {:induction false} RestMember(runs: seq<Run>, i: nat, r: Rec)
    requires RunsOK(runs) && i < |runs| && r in Left(runs[i])
    ensures r in Rest(runs)
  {
    hide Left, RunOK;
    if i > 0 {
      RestMember(runs[1..], i - 1, r);
    }
  }

  lemma {:induction false} RestOwner(runs: seq<Run>, r: Rec) returns (i: nat)
    requires RunsOK(runs) && r in Rest(runs)
    ensures i < |runs| && RunOK(runs[i]) && r in Left(runs[i])
  {
    hide Left;
    assert RunOK(runs[0]);
    if r in Left(runs[0]) {
      i := 0;
    } else {
      var j := RestOwner(runs[1..], r);
      i := j + 1;
    }
  }

  lemma {:induction false} RestAppend(runs: seq<Run>, r: Run)
    requires RunsOK(runs) && RunOK(r)
    ensures RunsOK(runs + [r]) && Rest(runs + [r]) == Rest(runs) + multiset(Left(r))
  {
    hide Left, RunOK;
    if runs == [] {
      assert (runs + [r])[1..] == [];
    } else {
      RestAppend(runs[1..], r);
      assert (runs + [r])[1..] == runs[1..] + [r];
    }
  }

  /** Replacing one run by another that has the same left to deliver, and perhaps `x` less. */
  lemma {:induction false} RestReplace(runs: seq<Run>, i: nat, r: Run, x: multiset<Rec>)
    requires RunsOK(runs) && i < |runs| && RunOK(r) && RunOK(runs[i])
    requires multiset(Left(runs[i])) == multiset(Left(r)) + x
    ensures RunsOK(runs[i := r]) && Rest(runs) == Rest(runs[i := r]) + x
  {
    hide Left, RunOK;
    if i == 0 {
      assert runs[0 := r][1..] == runs[1..];
    } else {
      RestReplace(runs[1..], i - 1, r, x);
      assert runs[i := r][1..] == runs[1..][i - 1 := r];
    }
  }

  lemma {:induction false} RestEmpty(runs: seq<Run>)
    requires RunsOK(runs) && forall i :: 0 <= i < |runs| ==> RunOK(runs[i]) && Left(runs[i]) == []
    ensures Rest(runs) == multiset{}
  {
    hide Left;
    if runs != [] {
      assert RunOK(runs[0]) && Left(runs[0]) == [];
      RestEmpty(runs[1..]);
    }
  }

  /** The head of what a run has left is the least of it. */
  lemma HeadLeast(k: SortKey, run: Run, rs: multiset<Rec>, r: Rec)
    requires RunOK(run) && Sorted(k, RunRecords(run)) && Sortable(k, rs) && Left(run) != [] && r in Left(run)
    requires multiset(Left(run)) <= rs
    ensures Le(k, Left(run)[0], r)
  {
    hide Le, Sortable;
    var all := RunRecords(run);
    var a := if Holding(run) then run.pos - 1 else run.pos;
    var j :| 0 <= j < |Left(run)| && Left(run)[j] == r;
    assert Left(run)[j] == all[a + j] && Left(run)[0] == all[a];
    if j == 0 {
      assert r in multiset(Left(run));
      LeOrder(k, rs, r, r, r);
    }
  }

  // ----- Sorting in memory -----

  /** What qsort sorts: a copy of the key of a record and the RID to fetch the record with. */
  datatype SortRec = SortRec(rid: RID, field: seq<byte>)

  /** The comparison functions given to qsort. */
  predicate FieldLe(k: SortKey, a: SortRec, b: SortRec) {
    && |a.field| == |b.field| == k.length && (k.attr != STRING ==> k.length == 4)
    && RecCmp(k.attr, k.float, a.field, b.field) <= 0
  }

  ghost predicate FieldsComparable(k: SortKey, s: seq<SortRec>) {
    && (k.attr != STRING ==> k.length == 4)
    && (forall i :: 0 <= i < |s| ==> |s[i].field| == k.length)
    && (forall i, j :: 0 <= i < |s| && 0 <= j < |s| ==> Comparable(k.attr, s[i].field, s[j].field))
  }

  ghost predicate FieldsSorted(k: SortKey, s: seq<SortRec>) {
    forall i, j :: 0 <= i < j < |s| ==> FieldLe(k, s[i], s[j])
  }

  lemma FieldOrder(k: SortKey, a: SortRec, b: SortRec, c: SortRec)
    requires FieldsComparable(k, [a, b, c])
    ensures FieldLe(k, a, b) || FieldLe(k, b, a)
    ensures FieldLe(k, a, b) && FieldLe(k, b, c) ==> FieldLe(k, a, c)
  {
    hide RecCmp, Comparable;
    var s := [a, b, c];
    assert Comparable(k.attr, s[0].field, s[1].field) && Comparable(k.attr, s[1].field, s[0].field);
    assert Comparable(k.attr, s[1].field, s[2].field) && Comparable(k.attr, s[0].field, s[2].field);
    RecCmpOrder(k.attr, k.float, a.field, b.field, c.field);
  }

  function InsertSorted(k: SortKey, x: SortRec, s: seq<SortRec>): seq<SortRec> {
    if s == [] || FieldLe(k, x, s[0]) then [x] + s else [s[0]] + InsertSorted(k, x, s[1..])
  }

  function SortedFields(k: SortKey, s: seq<SortRec>): seq<SortRec> {
    if s == [] then [] else InsertSorted(k, s[0], SortedFields(k, s[1..]))
  }

  lemma {:induction false} InsertSortedElements(k: SortKey, x: SortRec, s: seq<SortRec>)
    ensures multiset(InsertSorted(k, x, s)) == multiset{x} + multiset(s)
  {
    if s != [] && !FieldLe(k, x, s[0]) {
      InsertSortedElements(k, x, s[1..]);
      assert s == [s[0]] + s[1..];
    }
  }

  lemma {:induction false} SortedFieldsElements(k: SortKey, s: seq<SortRec>)
    ensures multiset(SortedFields(k, s)) == multiset(s)
  {
    if s != [] {
      SortedFieldsElements(k, s[1..]);
      InsertSortedElements(k, s[0], SortedFields(k, s[1..]));
      assert s == [s[0]] + s[1..];
    }
  }

  /** Comparability does not depend on the order or on what is left out. */
  lemma ComparableElements(k: SortKey, s: seq<SortRec>, t: seq<SortRec>)
    requires FieldsComparable(k, s) && multiset(t) <= multiset(s)
    ensures FieldsComparable(k, t)
  {
    hide Comparable;
    forall i | 0 <= i < |t|
      ensures t[i] in s
    {
      assert t[i] in multiset(t);
      assert t[i] in multiset(s);
    }
  }

  lemma {:induction false} InsertSortedOrder(k: SortKey, x: SortRec, s: seq<SortRec>)
    requires FieldsSorted(k, s) && FieldsComparable(k, [x] + s)
    ensures FieldsSorted(k, InsertSorted(k, x, s))
  {
    hide FieldLe, FieldsComparable;
    if s == [] {
    } else if FieldLe(k, x, s[0]) {
      forall j | 0 < j < |s|
        ensures FieldLe(k, x, s[j])
      {
        ComparableThree(k, [x] + s, 0, 1, j + 1);
        FieldOrder(k, x, s[0], s[j]);
      }
    } else {
      ComparableThree(k, [x] + s, 0, 1, 1);
      FieldOrder(k, x, s[0], s[0]);
      ComparableTail(k, x, s);
      InsertSortedOrder(k, x, s[1..]);
      InsertSortedElements(k, x, s[1..]);
      HeadFirst(k, s[0], x, s[1..], InsertSorted(k, x, s[1..]));
    }
  }

  lemma ComparableThree(k: SortKey, s: seq<SortRec>, a: nat, b: nat, c: nat)
    requires FieldsComparable(k, s) && a < |s| && b < |s| && c < |s|
    ensures FieldsComparable(k, [s[a], s[b], s[c]])
  {
    hide Comparable;
  }

  lemma ComparableTail(k: SortKey, x: SortRec, s: seq<SortRec>)
    requires FieldsComparable(k, [x] + s) && s != []
    ensures FieldsComparable(k, [x] + s[1..])
  {
    hide Comparable, FieldsComparable;
    assert s == [s[0]] + s[1..];
    ComparableElements(k, [x] + s, [x] + s[1..]);
  }

  /** A first element before all the others, in a new order, stays first. */
  lemma HeadFirst(k: SortKey, h: SortRec, x: SortRec, s: seq<SortRec>, t: seq<SortRec>)
    requires FieldsSorted(k, [h] + s) && FieldLe(k, h, x) && FieldsSorted(k, t)
    requires multiset(t) == multiset{x} + multiset(s)
    ensures FieldsSorted(k, [h] + t)
  {
    hide FieldLe;
    var u := [h] + s;
    forall j | 0 <= j < |t|
      ensures FieldLe(k, h, t[j])
    {
      assert t[j] in multiset(t);
      if t[j] != x {
        assert t[j] in multiset(s);
        var i :| 0 <= i < |s| && s[i] == t[j];
        assert u[i + 1] == s[i] && u[0] == h;
      }
    }
  }

  lemma {:induction false} SortedFieldsOrder(k: SortKey, s: seq<SortRec>)
    requires FieldsComparable(k, s)
    ensures FieldsSorted(k, SortedFields(k, s))
  {
    hide FieldLe, FieldsComparable;
    if s != [] {
      assert s == [s[0]] + s[1..];
      var t := SortedFields(k, s[1..]);
      SortedFieldsElements(k, s[1..]);
      ComparableElements(k, s, s[1..]);
      ComparableElements(k, s, [s[0]] + t);
      SortedFieldsOrder(k, s[1..]);
      InsertSortedOrder(k, s[0], t);
    }
  }

  /** qsort(3), as far as it is documented: it permutes the items and, when the comparison is an
      order on them, sorts them. */
  method QSort(k: SortKey, buffer: array<SortRec>, items: nat)
    requires items <= buffer.Length
    modifies buffer
    ensures multiset(buffer[..items]) == multiset(old(buffer[..items])) && buffer[items..] == old(buffer[items..])
    ensures FieldsComparable(k, old(buffer[..items])) ==> FieldsSorted(k, buffer[..items])
  {
    hide FieldLe, FieldsComparable, SortedFields;
    ghost var was := buffer[..items];
    var s := SortedFields(k, buffer[..items]);
    SortedFieldsElements(k, was);
    SameSize(s, was);
    if FieldsComparable(k, was) {
      SortedFieldsOrder(k, was);
    }
    forall i | 0 <= i < items {
      buffer[i] := s[i];
    }
    assert buffer[..items] == s;
  }

  lemma SameSize(a: seq<SortRec>, b: seq<SortRec>)
    requires multiset(a) == multiset(b)
    ensures |a| == |b|
  {
    assert |multiset(a)| == |a| && |multiset(b)| == |b|;
  }

  // ----- The merge -----

  /** What fetching a run's next record does to it. */
  function FetchedRun(r: Run): Run
    requires r.pos <= |AllEntries(r.file)|
  {
    if r.valid then r
    else if r.pos == |AllEntries(r.file)| then r.(valid := true, rid := RID(-1, r.rid.slotNo))
    else r.(pos := r.pos + 1, valid := true, rid := AllEntries(r.file)[r.pos].rid, rec := AllEntries(r.file)[r.pos].rec)
  }

  /** Looking at a run's next record takes nothing from it. */
  lemma FetchKeeps(r: Run)
    requires RunOK(r)
    ensures RunOK(FetchedRun(r)) && Left(FetchedRun(r)) == Left(r) && FetchedRun(r).valid
    ensures FetchedRun(r).file == r.file
  {
    hide AllEntries;
  }

  /** A fetched run holds the head of what it has left, or has nothing left. */
  lemma FetchedHead(r: Run)
    requires RunOK(r) && r.valid
    ensures Holding(r) ==> Left(r) != [] && r.rec == Left(r)[0]
    ensures !Holding(r) ==> Left(r) == []
  {
    hide AllEntries;
  }

  /** Giving away the record a run holds takes the head of what it has left. */
  lemma GivenAway(r: Run)
    requires RunOK(r) && Holding(r)
    ensures RunOK(r.(valid := false)) && multiset(Left(r)) == multiset(Left(r.(valid := false))) + multiset{r.rec}
  {
    hide AllEntries;
    FetchedHead(r);
    assert Left(r) == [r.rec] + Left(r.(valid := false));
  }

  /** Of the first n runs, run s holds its next record; s is negative when none does. */
  predicate FoundHeld(runs: seq<Run>, n: nat, s: int)
    requires n <= |runs|
  {
    if s < 0 then forall j :: 0 <= j < n ==> !Holding(runs[j]) else s < n && Holding(runs[s])
  }

  /** And it is the least that the first n runs hold. */
  ghost predicate LeastHeld(k: SortKey, runs: seq<Run>, n: nat, s: int)
    requires n <= |runs|
  {
    FoundHeld(runs, n, s) && forall j :: 0 <= j < n && Holding(runs[j]) && 0 <= s ==> Le(k, runs[s].rec, runs[j].rec)
  }

  /** Of all that is left, the least is the least of the records the runs hold. */
  lemma LeastOfRest(k: SortKey, runs: seq<Run>, all: multiset<Rec>, s: nat, r: Rec)
    requires RunsOK(runs) && RunsSorted(k, runs) && Rest(runs) <= all && Sortable(k, all)
    requires forall j :: 0 <= j < |runs| ==> runs[j].valid
    requires LeastHeld(k, runs, |runs|, s) && r in Rest(runs)
    ensures Le(k, runs[s].rec, r) && KeyLe(k, runs[s].rec, r)
  {
    hide Le, KeyLe, Left, Sortable, RunOK, RunsOK, Sorted;
    var j := RestOwner(runs, r);
    RunLeft(runs, j);
    RunLeft(runs, s);
    FetchedHead(runs[j]);
    FetchedHead(runs[s]);
    HeadLeast(k, runs[j], all, r);
    RestMember(runs, s, runs[s].rec);
    RestMember(runs, j, runs[j].rec);
    LeOrder(k, all, runs[s].rec, runs[j].rec, r);
    LeInKeyOrder(k, all, runs[s].rec, r);
  }

  lemma {:induction false} RunLeft(runs: seq<Run>, i: nat)
    requires RunsOK(runs) && i < |runs|
    ensures RunOK(runs[i]) && multiset(Left(runs[i])) <= Rest(runs)
  {
    hide Left, RunOK;
    if i > 0 {
      RunLeft(runs[1..], i - 1);
    }
  }

  /** Adding one more fetched run to the comparison. */
  lemma LeastStep(k: SortKey, runs: seq<Run>, all: multiset<Rec>, n: nat, s: int)
    requires RunsOK(runs) && Rest(runs) <= all && Sortable(k, all) && n < |runs| && runs[n].valid
    requires LeastHeld(k, runs, n, s)
    ensures !Holding(runs[n]) ==> LeastHeld(k, runs, n + 1, s)
    ensures Holding(runs[n]) && s < 0 ==> LeastHeld(k, runs, n + 1, n)
    ensures Holding(runs[n]) && s >= 0 ==> LeastHeld(k, runs, n + 1, if Le(k, runs[s].rec, runs[n].rec) then s else n)
  {
    hide Left, RunOK, RunsOK, Le, Sortable, Rest;
    if Holding(runs[n]) {
      HeldIn(runs, all, n);
      LeOrder(k, all, runs[n].rec, runs[n].rec, runs[n].rec);
      if s >= 0 {
        HeldIn(runs, all, s);
        LeOrder(k, all, runs[n].rec, runs[s].rec, runs[s].rec);
        forall j | 0 <= j < n && Holding(runs[j])
          ensures Le(k, runs[n].rec, runs[s].rec) ==> Le(k, runs[n].rec, runs[j].rec)
        {
          HeldIn(runs, all, j);
          LeOrder(k, all, runs[n].rec, runs[s].rec, runs[j].rec);
        }
      }
    }
  }

  lemma HeldIn(runs: seq<Run>, all: multiset<Rec>, i: nat)
    requires RunsOK(runs) && Rest(runs) <= all && i < |runs| && Holding(runs[i])
    ensures runs[i].rec in all
  {
    hide Left;
    assert RunOK(runs[i]);
    FetchedHead(runs[i]);
    RestMember(runs, i, runs[i].rec);
  }
}
