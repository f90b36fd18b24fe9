/** What the nested-loops join (join.C) makes of two relations with numeric join attributes. */
module Joins {
  import opened Bytes
  import opened PageSpec
  import opened HeapSpec
  import opened Comparing

  /** One attribute of the result: which relation it comes from, and where it lies there. */
  datatype Proj = Proj(fromOuter: bool, offset: nat, length: nat)

  /** A numeric join attribute. */
  datatype Attr = Attr(offset: nat, attr: Datatype)

  const NUMLEN := 4

  predicate HasAttr(a: Attr, r: Rec) { a.attr != STRING && a.offset + NUMLEN <= |r| }

  predicate HasProjs(ps: seq<Proj>, outer: Rec, inner: Rec) {
    forall p :: p in ps ==> p.offset + p.length <= |if p.fromOuter then outer else inner|
  }

  /** Every attribute lies inside the record that it is taken from. */
  lemma HasProjsIff(ps: seq<Proj>, outer: Rec, inner: Rec)
    ensures HasProjs(ps, outer, inner) <==> forall i :: 0 <= i < |ps| ==>
      ps[i].offset + ps[i].length <= if ps[i].fromOuter then |outer| else |inner|
  {
    if HasProjs(ps, outer, inner) {
      forall i | 0 <= i < |ps|
        ensures ps[i].offset + ps[i].length <= if ps[i].fromOuter then |outer| else |inner|
      {
        assert ps[i] in ps;
      }
    }
  }

  function Piece(p: Proj, outer: Rec, inner: Rec): (b: seq<byte>)
    requires p.offset + p.length <= |if p.fromOuter then outer else inner|
    ensures |b| == p.length
  {
    (if p.fromOuter then outer else inner)[p.offset..p.offset + p.length]
  }

  function TotalLength(ps: seq<Proj>): nat {
    if ps == [] then 0 else TotalLength(ps[..|ps| - 1]) + ps[|ps| - 1].length
  }

  /** The result record of a pair. */
  function Project(ps: seq<Proj>, outer: Rec, inner: Rec): (r: Rec)
    requires HasProjs(ps, outer, inner)
    ensures |r| == TotalLength(ps)
  {
    if ps == [] then [] else Project(ps[..|ps| - 1], outer, inner) + Piece(ps[|ps| - 1], outer, inner)
  }

  lemma {:induction false} PrefixLength(ps: seq<Proj>, i: nat)
    requires i <= |ps|
    ensures TotalLength(ps[..i]) <= TotalLength(ps)
    decreases |ps|
  {
    if i < |ps| {
      PrefixLength(ps[..|ps| - 1], i);
      assert ps[..|ps| - 1][..i] == ps[..i];
    } else {
      assert ps[..i] == ps;
    }
  }

  /** memcpy of one attribute into the buffer. */
  method CopyPiece(piece: seq<byte>, data: array<byte>, at: nat)
    requires at + |piece| <= data.Length
    modifies data
    ensures data[..at + |piece|] == old(data[..at]) + piece
  {
    forall b | 0 <= b < |piece| {
      data[at + b] := piece[b];
    }
  }

  lemma ProjectNext(ps: seq<Proj>, outer: Rec, inner: Rec, i: nat)
    requires HasProjs(ps, outer, inner) && i < |ps|
    ensures HasProjs(ps[..i], outer, inner) && HasProjs(ps[..i + 1], outer, inner) && ps[i] in ps
    ensures TotalLength(ps[..i + 1]) == TotalLength(ps[..i]) + ps[i].length <= TotalLength(ps)
    ensures Project(ps[..i + 1], outer, inner) == Project(ps[..i], outer, inner) + Piece(ps[i], outer, inner)
  {
    PrefixLength(ps, i + 1);
    assert ps[..i + 1][..i] == ps[..i];
  }

  /** The bytes of attribute i follow those of the attributes before it. */
  ghost predicate Copied(ps: seq<Proj>, outer: Rec, inner: Rec, data: seq<byte>, i: nat)
    requires i < |ps|
  {
    var p, at := ps[i], TotalLength(ps[..i]);
    var from := if p.fromOuter then outer else inner;
    && at + p.length <= |data| && p.offset + p.length <= |from|
    && data[at..at + p.length] == from[p.offset..p.offset + p.length]
  }

  /** That is so in a projection. */
  lemma {:induction false} ProjectCopies(ps: seq<Proj>, outer: Rec, inner: Rec, i: nat)
    requires HasProjs(ps, outer, inner) && i < |ps|
    ensures Copied(ps, outer, inner, Project(ps, outer, inner), i)
    decreases |ps|
  {
    hide Piece, TotalLength;
    assert ps[i] in ps;
    var n := |ps| - 1;
    if i < n {
      ProjectCopies(ps[..n], outer, inner, i);
      assert ps[..n][..i] == ps[..i] && ps[..n][i] == ps[i];
      MoreBytes(Project(ps[..n], outer, inner), Piece(ps[n], outer, inner), TotalLength(ps[..i]), ps[i].length);
    } else {
      ProjectsLast(ps, outer, inner);
    }
  }

  lemma ProjectsLast(ps: seq<Proj>, outer: Rec, inner: Rec)
    requires HasProjs(ps, outer, inner) && ps != []
    ensures Copied(ps, outer, inner, Project(ps, outer, inner), |ps| - 1)
  {
    var n := |ps| - 1;
    assert ps[n] in ps;
    LastBytes(Project(ps[..n], outer, inner), Piece(ps[n], outer, inner));
  }

  lemma LastBytes(a: seq<byte>, b: seq<byte>)
    ensures (a + b)[|a|..|a| + |b|] == b
  {
  }

  lemma MoreBytes(a: seq<byte>, b: seq<byte>, at: nat, n: nat)
    requires at + n <= |a|
    ensures (a + b)[at..at + n] == a[at..at + n]
  {
  }

  /** The loop that fills the buffer of the result record, one attribute after the other. */
  method FillData(ps: seq<Proj>, outer: Rec, inner: Rec, data: array<byte>)
    requires HasProjs(ps, outer, inner) && data.Length == TotalLength(ps)
    modifies data
    ensures data[..] == Project(ps, outer, inner)
    ensures forall i: nat :: i < |ps| ==> Copied(ps, outer, inner, data[..], i)
  {
    hide Piece, Project, TotalLength;
    var length := 0;
    NoPieces(ps, outer, inner);
    for i := 0 to |ps|
      invariant HasProjs(ps[..i], outer, inner) && length == TotalLength(ps[..i]) <= data.Length
      invariant data[..length] == Project(ps[..i], outer, inner)
    {
      ProjectNext(ps, outer, inner, i);
      CopyPiece(Piece(ps[i], outer, inner), data, length);
      length := length + ps[i].length;
    }
    assert ps[..|ps|] == ps;
    forall i: nat | i < |ps|
      ensures Copied(ps, outer, inner, data[..], i)
    {
      ProjectCopies(ps, outer, inner, i);
    }
  }

  lemma NoPieces(ps: seq<Proj>, outer: Rec, inner: Rec)
    ensures HasProjs(ps[..0], outer, inner) && TotalLength(ps[..0]) == 0 && Project(ps[..0], outer, inner) == []
  {
  }

  // ----- Which pairs join -----

  /** The scan of the inner relation that startScan is given for an outer record. */
  function InnerScan(a1: Attr, a2: Attr, op: Operator, outer: Rec): Condition
    requires HasAttr(a1, outer)
  {
    Filter(a2.offset, NUMLEN, a1.attr, outer[a1.offset..a1.offset + NUMLEN], op)
  }

  /** The comparison of two attribute values as numbers: the sign of outer minus inner. */
  function Compare(a1: Attr, a2: Attr, float: seq<byte> -> real, outer: Rec, inner: Rec): int
    requires HasAttr(a1, outer) && HasAttr(a2, inner)
  {
    var x, y := outer[a1.offset..a1.offset + NUMLEN], inner[a2.offset..a2.offset + NUMLEN];
    if a1.attr == INTEGER then Sign(IntAt(x, 0) - IntAt(y, 0)) else SignReal(float(x) - float(y))
  }

  ghost predicate NoOverflow(a1: Attr, a2: Attr, outer: Rec, inner: Rec)
    requires HasAttr(a1, outer) && HasAttr(a2, inner)
  {
    a1.attr == INTEGER ==>
      Int32(IntAt(inner[a2.offset..a2.offset + NUMLEN], 0) - IntAt(outer[a1.offset..a1.offset + NUMLEN], 0))
  }

  /** The pair is in the result. */
  predicate Joined(a1: Attr, a2: Attr, op: Operator, float: seq<byte> -> real, outer: Rec, inner: Rec) {
    HasAttr(a1, outer) && MatchRec(InnerScan(a1, a2, op, outer), float, inner)
  }

  /** With =, the join pairs exactly the records whose attributes are equal. */
  lemma EqualKeysJoin(a1: Attr, a2: Attr, float: seq<byte> -> real, outer: Rec, inner: Rec)
    requires HasAttr(a1, outer) && HasAttr(a2, inner)
    ensures Joined(a1, a2, EQ, float, outer, inner) <==> Compare(a1, a2, float, outer, inner) == 0
  {
    hide IntOf, IntAt;
    var x, y := outer[a1.offset..a1.offset + NUMLEN], inner[a2.offset..a2.offset + NUMLEN];
    assert x[..4] == x;
    IntDiffExactIff(IntAt(y, 0), IntAt(x, 0));
  }

  function Mirror(op: Operator): Operator {
    match op
    case LT => GT
    case LTE => GTE
    case EQ => EQ
    case GTE => LTE
    case GT => LT
    case NE => NE
  }

  /** The inner scan applies the operator with its operands exchanged. */
  lemma JoinedMirrored(a1: Attr, a2: Attr, op: Operator, float: seq<byte> -> real, outer: Rec, inner: Rec)
    requires HasAttr(a1, outer) && HasAttr(a2, inner) && NoOverflow(a1, a2, outer, inner)
    ensures Joined(a1, a2, op, float, outer, inner) <==> Holds(Mirror(op), Compare(a1, a2, float, outer, inner))
  {
    hide IntOf, IntAt;
    var x, y := outer[a1.offset..a1.offset + NUMLEN], inner[a2.offset..a2.offset + NUMLEN];
    assert x[..4] == x;
    IntDiffExactIff(IntAt(y, 0), IntAt(x, 0));
  }

  /** When the difference of two integers overflows, its sign is turned round a second time. */
  lemma JoinedTwiceMirrored(a1: Attr, a2: Attr, op: Operator, float: seq<byte> -> real, outer: Rec, inner: Rec)
    requires HasAttr(a1, outer) && HasAttr(a2, inner) && !NoOverflow(a1, a2, outer, inner)
    ensures Joined(a1, a2, op, float, outer, inner) <==> Holds(op, Compare(a1, a2, float, outer, inner))
  {
    hide IntOf, IntAt;
    var x, y := outer[a1.offset..a1.offset + NUMLEN], inner[a2.offset..a2.offset + NUMLEN];
    assert x[..4] == x;
    IntDiffSign(IntAt(y, 0), IntAt(x, 0));
  }

  /** So a pair is joined as "outer op inner" means exactly when the operator is symmetric, the
      attributes are equal, or their difference overflows. */
  lemma JoinMeansOperatorIff(a1: Attr, a2: Attr, op: Operator, float: seq<byte> -> real, outer: Rec, inner: Rec)
    requires HasAttr(a1, outer) && HasAttr(a2, inner)
    ensures (Joined(a1, a2, op, float, outer, inner) <==> Holds(op, Compare(a1, a2, float, outer, inner)))
       <==> op in {EQ, NE} || Compare(a1, a2, float, outer, inner) == 0 || !NoOverflow(a1, a2, outer, inner)
  {
    hide Joined, Compare, NoOverflow;
    if NoOverflow(a1, a2, outer, inner) {
      JoinedMirrored(a1, a2, op, float, outer, inner);
    } else {
      JoinedTwiceMirrored(a1, a2, op, float, outer, inner);
    }
    CompareRange(a1, a2, float, outer, inner);
  }

  lemma CompareRange(a1: Attr, a2: Attr, float: seq<byte> -> real, outer: Rec, inner: Rec)
    requires HasAttr(a1, outer) && HasAttr(a2, inner)
    ensures -1 <= Compare(a1, a2, float, outer, inner) <= 1
  {
    hide IntOf, IntAt;
  }

  /** The pairs of integers that join.  The operator is applied with its operands exchanged; when the
      difference overflows, that is made good. */
  lemma JoinsIntegers(a1: Attr, a2: Attr, op: Operator, float: seq<byte> -> real, outer: Rec, inner: Rec)
    requires a1.attr == INTEGER && a1.offset + 4 <= |outer| && a2.offset + 4 <= |inner|
    ensures var x, y := IntAt(outer, a1.offset), IntAt(inner, a2.offset);
      var joined := Joined(a1, a2, op, float, outer, inner);
      && (op == EQ ==> (joined <==> x == y))
      && (op == NE ==> (joined <==> x != y))
      && (-0x8000_0000 <= y - x <= 0x7fff_ffff ==>
           && (op == LT ==> (joined <==> x > y))
           && (op == LTE ==> (joined <==> x >= y))
           && (op == GTE ==> (joined <==> x <= y))
           && (op == GT ==> (joined <==> x < y)))
      && (!(-0x8000_0000 <= y - x <= 0x7fff_ffff) ==>
           && (op in {LT, LTE} ==> (joined <==> x < y))
           && (op in {GTE, GT} ==> (joined <==> x > y)))
  {
    hide IntOf, IntAt, MatchRec;
    FieldInt(outer, a1.offset);
    MatchesInteger(InnerScan(a1, a2, op, outer), float, inner);
  }

  /** And the pairs of floats. */
  lemma JoinsFloats(a1: Attr, a2: Attr, op: Operator, float: seq<byte> -> real, outer: Rec, inner: Rec)
    requires a1.attr == FLOAT && a1.offset + 4 <= |outer| && a2.offset + 4 <= |inner|
    ensures var x, y := float(outer[a1.offset..a1.offset + 4]), float(inner[a2.offset..a2.offset + 4]);
      var joined := Joined(a1, a2, op, float, outer, inner);
      && (op == LT ==> (joined <==> x > y))
      && (op == LTE ==> (joined <==> x >= y))
      && (op == EQ ==> (joined <==> x == y))
      && (op == GTE ==> (joined <==> x <= y))
      && (op == GT ==> (joined <==> x < y))
      && (op == NE ==> (joined <==> x != y))
  {
    hide MatchRec;
    MatchesFloat(InnerScan(a1, a2, op, outer), float, inner);
    assert outer[a1.offset..a1.offset + 4][..4] == outer[a1.offset..a1.offset + 4];
  }

  // ----- The join as a value -----

  /** What one join is given. */
  datatype Query = Query(a1: Attr, a2: Attr, op: Operator, ps: seq<Proj>, float: seq<byte> -> real)

  /** All records have the attributes that the query reads. */
  ghost predicate Answerable(q: Query, os: seq<Entry>, ns: seq<Entry>) {
    && (forall o :: o in os ==> HasAttr(q.a1, o.rec))
    && (forall n :: n in ns ==> HasAttr(q.a2, n.rec))
    && (forall o, n :: o in os && n in ns ==> HasProjs(q.ps, o.rec, n.rec))
    && 1 <= TotalLength(q.ps) <= MAXREC
  }

  /** The result records of one outer record, in the order of the inner relation. */
  function RowsOf(q: Query, o: Rec, ns: seq<Entry>): seq<Rec> {
    if ns == [] then [] else
      var n := ns[|ns| - 1].rec;
      RowsOf(q, o, ns[..|ns| - 1])
        + if Joined(q.a1, q.a2, q.op, q.float, o, n) && HasProjs(q.ps, o, n) then [Project(q.ps, o, n)] else []
  }

  /** All result records, in outer-major order. */
  function Rows(q: Query, os: seq<Entry>, ns: seq<Entry>): seq<Rec> {
    if os == [] then [] else Rows(q, os[..|os| - 1], ns) + RowsOf(q, os[|os| - 1].rec, ns)
  }

  lemma {:induction false} RowLengths(q: Query, o: Rec, ns: seq<Entry>)
    ensures forall r :: r in RowsOf(q, o, ns) ==> |r| == TotalLength(q.ps)
  {
    hide Joined, Project;
    if ns != [] {
      RowLengths(q, o, ns[..|ns| - 1]);
    }
  }

  lemma {:induction false} AllRowLengths(q: Query, os: seq<Entry>, ns: seq<Entry>)
    ensures forall r :: r in Rows(q, os, ns) ==> |r| == TotalLength(q.ps)
  {
    hide RowsOf;
    if os != [] {
      AllRowLengths(q, os[..|os| - 1], ns);
      RowLengths(q, os[|os| - 1].rec, ns);
    }
  }
}
