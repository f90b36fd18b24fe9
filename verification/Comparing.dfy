/** How attribute values are compared: matchRec of heapfile.C and reccmp of sort.C. */
module Comparing {
  import opened Bytes
  import opened PageSpec

  datatype Datatype = STRING | INTEGER | FLOAT

  datatype Operator = LT | LTE | EQ | GTE | GT | NE

  function Sign(x: int): int { if x < 0 then -1 else if x > 0 then 1 else 0 }

  function SignReal(x: real): int { if x < 0.0 then -1 else if x > 0.0 then 1 else 0 }

  /** Two's complement 32-bit arithmetic. */
  function Wrap32(v: int): int { (v + 0x8000_0000) % 0x1_0000_0000 - 0x8000_0000 }

  /** The sign of an integer difference as the code computes it: subtract, which may wrap
      around, then convert to float. */
  function IntDiff(a: int, b: int): int { Sign(Wrap32(a - b)) }

  predicate Int32(v: int) { -0x8000_0000 <= v < 0x8000_0000 }

  /** The comparison is right exactly when the difference fits in 32 bits; equality always is. */
  lemma IntDiffExactIff(a: int, b: int)
    requires Int32(a) && Int32(b)
    ensures IntDiff(a, b) == Sign(a - b) <==> Int32(a - b)
    ensures IntDiff(a, b) == 0 <==> a == b
  {
    var d := a - b;
    if d >= 0x8000_0000 {
      assert d + 0x8000_0000 - 0x1_0000_0000 == (d + 0x8000_0000) % 0x1_0000_0000;
    } else if d < -0x8000_0000 {
      assert d + 0x8000_0000 + 0x1_0000_0000 == (d + 0x8000_0000) % 0x1_0000_0000;
    }
  }

  /** A pair the code orders the wrong way round. */
  lemma IntDiffWrongExample()
    ensures IntDiff(0x7FFF_FFFF, -1) == -1 && Sign(0x7FFF_FFFF - -1) == 1
  {
  }

  /** memcmp over the first n bytes, as a sign. */
  function MemCmp(a: seq<byte>, b: seq<byte>, n: nat): int
    requires n <= |a| && n <= |b|
  {
    if n == 0 then 0
    else if a[0] != b[0] then (if a[0] < b[0] then -1 else 1)
    else MemCmp(a[1..], b[1..], n - 1)
  }

  /** strncmp: like memcmp, but a zero byte ends both strings.  `b` has n bytes or a zero. */
  function StrNCmp(a: seq<byte>, b: seq<byte>, n: nat): int
    requires n <= |a| && (n <= |b| || 0 in b)
    decreases n
  {
    if n == 0 then 0
    else if a[0] != b[0] then (if a[0] < b[0] then -1 else 1)
    else if a[0] == 0 then 0
    else StrNCmp(a[1..], b[1..], n - 1)
  }

  predicate Holds(op: Operator, sign: int) {
    match op
    case LT => sign < 0
    case LTE => sign <= 0
    case EQ => sign == 0
    case GTE => sign >= 0
    case GT => sign > 0
    case NE => sign != 0
  }

  /** A scan condition: compare the `length` bytes at `offset` with `value`. */
  datatype Condition = NoFilter | Filter(offset: int, length: int, attr: Datatype, value: seq<byte>, op: Operator)

  /** What startScan checks of its arguments. */
  predicate ParmsOK(c: Condition) {
    c.Filter? ==> 0 <= c.offset && 1 <= c.length && (c.attr != STRING ==> c.length == 4)
  }

  /** The filter pointer may be read as far as the comparison goes. */
  predicate Readable(c: Condition) {
    c.Filter? && ParmsOK(c) ==> if c.attr == STRING then c.length <= |c.value| || 0 in c.value else 4 <= |c.value|
  }

  predicate ConditionOK(c: Condition) { ParmsOK(c) && Readable(c) }

  /** matchRec.  `float` reads the four bytes of a finite float. */
  predicate MatchRec(c: Condition, float: seq<byte> -> real, rec: Rec)
    requires ConditionOK(c)
  {
    if c.NoFilter? then true
    else if c.offset + c.length - 1 >= |rec| then false
    else
      var attr := rec[c.offset..c.offset + c.length];
      match c.attr
      case INTEGER => Holds(c.op, IntDiff(IntAt(attr, 0), IntAt(c.value, 0)))
      case FLOAT => Holds(c.op, SignReal(float(attr) - float(c.value[..4])))
      case STRING => Holds(c.op, StrNCmp(attr, c.value, c.length))
  }

  /** A scan condition as a test on records. */
  function Matcher(c: Condition, float: seq<byte> -> real): Rec -> bool {
    (r: Rec) => ConditionOK(c) && MatchRec(c, float, r)
  }

  /** reccmp: -1, 0 or 1. */
  function RecCmp(attr: Datatype, float: seq<byte> -> real, a: seq<byte>, b: seq<byte>): int
    requires |a| == |b| && (attr != STRING ==> |a| == 4)
  {
    match attr
    case INTEGER => IntDiff(IntAt(a, 0), IntAt(b, 0))
    case FLOAT => SignReal(float(a) - float(b))
    case STRING => MemCmp(a, b, |a|)
  }

  // ----- What a scan condition selects -----

  /** The arguments that startScan accepts, and those it can use: the value must be long enough. */
  lemma ParmsAccepted(offset: int, length: int, attr: Datatype, value: seq<byte>, op: Operator)
    ensures ParmsOK(Filter(offset, length, attr, value, op)) <==>
      0 <= offset && ((attr == STRING && 1 <= length) || (attr in {INTEGER, FLOAT} && length == 4))
    ensures ConditionOK(Filter(offset, length, attr, value, op)) <==>
      && 0 <= offset
      && ((attr == STRING && 1 <= length && (length <= |value| || 0 in value))
          || (attr in {INTEGER, FLOAT} && length == 4 && 4 <= |value|))
    ensures ConditionOK(NoFilter)
  {
  }

  /** A record that ends before the attribute does never matches; without a filter every record does. */
  lemma TooShort(c: Condition, float: seq<byte> -> real, rec: Rec)
    requires ConditionOK(c)
    ensures c.Filter? && |rec| < c.offset + c.length ==> !Matcher(c, float)(rec)
    ensures c.NoFilter? ==> Matcher(c, float)(rec)
  {
  }

  lemma FieldInt(r: seq<byte>, at: nat)
    requires at + 4 <= |r|
    ensures IntAt(r[at..at + 4], 0) == IntAt(r, at)
  {
    hide IntOf;
  }

  /** With an integer filter, = and <> select by equality; the four others select as their signs mean
      exactly when the difference fits in 32 bits, unless the two are equal. */
  lemma MatchesInteger(c: Condition, float: seq<byte> -> real, rec: Rec)
    requires ConditionOK(c) && c.Filter? && c.attr == INTEGER && c.offset + 4 <= |rec|
    ensures var x, y := IntAt(rec, c.offset), IntAt(c.value, 0); var selected := Matcher(c, float)(rec);
      && (c.op == EQ ==> (selected <==> x == y))
      && (c.op == NE ==> (selected <==> x != y))
      && (x == y || -0x8000_0000 <= x - y <= 0x7fff_ffff ==>
           && (c.op == LT ==> (selected <==> x < y))
           && (c.op == LTE ==> (selected <==> x <= y))
           && (c.op == GTE ==> (selected <==> x >= y))
           && (c.op == GT ==> (selected <==> x > y)))
      && (!(-0x8000_0000 <= x - y <= 0x7fff_ffff) ==>
           && (c.op in {LT, LTE} ==> (selected <==> x > y))
           && (c.op in {GTE, GT} ==> (selected <==> x < y)))
  {
    hide IntOf, IntAt, Wrap32;
    FieldInt(rec, c.offset);
    var x, y := IntAt(rec, c.offset), IntAt(c.value, 0);
    IntDiffExactIff(x, y);
    if !Int32(x - y) {
      IntDiffSign(x, y);
    }
  }

  lemma IntDiffSign(a: int, b: int)
    requires Int32(a) && Int32(b) && !Int32(a - b)
    ensures IntDiff(a, b) == -Sign(a - b)
  {
    var d := a - b;
    if d >= 0x8000_0000 {
      assert d + 0x8000_0000 - 0x1_0000_0000 == (d + 0x8000_0000) % 0x1_0000_0000;
    } else {
      assert d + 0x8000_0000 + 0x1_0000_0000 == (d + 0x8000_0000) % 0x1_0000_0000;
    }
  }

  /** A float filter selects as its operator means. */
  lemma MatchesFloat(c: Condition, float: seq<byte> -> real, rec: Rec)
    requires ConditionOK(c) && c.Filter? && c.attr == FLOAT && c.offset + 4 <= |rec|
    ensures var x, y := float(rec[c.offset..c.offset + 4]), float(c.value[..4]);
      var selected := Matcher(c, float)(rec);
      && (c.op == LT ==> (selected <==> x < y))
      && (c.op == LTE ==> (selected <==> x <= y))
      && (c.op == EQ ==> (selected <==> x == y))
      && (c.op == GTE ==> (selected <==> x >= y))
      && (c.op == GT ==> (selected <==> x > y))
      && (c.op == NE ==> (selected <==> x != y))
  {
  }

  /** t is the string that s holds in its first n bytes: it ends before the first zero byte. */
  predicate IsText(s: seq<byte>, n: nat, t: seq<byte>) {
    |t| <= n && t <= s && 0 !in t && (|t| < n ==> |t| < |s| && s[|t|] == 0)
  }

  /** s comes before t in lexicographic order: it is a proper prefix, or smaller where they first differ. */
  ghost predicate Before(s: seq<byte>, t: seq<byte>) {
    exists i: nat :: BeforeAt(s, t, i)
  }

  predicate BeforeAt(s: seq<byte>, t: seq<byte>, i: nat) {
    i <= |s| && i < |t| && s[..i] == t[..i] && (i == |s| || s[i] < t[i])
  }

  /** strncmp is the lexicographic order of the strings. */
  lemma {:induction false} StrNCmpLexicographic(a: seq<byte>, b: seq<byte>, n: nat, s: seq<byte>, t: seq<byte>)
    requires n <= |a| && (n <= |b| || 0 in b) && IsText(a, n, s) && IsText(b, n, t)
    ensures StrNCmp(a, b, n) == 0 <==> s == t
    ensures StrNCmp(a, b, n) < 0 <==> Before(s, t)
    ensures StrNCmp(a, b, n) > 0 <==> Before(t, s)
    decreases n
  {
    if s != [] && t != [] && a[0] == b[0] {
      StrNCmpLexicographic(a[1..], b[1..], n - 1, s[1..], t[1..]);
      BeforeNext(s, t);
      BeforeNext(t, s);
    } else {
      BeforeFirst(s, t);
      BeforeFirst(t, s);
    }
  }

  lemma BeforeNext(s: seq<byte>, t: seq<byte>)
    requires s != [] && t != [] && s[0] == t[0]
    ensures Before(s, t) <==> Before(s[1..], t[1..])
    ensures s == t <==> s[1..] == t[1..]
  {
    var s', t' := s[1..], t[1..];
    assert s == [s[0]] + s' && t == [t[0]] + t';
    if i: nat :| BeforeAt(s', t', i) {
      assert s[..i + 1] == [s[0]] + s'[..i] && t[..i + 1] == [t[0]] + t'[..i];
      assert BeforeAt(s, t, i + 1);
    }
    if i: nat :| BeforeAt(s, t, i) {
      assert s'[..i - 1] == s[1..i] && t'[..i - 1] == t[1..i];
      assert BeforeAt(s', t', i - 1);
    }
  }

  lemma BeforeFirst(s: seq<byte>, t: seq<byte>)
    requires s == [] || t == [] || s[0] != t[0]
    ensures Before(s, t) <==> t != [] && (s == [] || s[0] < t[0])
  {
    if t != [] && (s == [] || s[0] < t[0]) {
      assert BeforeAt(s, t, 0);
    }
    if i: nat :| BeforeAt(s, t, i) {
      BeforeHead(s, t, i);
    }
  }

  lemma BeforeHead(s: seq<byte>, t: seq<byte>, i: nat)
    requires BeforeAt(s, t, i)
    ensures t != [] && (i > 0 ==> s != [] && s[0] == t[0])
  {
    if i > 0 {
      assert s[..i][0] == t[..i][0];
    }
  }

  /** A string filter selects by lexicographic order, up to the first zero byte of either string. */
  lemma MatchesString(c: Condition, float: seq<byte> -> real, rec: Rec, s: seq<byte>, t: seq<byte>)
    requires ConditionOK(c) && c.Filter? && c.attr == STRING && c.offset + c.length <= |rec|
    requires IsText(rec[c.offset..], c.length, s) && IsText(c.value, c.length, t)
    ensures var selected := Matcher(c, float)(rec);
      && (c.op == LT ==> (selected <==> Before(s, t)))
      && (c.op == LTE ==> (selected <==> Before(s, t) || s == t))
      && (c.op == EQ ==> (selected <==> s == t))
      && (c.op == GTE ==> (selected <==> Before(t, s) || s == t))
      && (c.op == GT ==> (selected <==> Before(t, s)))
      && (c.op == NE ==> (selected <==> s != t))
  {
    hide StrNCmp, Before;
    var attr := rec[c.offset..c.offset + c.length];
    assert attr == rec[c.offset..][..c.length];
    StrNCmpLexicographic(attr, c.value, c.length, s, t);
  }

  /** There is exactly one such string. */
  lemma {:induction false} TextExists(s: seq<byte>, n: nat) returns (t: seq<byte>)
    requires n <= |s| || 0 in s
    ensures IsText(s, n, t) && forall u :: IsText(s, n, u) ==> u == t
    decreases n
  {
    if n == 0 || s[0] == 0 {
      t := [];
    } else {
      var u := TextExists(s[1..], n - 1);
      t := [s[0]] + u;
      assert s == [s[0]] + s[1..];
      forall v | IsText(s, n, v)
        ensures v == t
      {
        assert v != [] && v == [v[0]] + v[1..];
        assert IsText(s[1..], n - 1, v[1..]);
      }
    }
  }

  // ----- reccmp is an order -----

  lemma {:induction false} MemCmpOrder(a: seq<byte>, b: seq<byte>, c: seq<byte>, n: nat)
    requires n <= |a| && n <= |b| && n <= |c|
    ensures MemCmp(a, b, n) == -MemCmp(b, a, n)
    ensures MemCmp(a, b, n) <= 0 && MemCmp(b, c, n) <= 0 ==> MemCmp(a, c, n) <= 0
    ensures MemCmp(a, b, n) == 0 <==> a[..n] == b[..n]
  {
    if n > 0 {
      MemCmpOrder(a[1..], b[1..], c[1..], n - 1);
      assert a[..n] == [a[0]] + a[1..][..n - 1] && b[..n] == [b[0]] + b[1..][..n - 1];
    }
  }

  /** The strings agree before byte i, and there the first is smaller. */
  predicate SmallerAt(a: seq<byte>, b: seq<byte>, i: nat) { i < |a| && i < |b| && a[..i] == b[..i] && a[i] < b[i] }

  lemma SmallerFirst(a: seq<byte>, b: seq<byte>, i: nat)
    requires a != [] && b != []
    ensures SmallerAt(a, b, i) ==> a[0] <= b[0]
  {
    if SmallerAt(a, b, i) && i > 0 {
      assert a[..i][0] == b[..i][0];
    }
  }

  /** memcmp is the lexicographic order. */
  lemma {:induction false} MemCmpLexicographic(a: seq<byte>, b: seq<byte>)
    requires |a| == |b|
    ensures MemCmp(a, b, |a|) <= 0 <==> a == b || exists i: nat :: SmallerAt(a, b, i)
  {
    if a != [] {
      var a', b' := a[1..], b[1..];
      MemCmpLexicographic(a', b');
      assert a == [a[0]] + a' && b == [b[0]] + b';
      if a[0] < b[0] {
        assert SmallerAt(a, b, 0);
      } else if a[0] == b[0] {
        if i: nat :| SmallerAt(a', b', i) {
          assert a[..i + 1] == [a[0]] + a'[..i] && b[..i + 1] == [b[0]] + b'[..i];
          assert SmallerAt(a, b, i + 1);
        }
        if i: nat :| SmallerAt(a, b, i) {
          assert a'[..i - 1] == a[1..i] && b'[..i - 1] == b[1..i];
          assert SmallerAt(a', b', i - 1);
        }
      } else {
        forall i: nat
          ensures !SmallerAt(a, b, i)
        {
          SmallerFirst(a, b, i);
        }
      }
    }
  }

  /** The keys whose integer differences fit in 32 bits; other keys are always comparable. */
  predicate Comparable(attr: Datatype, a: seq<byte>, b: seq<byte>) {
    |a| == |b| && (attr != STRING ==> |a| == 4) && (attr == INTEGER ==> Int32(IntAt(a, 0) - IntAt(b, 0)))
  }

  /** On comparable keys reccmp is antisymmetric and transitive. */
  lemma RecCmpOrder(attr: Datatype, float: seq<byte> -> real, a: seq<byte>, b: seq<byte>, c: seq<byte>)
    requires Comparable(attr, a, b) && Comparable(attr, b, a)
    requires Comparable(attr, b, c) && Comparable(attr, a, c)
    ensures RecCmp(attr, float, a, b) == -RecCmp(attr, float, b, a)
    ensures RecCmp(attr, float, a, b) <= 0 && RecCmp(attr, float, b, c) <= 0 ==> RecCmp(attr, float, a, c) <= 0
  {
    match attr
    case INTEGER =>
      IntDiffExactIff(IntAt(a, 0), IntAt(b, 0));
      IntDiffExactIff(IntAt(b, 0), IntAt(a, 0));
      IntDiffExactIff(IntAt(b, 0), IntAt(c, 0));
      IntDiffExactIff(IntAt(a, 0), IntAt(c, 0));
    case FLOAT =>
    case STRING => MemCmpOrder(a, b, c, |a|);
  }
}
