/** Byte strings: the lexicographic order that every ordered backend uses, the
    UTF-8 validity test of section 4 of RFC 3629, and a few failure types. */
module Bytes {

  type byte = x: int | 0 <= x < 256

  type Bytes = seq<byte>

  datatype Option<+T> = None | Some(value: T)

  // ----- lexicographic order -----

  /** `a` is smaller than `b`, and `k` is the first place where that shows. */
  ghost predicate LessAt(a: Bytes, b: Bytes, k: nat) {
    && k <= |a| && k < |b|
    && a[..k] == b[..k]
    && (k < |a| ==> a[k] < b[k])
  }

  ghost predicate Less(a: Bytes, b: Bytes) {
    exists k: nat :: LessAt(a, b, k)
  }

  ghost predicate Leq(a: Bytes, b: Bytes) {
    a == b || Less(a, b)
  }

  /** The order as a slice comparison computes it, element by element. */
  predicate SliceLess(a: Bytes, b: Bytes)
    ensures SliceLess(a, b) <==> Less(a, b)
  {
    if b == [] then
      assert !Less(a, b);
      false
    else if a == [] then
      assert LessAt(a, b, 0);
      true
    else if a[0] != b[0] then
      assert a[0] < b[0] ==> LessAt(a, b, 0);
      a[0] < b[0]
    else
      LessTail(a, b);
      SliceLess(a[1..], b[1..])
  }

  lemma LessTail(a: Bytes, b: Bytes)
    requires a != [] && b != [] && a[0] == b[0]
    ensures Less(a, b) <==> Less(a[1..], b[1..])
  {
    if Less(a, b) {
      var k: nat :| LessAt(a, b, k);
      assert a[1..][..k-1] == a[..k][1..] && b[1..][..k-1] == b[..k][1..];
      assert LessAt(a[1..], b[1..], k - 1);
    }
    if Less(a[1..], b[1..]) {
      var k: nat :| LessAt(a[1..], b[1..], k);
      assert a[..k+1] == [a[0]] + a[1..][..k] && b[..k+1] == [b[0]] + b[1..][..k];
      assert LessAt(a, b, k + 1);
    }
  }

  lemma LessIrreflexive(a: Bytes)
    ensures !Less(a, a)
  {
  }

  lemma LessTransitive(a: Bytes, b: Bytes, c: Bytes)
    requires Less(a, b) && Less(b, c)
    ensures Less(a, c)
  {
    var i: nat :| LessAt(a, b, i);
    var j: nat :| LessAt(b, c, j);
    var k := if i < j then i else j;
    assert a[..k] == a[..i][..k] == b[..i][..k] == b[..k];
    assert b[..k] == b[..j][..k] == c[..j][..k] == c[..k];
    assert i < j ==> b[i] == b[..j][i] == c[..j][i] == c[i];
    assert j < i ==> b[j] == b[..i][j] == a[..i][j] == a[j];
    assert LessAt(a, c, k);
  }

  lemma {:induction false} LessTotal(a: Bytes, b: Bytes)
    ensures a == b || Less(a, b) || Less(b, a)
    decreases |a|
  {
    if a == [] || b == [] {
      assert b != [] ==> a == [] ==> LessAt(a, b, 0);
      assert a != [] ==> b == [] ==> LessAt(b, a, 0);
    } else if a[0] < b[0] {
      assert LessAt(a, b, 0);
    } else if b[0] < a[0] {
      assert LessAt(b, a, 0);
    } else {
      LessTotal(a[1..], b[1..]);
      LessTail(a, b);
      LessTail(b, a);
      assert a == [a[0]] + a[1..] && b == [b[0]] + b[1..];
    }
  }

  lemma LessAsymmetric(a: Bytes, b: Bytes)
    requires Less(a, b)
    ensures !Less(b, a) && a != b
  {
    if Less(b, a) {
      LessTransitive(a, b, a);
      LessIrreflexive(a);
    }
  }

  /** Comparing strings that share a head is comparing what follows it. */
  lemma LessAfterPrefix(p: Bytes, a: Bytes, b: Bytes)
    ensures Less(p + a, p + b) <==> Less(a, b)
    decreases |p|
  {
    if p == [] {
      assert p + a == a && p + b == b;
    } else {
      assert (p + a)[1..] == p[1..] + a && (p + b)[1..] == p[1..] + b;
      LessTail(p + a, p + b);
      LessAfterPrefix(p[1..], a, b);
    }
  }

  /** A strict difference inside the heads decides, whatever follows. */
  lemma LessExtends(a: Bytes, b: Bytes, x: Bytes, y: Bytes, k: nat)
    requires k < |a| && k < |b| && a[..k] == b[..k] && a[k] < b[k]
    ensures Less(a + x, b + y)
  {
    assert (a + x)[..k] == a[..k] && (b + y)[..k] == b[..k];
    assert LessAt(a + x, b + y, k);
  }

  /** Strings with one common prefix are an interval of the order. */
  lemma PrefixIsInterval(p: Bytes, x: Bytes, k: Bytes, z: Bytes)
    requires p <= x && p <= z && Leq(x, k) && Leq(k, z)
    ensures p <= k
  {
    if k != x && k != z {
      var i: nat :| LessAt(x, k, i);
      var j: nat :| LessAt(k, z, j);
      if i >= |p| {
        assert k[..|p|] == k[..i][..|p|] == x[..i][..|p|] == p;
      }
    }
  }

  // ----- UTF-8 -----

  predicate IsTail(b: byte) { 0x80 <= b <= 0xBF }

  /** The length of the UTF-8 character that starts `s`, or 0 if there is none. */
  function CharLength(s: Bytes): (n: nat)
    ensures n <= |s|
    ensures s != [] && s[0] < 0x80 ==> n == 1
    ensures n > 0 ==> s != []
  {
    if s == [] then 0
    else if s[0] <= 0x7F then 1
    else if 0xC2 <= s[0] <= 0xDF then
      if |s| >= 2 && IsTail(s[1]) then 2 else 0
    else if 0xE0 <= s[0] <= 0xEF then
      if && |s| >= 3 && IsTail(s[1]) && IsTail(s[2])
         && (s[0] == 0xE0 ==> 0xA0 <= s[1])
         && (s[0] == 0xED ==> s[1] <= 0x9F)
      then 3 else 0
    else if 0xF0 <= s[0] <= 0xF4 then
      if && |s| >= 4 && IsTail(s[1]) && IsTail(s[2]) && IsTail(s[3])
         && (s[0] == 0xF0 ==> 0x90 <= s[1])
         && (s[0] == 0xF4 ==> s[1] <= 0x8F)
      then 4 else 0
    else 0
  }

  predicate ValidUtf8(s: Bytes)
    decreases |s|
  {
    s == [] || (CharLength(s) > 0 && ValidUtf8(s[CharLength(s)..]))
  }

  lemma {:induction false} AsciiIsUtf8(s: Bytes)
    requires forall i :: 0 <= i < |s| ==> s[i] < 0x80
    ensures ValidUtf8(s)
    decreases |s|
  {
    if s != [] {
      AsciiIsUtf8(s[1..]);
    }
  }
}
