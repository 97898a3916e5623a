/** Unsigned LEB128 (section 7.6 of DWARF Version 5) as the storage keys use it,
    on 64-bit `usize` values. */
module Varint {
  import opened Bytes

  const USIZE: nat := 0x1_0000_0000_0000_0000

  function Pow2(n: nat): (p: nat)
    ensures p > 0
  {
    if n == 0 then 1 else 2 * Pow2(n - 1)
  }

  lemma {:induction false} Pow2Sum(m: nat, n: nat)
    ensures Pow2(m + n) == Pow2(m) * Pow2(n)
    decreases m
  {
    if m > 0 {
      Pow2Sum(m - 1, n);
      assert m - 1 + n == m + n - 1;
    }
  }

  lemma Pow2Add7(n: nat)
    ensures Pow2(n + 7) == 128 * Pow2(n)
  {
    assert Pow2(7) == 128 by { assert Pow2(5) == 32; }
    Pow2Sum(7, n);
    assert 7 + n == n + 7;
  }

  lemma Pow2Values()
    ensures Pow2(63) == 0x8000_0000_0000_0000 && Pow2(64) == USIZE
  {
    Pow2Add7(0); Pow2Add7(7); Pow2Add7(14); Pow2Add7(21); Pow2Add7(28);
    Pow2Add7(35); Pow2Add7(42); Pow2Add7(49); Pow2Add7(56);
  }

  // ----- the bit operations of the decoder -----

  /** Bitwise or of two naturals. */
  function Or(a: nat, b: nat): (r: nat)
    decreases a + b
  {
    if a == 0 then b
    else if b == 0 then a
    else (if a % 2 == 1 || b % 2 == 1 then 1 else 0) + 2 * Or(a / 2, b / 2)
  }

  /** `a << n` on a 64-bit word: bits pushed past the top are lost. */
  function ShiftLeft(a: nat, n: nat): (r: nat)
    ensures r < USIZE
  {
    (a * Pow2(n)) % USIZE
  }

  /** Or-ing a multiple of 2^n onto a smaller number adds it. */
  lemma {:induction false} OrIsSum(a: nat, c: nat, n: nat)
    requires a < Pow2(n)
    ensures Or(a, c * Pow2(n)) == a + c * Pow2(n)
    decreases n
  {
    if n > 0 && a > 0 && c > 0 {
      var p := Pow2(n - 1);
      var b := c * Pow2(n);
      assert b == 2 * (c * p);
      assert b > 0;
      OrIsSum(a / 2, c, n - 1);
      assert b / 2 == c * p && b % 2 == 0;
    }
  }

  // ----- encoder -----

  /** The encoding, least significant group of seven bits first. */
  function Encoding(n: nat): (v: Bytes)
    ensures |v| > 0
  {
    if n < 0x80 then [n] else [n % 0x80 + 0x80] + Encoding(n / 0x80)
  }

  method EncodeVarint(value: nat, out: Bytes) returns (r: Bytes)
    requires value < USIZE
    ensures r == out + Encoding(value)
  {
    var n := value;
    r := out;
    while n >= 0x80
      invariant r + Encoding(n) == out + Encoding(value)
    {
      assert r + Encoding(n) == r + [n % 0x80 + 0x80] + Encoding(n / 0x80);
      r := r + [n % 0x80 + 0x80];
      n := n / 0x80;
    }
    r := r + [n];
  }

  // ----- decoder -----

  /** One step of the decoder after `i` bytes gave `value`; seven bits a byte. */
  function DecodeFrom(input: Bytes, i: nat, value: nat): (r: Option<(nat, nat)>)
    requires i <= |input| && i <= 9
    decreases |input| - i
  {
    if i == |input| then None
    else
      var v := Or(value, ShiftLeft(input[i] % 0x80, 7 * i));
      if input[i] < 0x80 then Some((v, i + 1))
      else if 7 * (i + 1) > 63 then None
      else DecodeFrom(input, i + 1, v)
  }

  function Decode(input: Bytes): (r: Option<(nat, nat)>) {
    DecodeFrom(input, 0, 0)
  }

  method DecodeVarint(input: Bytes) returns (r: Option<(nat, nat)>)
    ensures r == Decode(input)
  {
    var shift, value, i := 0, 0, 0;
    while i < |input|
      invariant i <= |input| && i <= 9 && shift == 7 * i
      invariant DecodeFrom(input, i, value) == Decode(input)
    {
      var chunk := input[i] % 0x80;
      value := Or(value, ShiftLeft(chunk, shift));
      if input[i] < 0x80 {
        return Some((value, i + 1));
      }
      shift := shift + 7;
      if shift > 63 {
        return None;
      }
      i := i + 1;
    }
    r := None;
  }

  // ----- what the decoder reads -----

  /** The unbounded value of a little-endian sequence of seven-bit groups. */
  ghost function Groups(s: Bytes): (v: nat) {
    if s == [] then 0 else s[0] % 0x80 + 0x80 * Groups(s[1..])
  }

  /** The bytes up to and including the first one without continuation bit. */
  ghost predicate Terminated(s: Bytes, c: nat) {
    && 0 < c <= |s| && s[c-1] < 0x80
    && forall i :: 0 <= i < c - 1 ==> s[i] >= 0x80
  }

  lemma {:induction false} GroupsSnoc(s: Bytes, b: byte)
    ensures Groups(s + [b]) == Groups(s) + (b % 0x80) * Pow2(7 * |s|)
    decreases |s|
  {
    if s == [] {
      assert s + [b] == [b];
    } else {
      assert (s + [b])[1..] == s[1..] + [b];
      GroupsSnoc(s[1..], b);
      Pow2Add7(7 * |s[1..]|);
      assert 0x80 * ((b % 0x80) * Pow2(7 * |s[1..]|)) == (b % 0x80) * (0x80 * Pow2(7 * |s[1..]|));
    }
  }

  lemma {:induction false} GroupsBound(s: Bytes)
    ensures Groups(s) < Pow2(7 * |s|)
    decreases |s|
  {
    if s != [] {
      GroupsBound(s[1..]);
      Pow2Add7(7 * |s[1..]|);
    }
  }

  lemma {:induction false} Pow2Monotone(m: nat, n: nat)
    requires m <= n
    ensures Pow2(m) <= Pow2(n)
    decreases n
  {
    if m < n {
      Pow2Monotone(m, n - 1);
    }
  }

  lemma MultipleIsFar(k: int, m: int)
    requires k != 0 && m >= 0
    ensures k * m <= -m || m <= k * m
  {
  }

  lemma Modulo(q: nat, r: nat, m: nat)
    requires r < m
    ensures (q * m + r) % m == r
  {
    var x: int := q * m + r;
    var d: int := x / m;
    var e: int := x % m;
    assert (d - q) * m == r - e;
    if d != q {
      MultipleIsFar(d - q, m);
    }
  }

  /** A group that stays below the top bit is simply added. */
  lemma LowGroup(value: nat, chunk: nat, n: nat)
    requires chunk < 0x80 && value < Pow2(n) && n + 7 <= 63
    ensures Or(value, ShiftLeft(chunk, n)) == value + chunk * Pow2(n) < USIZE
  {
    Pow2Add7(n);
    Pow2Monotone(n + 7, 63);
    Pow2Values();
    LowGroupWord(value, chunk, Pow2(n));
    OrIsSum(value, chunk, n);
  }

  lemma LowGroupWord(value: nat, chunk: nat, p: nat)
    requires chunk < 0x80 && value < p && 0x80 * p < USIZE
    ensures value + chunk * p < USIZE && (chunk * p) % USIZE == chunk * p
  {
    AtMost(chunk, 127, p);
    Small(chunk * p, USIZE);
  }

  lemma AtMost(a: nat, b: nat, p: nat)
    requires a <= b
    ensures a * p <= b * p
  {
  }

  lemma Small(x: nat, m: nat)
    requires x < m
    ensures x % m == x
  {
  }

  /** The tenth group keeps one bit only. */
  lemma TopGroup(value: nat, chunk: nat)
    requires chunk < 0x80 && value < Pow2(63)
    ensures Or(value, ShiftLeft(chunk, 63)) == (value + chunk * Pow2(63)) % USIZE
  {
    var p := Pow2(63);
    var q, bit := chunk / 2, chunk % 2;
    assert 2 * p == USIZE by { Pow2Values(); }
    assert chunk * p == (2 * q + bit) * p == q * USIZE + bit * p;
    Modulo(q, bit * p, USIZE);
    OrIsSum(value, bit, 63);
    Modulo(q, value + bit * p, USIZE);
  }

  lemma GroupStep(input: Bytes, i: nat)
    requires i < |input| && i <= 9
    ensures Or(Groups(input[..i]), ShiftLeft(input[i] % 0x80, 7 * i)) == Groups(input[..i+1]) % USIZE
    ensures i < 9 ==> Groups(input[..i+1]) < USIZE
  {
    hide Or, ShiftLeft, Pow2, Groups;
    var b := input[i];
    assert input[..i+1] == input[..i] + [b];
    GroupsSnoc(input[..i], b);
    GroupsBound(input[..i]);
    if i < 9 {
      LowGroup(Groups(input[..i]), b % 0x80, 7 * i);
      Small(Groups(input[..i+1]), USIZE);
    } else {
      TopGroup(Groups(input[..i]), b % 0x80);
    }
  }

  /** The outcome of decoding `input`: the first terminated run of bytes, if it
      has at most ten, and its groups' value cut to 64 bits. */
  ghost predicate Reads(input: Bytes, r: Option<(nat, nat)>) {
    match r
    case Some((v, c)) => c <= 10 && Terminated(input, c) && v == Groups(input[..c]) % USIZE
    case None => forall c :: Terminated(input, c) ==> c > 10
  }

  lemma {:induction false} DecodeFromReads(input: Bytes, i: nat, value: nat)
    requires i <= |input| && i <= 9 && value == Groups(input[..i])
    requires forall j :: 0 <= j < i ==> input[j] >= 0x80
    ensures Reads(input, DecodeFrom(input, i, value))
    decreases |input| - i
  {
    if i < |input| {
      GroupStep(input, i);
      if input[i] < 0x80 {
        assert Terminated(input, i + 1);
      } else if i < 9 {
        Small(Groups(input[..i+1]), USIZE);
        DecodeFromReads(input, i + 1, Groups(input[..i+1]));
      } else {
        assert forall j :: 0 <= j < 10 ==> input[j] >= 0x80;
      }
    }
  }

  lemma DecodeReads(input: Bytes)
    ensures Reads(input, Decode(input))
  {
    DecodeFromReads(input, 0, 0);
  }

  // ----- round trip -----

  lemma {:induction false} EncodingShape(n: nat)
    ensures Terminated(Encoding(n), |Encoding(n)|)
    ensures Groups(Encoding(n)) == n
  {
    if n >= 0x80 {
      EncodingShape(n / 0x80);
      assert Encoding(n)[1..] == Encoding(n / 0x80);
    }
  }

  lemma {:induction false} EncodingLength(n: nat, k: nat)
    requires n < Pow2(7 * k) && k > 0
    ensures |Encoding(n)| <= k
    decreases k
  {
    if n >= 0x80 {
      assert k > 1 by { assert Pow2(7) == 128 by { Pow2Add7(0); } }
      Pow2Add7(7 * (k - 1));
      EncodingLength(n / 0x80, k - 1);
    }
  }

  lemma EncodingFits(n: nat)
    requires n < USIZE
    ensures |Encoding(n)| <= 10
  {
    assert n < Pow2(70) by {
      Pow2Values();
      Pow2Monotone(64, 70);
    }
    EncodingLength(n, 10);
  }

  /** Every 64-bit length, followed by anything, is read back exactly. */
  lemma DecodeEncoding(n: nat, rest: Bytes)
    requires n < USIZE
    ensures Decode(Encoding(n) + rest) == Some((n, |Encoding(n)|))
  {
    var e := Encoding(n);
    var s := e + rest;
    EncodingShape(n);
    EncodingFits(n);
    assert Terminated(s, |e|);
    DecodeReads(s);
    match Decode(s)
    case None =>
    case Some((v, c)) =>
      TerminatedUnique(s, c, |e|);
      assert s[..|e|] == e;
      Small(n, USIZE);
  }

  lemma TerminatedUnique(s: Bytes, c: nat, d: nat)
    requires Terminated(s, c) && Terminated(s, d)
    ensures c == d
  {
  }

  // ----- the converse: which accepted bytes are the encoding of their value -----

  /** No padding group at the end, and no bit pushed past the 64th. */
  predicate Minimal(s: Bytes) {
    && s != []
    && (|s| == 1 || s[|s|-1] != 0)
    && (|s| == 10 ==> s[9] <= 1)
  }

  lemma {:induction false} MinimalIsEncoding(s: Bytes)
    requires Terminated(s, |s|) && (|s| == 1 || s[|s|-1] != 0)
    ensures Encoding(Groups(s)) == s && (|s| > 1 ==> Groups(s) >= 0x80)
    decreases |s|
  {
    if |s| > 1 {
      var t := s[1..];
      assert Terminated(t, |t|);
      MinimalIsEncoding(t);
      assert Groups(t) > 0;
      assert s == [s[0]] + t;
    }
  }

  lemma {:induction false} EncodingEndsNonZero(n: nat)
    ensures n >= 0x80 ==> |Encoding(n)| > 1 && Encoding(n)[|Encoding(n)|-1] != 0
  {
    if n >= 0x80 {
      EncodingEndsNonZero(n / 0x80);
    }
  }

  /** Accepted bytes are the encoding of the value they gave exactly when they
      are minimal; padded and overflowing forms are accepted too. */
  lemma AcceptedIsEncodingIffMinimal(input: Bytes)
    requires Decode(input).Some?
    ensures var (v, c) := Decode(input).value;
            && c <= |input| && v < USIZE
            && (Encoding(v) == input[..c] <==> Minimal(input[..c]))
  {
    DecodeReads(input);
    var (v, c) := Decode(input).value;
    var s := input[..c];
    assert Terminated(s, c);
    if Minimal(s) {
      TenBytesFit(s);
      Small(Groups(s), USIZE);
      MinimalIsEncoding(s);
    } else if Encoding(v) == s {
      EncodingShape(v);
      EncodingEndsNonZero(v);
      TenBytesOverflow(s);
    }
  }

  lemma TenBytesFit(s: Bytes)
    requires 0 < |s| <= 10 && (|s| == 10 ==> s[9] <= 1)
    ensures Groups(s) < USIZE
  {
    Pow2Values();
    if |s| < 10 {
      GroupsBound(s);
      Pow2Monotone(7 * |s|, 63);
    } else {
      assert s == s[..9] + [s[9]];
      GroupsSnoc(s[..9], s[9]);
      GroupsBound(s[..9]);
    }
  }

  lemma TenBytesOverflow(s: Bytes)
    ensures |s| == 10 && 2 <= s[9] < 0x80 ==> Groups(s) >= USIZE
  {
    if |s| == 10 && 2 <= s[9] < 0x80 {
      Pow2Values();
      assert s == s[..9] + [s[9]];
      GroupsSnoc(s[..9], s[9]);
      assert s[9] * Pow2(63) >= 2 * Pow2(63);
    }
  }
}
