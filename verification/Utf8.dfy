/** UTF-8 as the encoding of scalar values (section 3 of RFC 3629), and the validity test as
    its exact counterpart. */
module Utf8 {
  import opened Bytes

  predicate IsScalar(c: nat) {
    c < 0xD800 || 0xE000 <= c <= 0x10FFFF
  }

  function EncodeChar(c: nat): (s: Bytes)
    requires IsScalar(c)
    ensures 1 <= |s| <= 4
  {
    if c < 0x80 then [c]
    else if c < 0x800 then [0xC0 + c / 64, 0x80 + c % 64]
    else if c < 0x1_0000 then [0xE0 + c / 4096, 0x80 + c / 64 % 64, 0x80 + c % 64]
    else [0xF0 + c / 262144, 0x80 + c / 4096 % 64, 0x80 + c / 64 % 64, 0x80 + c % 64]
  }

  predicate AllScalar(cs: seq<nat>) {
    forall i | 0 <= i < |cs| :: IsScalar(cs[i])
  }

  function Encode(cs: seq<nat>): (s: Bytes)
    requires AllScalar(cs)
  {
    if cs == [] then [] else EncodeChar(cs[0]) + Encode(cs[1..])
  }

  lemma TwoDigits(a: nat, b: nat)
    requires b < 64
    ensures (a * 64 + b) / 64 == a && (a * 64 + b) % 64 == b
  {
  }

  lemma ThreeDigits(a: nat, b: nat, c: nat)
    requires b < 64 && c < 64
    ensures var n := a * 4096 + b * 64 + c; n / 4096 == a && n / 64 % 64 == b && n % 64 == c && n / 64 == a * 64 + b
  {
    TwoDigits(a * 64 + b, c);
    TwoDigits(a, b);
  }

  lemma FourDigits(a: nat, b: nat, c: nat, d: nat)
    requires b < 64 && c < 64 && d < 64
    ensures var n := a * 262144 + b * 4096 + c * 64 + d;
            n / 262144 == a && n / 4096 % 64 == b && n / 64 % 64 == c && n % 64 == d
  {
    TwoDigits(a * 4096 + b * 64 + c, d);
    ThreeDigits(a, b, c);
  }

  /** What the test takes as a character encodes a scalar value. */
  lemma CharIsEncoded(s: Bytes) returns (c: nat)
    requires CharLength(s) > 0
    ensures IsScalar(c) && CharLength(s) <= |s| && EncodeChar(c) == s[..CharLength(s)]
  {
    var n := CharLength(s);
    var a: int := s[0];
    if n == 1 {
      c := a;
    } else if n == 2 {
      var b: int := s[1];
      c := (a - 0xC0) * 64 + (b - 0x80);
      TwoDigits(a - 0xC0, b - 0x80);
    } else if n == 3 {
      var b: int, d: int := s[1], s[2];
      c := (a - 0xE0) * 4096 + (b - 0x80) * 64 + (d - 0x80);
      ThreeDigits(a - 0xE0, b - 0x80, d - 0x80);
    } else {
      c := FourAreEncoded(s);
    }
  }

  lemma FourAreEncoded(s: Bytes) returns (c: nat)
    requires CharLength(s) == 4
    ensures IsScalar(c) && 4 <= |s| && EncodeChar(c) == s[..4]
  {
    var a: int, b: int, d: int, e: int := s[0], s[1], s[2], s[3];
    c := (a - 0xF0) * 262144 + (b - 0x80) * 4096 + (d - 0x80) * 64 + (e - 0x80);
    FourDigits(a - 0xF0, b - 0x80, d - 0x80, e - 0x80);
  }

  /** And an encoded scalar value is taken as a character, whatever follows. */
  lemma EncodedIsChar(c: nat, rest: Bytes)
    requires IsScalar(c)
    ensures CharLength(EncodeChar(c) + rest) == |EncodeChar(c)|
  {
    var e := EncodeChar(c);
    if |e| >= 3 {
      LongIsChar(c, rest);
    } else {
      var s := e + rest;
      assert forall i | 0 <= i < |e| :: s[i] == e[i];
    }
  }

  lemma LongIsChar(c: nat, rest: Bytes)
    requires IsScalar(c) && c >= 0x800
    ensures CharLength(EncodeChar(c) + rest) == |EncodeChar(c)|
  {
    var e := EncodeChar(c);
    var s := e + rest;
    assert s[0] == e[0] && s[1] == e[1] && s[2] == e[2];
    if c >= 0x10000 {
      assert s[3] == e[3];
    }
  }

  /** The test accepts exactly the encodings of scalar values. */
  lemma {:induction false} ValidIsEncoding(s: Bytes) returns (cs: seq<nat>)
    requires ValidUtf8(s)
    ensures AllScalar(cs) && Encode(cs) == s
    decreases |s|
  {
    hide *;
    if s == [] {
      cs := [];
      EncodeNothing();
    } else {
      ValidStep(s);
      var c := CharIsEncoded(s);
      var n := CharLength(s);
      var rest := ValidIsEncoding(s[n..]);
      cs := [c] + rest;
      assert s == s[..n] + s[n..];
      EncodeStep(c, rest);
    }
  }

  lemma EncodeNothing()
    ensures AllScalar([]) && Encode([]) == []
  {
  }

  lemma ValidStep(s: Bytes)
    requires ValidUtf8(s) && s != []
    ensures 0 < CharLength(s) <= |s| && ValidUtf8(s[CharLength(s)..])
  {
    hide CharLength;
  }

  lemma EncodeStep(c: nat, rest: seq<nat>)
    requires IsScalar(c) && AllScalar(rest)
    ensures AllScalar([c] + rest) && Encode([c] + rest) == EncodeChar(c) + Encode(rest)
  {
    hide EncodeChar;
    assert ([c] + rest)[1..] == rest;
  }

  lemma {:induction false} EncodingIsValid(cs: seq<nat>)
    requires AllScalar(cs)
    ensures ValidUtf8(Encode(cs))
    decreases |cs|
  {
    if cs != [] {
      var e, rest := EncodeChar(cs[0]), Encode(cs[1..]);
      EncodingIsValid(cs[1..]);
      EncodedIsChar(cs[0], rest);
      hide CharLength, EncodeChar;
      assert (e + rest)[|e|..] == rest;
    }
  }
}
