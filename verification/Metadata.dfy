/** The byte form of object metadata: a fixed head, then length-prefixed attributes whose
    count and lengths are cut to sixteen bits. */
module Metadata {
  import opened Bytes
  import opened LittleEndian

  /** A key and a value, as their UTF-8 bytes. */
  datatype Attribute = Attribute(key: Bytes, value: Bytes)

  datatype ObjectMetadata = ObjectMetadata(version: nat, tombstone: bool, attributes: seq<Attribute>)

  ghost predicate IsAttribute(a: Attribute) {
    ValidUtf8(a.key) && ValidUtf8(a.value)
  }

  /** What the fields of the record can hold: a 64-bit version and strings. */
  ghost predicate IsMetadata(m: ObjectMetadata) {
    && m.version < Pow256(8)
    && forall i | 0 <= i < |m.attributes| :: IsAttribute(m.attributes[i])
  }

  predicate Short(a: Attribute) {
    |a.key| <= 65535 && |a.value| <= 65535
  }

  /** Count and lengths survive the cut to sixteen bits. */
  predicate Fits(m: ObjectMetadata) {
    && |m.attributes| <= 65535
    && forall i | 0 <= i < |m.attributes| :: Short(m.attributes[i])
  }

  // ----- encoding -----

  function EncodeAttribute(a: Attribute): (s: Bytes)
    ensures |s| == 4 + |a.key| + |a.value|
  {
    ToLe(|a.key|, 2) + a.key + ToLe(|a.value|, 2) + a.value
  }

  function EncodeAttributes(attrs: seq<Attribute>): (s: Bytes) {
    if attrs == [] then [] else EncodeAttribute(attrs[0]) + EncodeAttributes(attrs[1..])
  }

  function Flag(b: bool): (x: byte) { if b then 1 else 0 }

  function Encode(m: ObjectMetadata): (s: Bytes) {
    ToLe(m.version, 8) + [Flag(m.tombstone)] + ToLe(|m.attributes|, 2) + EncodeAttributes(m.attributes)
  }

  lemma {:induction false} EncodeAppend(attrs: seq<Attribute>, a: Attribute)
    ensures EncodeAttributes(attrs + [a]) == EncodeAttributes(attrs) + EncodeAttribute(a)
  {
    if attrs == [] {
      assert attrs + [a] == [a];
    } else {
      assert (attrs + [a])[1..] == attrs[1..] + [a];
      EncodeAppend(attrs[1..], a);
    }
  }

  method ToBytes(m: ObjectMetadata) returns (bytes: Bytes)
    ensures bytes == Encode(m)
  {
    bytes := ToLe(m.version, 8);
    bytes := bytes + [if m.tombstone then 1 else 0];
    bytes := bytes + ToLe(|m.attributes|, 2);
    ghost var head := bytes;
    for i := 0 to |m.attributes|
      invariant bytes == head + EncodeAttributes(m.attributes[..i])
    {
      var a := m.attributes[i];
      assert m.attributes[..i + 1] == m.attributes[..i] + [a];
      EncodeAppend(m.attributes[..i], a);
      bytes := bytes + ToLe(|a.key|, 2);
      bytes := bytes + a.key;
      bytes := bytes + ToLe(|a.value|, 2);
      bytes := bytes + a.value;
    }
    assert m.attributes[..|m.attributes|] == m.attributes;
  }

  // ----- decoding -----

  /** The attribute at the front of `s`; what follows it is not looked at. */
  function TakeAttribute(s: Bytes): (r: Option<Attribute>)
    ensures r.Some? ==> 4 + |r.value.key| + |r.value.value| <= |s|
  {
    if |s| < 2 then None
    else
      var klen := FromLe(s[..2]);
      if |s| < 2 + klen + 2 then None
      else
        var key := s[2..2 + klen];
        var vlen := FromLe(s[2 + klen..4 + klen]);
        if |s| < 4 + klen + vlen then None
        else
          var value := s[4 + klen..4 + klen + vlen];
          if ValidUtf8(key) && ValidUtf8(value) then Some(Attribute(key, value)) else None
  }

  function Size(a: Attribute): (n: nat) { 4 + |a.key| + |a.value| }

  function TakeAttributes(s: Bytes, n: nat): (r: Option<seq<Attribute>>)
    decreases n
  {
    if n == 0 then Some([])
    else
      var a := TakeAttribute(s);
      if a.None? then None
      else
        var rest := TakeAttributes(s[Size(a.value)..], n - 1);
        if rest.None? then None else Some([a.value] + rest.value)
  }

  function Decode(s: Bytes): (r: Option<ObjectMetadata>) {
    if |s| < 11 then None
    else
      var attrs := TakeAttributes(s[11..], FromLe(s[9..11]));
      if attrs.None? then None else Some(ObjectMetadata(FromLe(s[..8]), s[8] != 0, attrs.value))
  }

  /** What is still to come when `attrs` have been read and `n` are left at `pos`. */
  ghost predicate Pending(s: Bytes, all: Option<seq<Attribute>>, attrs: seq<Attribute>, pos: nat, n: nat)
    requires pos <= |s|
  {
    var rest := TakeAttributes(s[pos..], n);
    all == if rest.None? then None else Some(attrs + rest.value)
  }

  lemma PendingStep(s: Bytes, all: Option<seq<Attribute>>, attrs: seq<Attribute>, pos: nat, n: nat)
    requires pos <= |s| && n > 0
    requires Pending(s, all, attrs, pos, n)
    ensures TakeAttribute(s[pos..]).None? ==> all.None?
    ensures TakeAttribute(s[pos..]).Some? ==>
              var a := TakeAttribute(s[pos..]).value;
              && pos + Size(a) <= |s|
              && Pending(s, all, attrs + [a], pos + Size(a), n - 1)
  {
    hide TakeAttribute;
    var t := TakeAttribute(s[pos..]);
    if t.Some? {
      var a := t.value;
      assert s[pos..][Size(a)..] == s[pos + Size(a)..];
      var rest := TakeAttributes(s[pos + Size(a)..], n - 1);
      if rest.Some? {
        assert attrs + ([a] + rest.value) == (attrs + [a]) + rest.value;
      }
    }
  }

  /** Reads one attribute at `pos`, as the loop body does. */
  method ReadAttribute(bytes: Bytes, pos: nat) returns (r: Option<Attribute>, next: nat)
    requires pos <= |bytes|
    ensures r == TakeAttribute(bytes[pos..])
    ensures r.Some? ==> next == pos + Size(r.value)
  {
    hide FromLe, ValidUtf8;
    r, next := None, pos;
    if next + 2 > |bytes| {
      return;
    }
    assert bytes[pos..][..2] == bytes[pos..pos + 2];
    var klen := FromLe(bytes[next..next + 2]);
    next := next + 2;
    if next + klen + 2 > |bytes| {
      return;
    }
    var key := bytes[next..next + klen];
    assert key == bytes[pos..][2..2 + klen];
    if !ValidUtf8(key) {
      return;
    }
    next := next + klen;
    assert bytes[next..next + 2] == bytes[pos..][2 + klen..4 + klen];
    var vlen := FromLe(bytes[next..next + 2]);
    next := next + 2;
    if next + vlen > |bytes| {
      return;
    }
    var value := bytes[next..next + vlen];
    assert value == bytes[pos..][4 + klen..4 + klen + vlen];
    if !ValidUtf8(value) {
      return;
    }
    next := next + vlen;
    r := Some(Attribute(key, value));
  }

  method FromBytes(bytes: Bytes) returns (r: Option<ObjectMetadata>)
    ensures r == Decode(bytes)
  {
    hide FromLe, TakeAttribute;
    if |bytes| < 11 {
      return None;
    }
    var version := FromLe(bytes[0..8]);
    var tombstone := bytes[8] != 0;
    var count := FromLe(bytes[9..11]);
    var attributes: seq<Attribute> := [];
    var pos: nat := 11;
    ghost var all := TakeAttributes(bytes[11..], count);
    assert Pending(bytes, all, [], 11, count) by {
      if all.Some? { assert [] + all.value == all.value; }
    }
    for i := 0 to count
      invariant pos <= |bytes|
      invariant Pending(bytes, all, attributes, pos, count - i)
    {
      PendingStep(bytes, all, attributes, pos, count - i);
      var a, next := ReadAttribute(bytes, pos);
      if a.None? {
        return None;
      }
      attributes := attributes + [a.value];
      pos := next;
    }
    assert attributes + [] == attributes;
    r := Some(ObjectMetadata(version, tombstone, attributes));
  }

  // ----- round trips -----

  lemma FrontAttribute(a: Attribute, tail: Bytes)
    requires IsAttribute(a) && Short(a)
    ensures TakeAttribute(EncodeAttribute(a) + tail) == Some(a)
  {
    hide ValidUtf8;
    Widths();
    FromTo(|a.key|, 2);
    FromTo(|a.value|, 2);
    hide FromLe, ToLe, Pow256;
    var s := EncodeAttribute(a) + tail;
    assert s[..2] == ToLe(|a.key|, 2);
    assert s[2..2 + |a.key|] == a.key;
    assert s[2 + |a.key|..4 + |a.key|] == ToLe(|a.value|, 2);
    assert s[4 + |a.key|..4 + |a.key| + |a.value|] == a.value;
  }

  lemma {:induction false} FrontAttributes(attrs: seq<Attribute>, tail: Bytes)
    requires forall i | 0 <= i < |attrs| :: IsAttribute(attrs[i]) && Short(attrs[i])
    ensures TakeAttributes(EncodeAttributes(attrs) + tail, |attrs|) == Some(attrs)
  {
    hide EncodeAttribute, TakeAttribute, IsAttribute, Short;
    if attrs != [] {
      var rest := EncodeAttributes(attrs[1..]) + tail;
      assert EncodeAttributes(attrs) + tail == EncodeAttribute(attrs[0]) + rest;
      FrontAttribute(attrs[0], rest);
      assert (EncodeAttribute(attrs[0]) + rest)[Size(attrs[0])..] == rest;
      FrontAttributes(attrs[1..], tail);
      assert [attrs[0]] + attrs[1..] == attrs;
    }
  }

  lemma FrontHead(m: ObjectMetadata, tail: Bytes)
    ensures var s := Encode(m) + tail;
            && |s| >= 11
            && s[..8] == ToLe(m.version, 8)
            && s[8] == Flag(m.tombstone)
            && s[9..11] == ToLe(|m.attributes|, 2)
            && s[11..] == EncodeAttributes(m.attributes) + tail
  {
    hide ToLe, EncodeAttributes;
  }

  /** Decoding an encoding, whatever follows it, gives the metadata back when everything
      fits in sixteen bits. */
  lemma DecodeEncode(m: ObjectMetadata, tail: Bytes)
    requires IsMetadata(m) && Fits(m)
    ensures Decode(Encode(m) + tail) == Some(m)
  {
    FrontHead(m, tail);
    Widths();
    FromTo(m.version, 8);
    FromTo(|m.attributes|, 2);
    FrontAttributes(m.attributes, tail);
    hide FromLe, ToLe, EncodeAttributes, TakeAttributes, Encode;
  }

  // ----- what is accepted -----

  lemma TakenAttribute(s: Bytes)
    requires TakeAttribute(s).Some?
    ensures var a := TakeAttribute(s).value; IsAttribute(a) && Short(a) && EncodeAttribute(a) <= s
  {
    hide ValidUtf8;
    Widths();
    var klen := FromLe(s[..2]);
    ToFrom(s[..2]);
    ToFrom(s[2 + klen..4 + klen]);
    var vlen := FromLe(s[2 + klen..4 + klen]);
    hide FromLe, ToLe, Pow256;
    assert s[..4 + klen + vlen] == s[..2] + s[2..2 + klen] + s[2 + klen..4 + klen] + s[4 + klen..4 + klen + vlen];
  }

  lemma {:induction false} TakenAttributes(s: Bytes, n: nat)
    requires TakeAttributes(s, n).Some?
    ensures var attrs := TakeAttributes(s, n).value;
            && |attrs| == n
            && (forall i | 0 <= i < n :: IsAttribute(attrs[i]) && Short(attrs[i]))
            && EncodeAttributes(attrs) <= s
    decreases n
  {
    hide EncodeAttribute, TakeAttribute, IsAttribute, Short;
    if n > 0 {
      var a := TakeAttribute(s).value;
      TakenAttribute(s);
      TakenAttributes(s[Size(a)..], n - 1);
      var rest := TakeAttributes(s[Size(a)..], n - 1).value;
      assert ([a] + rest)[1..] == rest;
      PrefixJoin(EncodeAttribute(a), EncodeAttributes(rest), s);
    }
  }

  lemma PrefixJoin(p: Bytes, q: Bytes, s: Bytes)
    requires p <= s && q <= s[|p|..]
    ensures p + q <= s
  {
    assert s[..|p| + |q|] == s[..|p|] + s[|p|..][..|q|];
  }

  /** The input with its tombstone byte as the encoder writes it. */
  function Normalised(s: Bytes): (r: Bytes)
    requires |s| >= 11
  {
    s[8 := Flag(s[8] != 0)]
  }

  lemma HeadOf(s: Bytes, attrs: seq<Attribute>)
    requires |s| >= 11
    requires |attrs| == FromLe(s[9..11]) && EncodeAttributes(attrs) <= s[11..]
    ensures Encode(ObjectMetadata(FromLe(s[..8]), s[8] != 0, attrs)) <= Normalised(s)
  {
    ToFrom(s[..8]);
    ToFrom(s[9..11]);
    hide FromLe, ToLe, EncodeAttributes, Pow256;
    var m := ObjectMetadata(FromLe(s[..8]), s[8] != 0, attrs);
    var head := ToLe(m.version, 8) + [Flag(m.tombstone)] + ToLe(|attrs|, 2);
    assert head == Normalised(s)[..11];
    PrefixJoin(head, EncodeAttributes(attrs), Normalised(s));
  }

  /** Whatever is accepted is proper metadata that fits, and encoding it again gives a
      prefix of the input up to the value of a true tombstone byte: a prefix of the input
      itself exactly when that byte is 0 or 1. */
  lemma AcceptedReencodes(s: Bytes)
    requires Decode(s).Some?
    ensures |s| >= 11
    ensures var m := Decode(s).value;
            && IsMetadata(m) && Fits(m)
            && Encode(m) <= Normalised(s)
            && (Encode(m) <= s <==> s[8] <= 1)
  {
    var m := Decode(s).value;
    var n := FromLe(s[9..11]);
    TakenAttributes(s[11..], n);
    ToFrom(s[..8]);
    ToFrom(s[9..11]);
    Widths();
    HeadOf(s, m.attributes);
    hide FromLe, ToLe, EncodeAttributes, TakeAttributes, IsAttribute, Short, Pow256;
    assert Encode(m)[8] == Normalised(s)[8];
    if s[8] <= 1 {
      assert Normalised(s) == s;
    }
  }

  lemma NormalisedDecodes(s: Bytes)
    requires |s| >= 11
    ensures Decode(Normalised(s)) == Decode(s)
  {
    hide FromLe, TakeAttributes;
    var t := Normalised(s);
    assert t[..8] == s[..8] && t[9..11] == s[9..11] && t[11..] == s[11..];
  }

  ghost predicate Holds(s: Bytes, m: ObjectMetadata)
    requires |s| >= 11
  {
    IsMetadata(m) && Fits(m) && Encode(m) <= Normalised(s)
  }

  /** What is decoded is the one metadata whose encoding starts the input, up to the value of
      a true tombstone byte; without one the input is refused. */
  lemma DecodesIff(s: Bytes, m: ObjectMetadata)
    ensures Decode(s) == Some(m) <==> |s| >= 11 && Holds(s, m)
  {
    hide Encode, IsMetadata, Fits, FromLe, TakeAttributes;
    if Decode(s) == Some(m) {
      AcceptedReencodes(s);
    }
    if |s| >= 11 && Holds(s, m) {
      hide Decode;
      var t := Normalised(s);
      DecodeEncode(m, t[|Encode(m)|..]);
      assert t == Encode(m) + t[|Encode(m)|..];
      NormalisedDecodes(s);
    }
  }

  /** The round trip holds exactly for metadata that fits. */
  lemma RoundTripIffFits(m: ObjectMetadata)
    requires IsMetadata(m)
    ensures Decode(Encode(m)) == Some(m) <==> Fits(m)
  {
    hide Decode, Encode;
    if Fits(m) {
      DecodeEncode(m, []);
      assert Encode(m) + [] == Encode(m);
    }
    if Decode(Encode(m)) == Some(m) {
      AcceptedReencodes(Encode(m));
    }
  }

  /** A 65536-byte attribute is cut to length zero, so its encoding is read as another
      record. */
  lemma LongKeyIsCut(key: Bytes, value: Bytes)
    requires |key| == 65536 && ValidUtf8(key) && ValidUtf8(value)
    ensures var m := ObjectMetadata(0, false, [Attribute(key, value)]);
            Encode(m)[11..13] == [0, 0] && Decode(Encode(m)) != Some(m)
  {
    var m := ObjectMetadata(0, false, [Attribute(key, value)]);
    assert !Fits(m) by { assert !Short(m.attributes[0]); }
    assert IsMetadata(m) by { assert IsAttribute(m.attributes[0]); }
    assert ToLe(65536, 2) == [0, 0];
    hide ValidUtf8, Fits, Decode, Pow256;
    FrontHead(m, []);
    RoundTripIffFits(m);
    assert Encode(m) + [] == Encode(m);
    assert EncodeAttributes(m.attributes)[..2] == ToLe(65536, 2);
  }
}
