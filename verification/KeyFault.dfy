/** Exactly which raw keys make the parser overflow. */
module KeyFault {
  import opened Bytes
  import opened Varint
  import opened StorageKey

  const HALF: nat := 0x8000_0000_0000_0000

  /** A length field of the full ten bytes, whose last one sets the top bit. */
  predicate TopLength(rest: Bytes) {
    && |rest| >= 10
    && (forall i | 0 <= i < 9 :: rest[i] >= 0x80)
    && rest[9] < 0x80 && rest[9] % 2 == 1
  }

  lemma TopBit(g: nat, b: nat)
    requires g < HALF
    ensures (g + b * HALF) % USIZE == g + (b % 2) * HALF
  {
    assert g + b * HALF == b / 2 * USIZE + (g + b % 2 * HALF);
    Modulo(b / 2, g + b % 2 * HALF, USIZE);
  }

  lemma NineGroups(s: Bytes)
    requires |s| <= 9
    ensures Groups(s) < HALF
  {
    Pow2Values();
    GroupsBound(s);
    Pow2Monotone(7 * |s|, 63);
  }

  lemma TenGroups(s: Bytes)
    requires |s| == 10 && s[9] < 0x80
    ensures Groups(s) % USIZE == Groups(s[..9]) + (s[9] % 2) * HALF
  {
    NineGroups(s[..9]);
    assert s == s[..9] + [s[9]];
    GroupsSnoc(s[..9], s[9]);
    Pow2Values();
    hide Groups, Pow2;
    TopBit(Groups(s[..9]), s[9]);
  }

  /** A length that does not come from such a field is below 2^63. */
  lemma DecodedLength(rest: Bytes)
    requires Decode(rest).Some?
    ensures var (v, c) := Decode(rest).value;
            && c <= |rest| && c <= 10
            && (TopLength(rest) <==> v >= HALF)
            && (TopLength(rest) ==> c == 10 && v == Groups(rest[..9]) + HALF)
  {
    DecodeReads(rest);
    var (v, c) := Decode(rest).value;
    hide Decode, Groups;
    if c < 10 {
      NineGroups(rest[..c]);
      Small(Groups(rest[..c]), USIZE);
    } else {
      TenGroups(rest[..10]);
      assert rest[..10][..9] == rest[..9];
      NineGroups(rest[..9]);
    }
  }

  lemma TopLengthDecodes(rest: Bytes)
    requires TopLength(rest)
    ensures Decode(rest).Some?
  {
    DecodeReads(rest);
    assert Terminated(rest, 10);
  }

  /** The position after the length field, plus the length, reaches 2^64. */
  ghost predicate Overflows(rest: Bytes, at: nat) {
    TopLength(rest) && at + 10 + Groups(rest[..9]) >= HALF
  }

  lemma EntryFaultIff(id: Bytes, rest: Bytes, at: nat)
    requires at + |rest| < MAX_LEN
    ensures ParseEntry(id, rest, at).Fault? <==> Overflows(rest, at)
  {
    hide Decode, Groups, ValidUtf8;
    if TopLength(rest) {
      TopLengthDecodes(rest);
    }
    if Decode(rest).Some? {
      DecodedLength(rest);
    }
  }

  lemma PartsFaultIff(id: Bytes, ty: byte, rest: Bytes)
    requires |id| + 2 + |rest| < MAX_LEN
    ensures ParseParts(id, ty, rest).Fault? <==> ValidUtf8(id) && ty == 0x11 && Overflows(rest, |id| + 2)
  {
    EntryFaultIff(id, rest, |id| + 2);
    hide ValidUtf8, ParseEntry, Overflows;
  }

  /** The parser overflows if and only if the key is an entry key of a valid id with a
      ten-byte length field, its top bit set, that reaches within the field's own end of
      2^64. */
  lemma FaultIff(raw: Bytes)
    requires |raw| < MAX_LEN
    ensures var t := Position0(raw);
            Parse(raw).Fault? <==> && t + 2 <= |raw| && ValidUtf8(raw[..t]) && raw[t + 1] == 0x11
                                   && Overflows(raw[t + 2..], t + 2)
  {
    var t := Position0(raw);
    hide ValidUtf8, ParseParts, Overflows, Position0;
    if t + 1 < |raw| {
      PartsFaultIff(raw[..t], raw[t + 1], raw[t + 2..]);
    }
  }

  const NINES: Bytes := [0xFF, 0xFF, 0xFF, 0xFF, 0xFF, 0xFF, 0xFF, 0xFF, 0xFF]

  lemma {:induction false} AllOnes(s: Bytes)
    requires forall i | 0 <= i < |s| :: s[i] == 0xFF
    ensures Groups(s) == Pow2(7 * |s|) - 1
    decreases |s|
  {
    if s != [] {
      AllOnes(s[1..]);
      Pow2Add7(7 * |s| - 7);
    }
  }

  lemma NinesValue()
    ensures |NINES| == 9 && Groups(NINES) == HALF - 1
  {
    AllOnes(NINES);
    Pow2Values();
    hide Groups, Pow2;
  }

  lemma LargestOverflows(at: nat)
    ensures Overflows(NINES + [0x01], at)
  {
    assert forall i | 0 <= i < 9 :: NINES[i] >= 0x80;
    NinesValue();
    hide NINES, Groups;
    var rest := NINES + [0x01];
    assert rest[..9] == NINES;
    assert TopLength(rest);
  }

  lemma KeyParts(id: Bytes, rest: Bytes)
    ensures var raw := id + [0] + ([0x11] + rest);
            raw[..|id|] == id && raw[|id| + 1] == 0x11 && raw[|id| + 2..] == rest
  {
  }

  /** Such a key, for every id: the largest length there is. */
  lemma FaultExists(id: Bytes)
    requires IsId(id) && |id| + 12 < MAX_LEN
    ensures Parse(id + [0] + ([0x11] + (NINES + [0x01]))) == Fault
  {
    assert NulFree(id) && ValidUtf8(id) && |NINES| == 9;
    hide *;
    var rest := NINES + [0x01];
    FirstZero(id, [0x11] + rest);
    KeyParts(id, rest);
    LargestOverflows(|id| + 2);
    FaultIff(id + [0] + ([0x11] + rest));
  }
}
