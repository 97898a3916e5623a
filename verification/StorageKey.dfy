/** The key layout of the object grid: object id, a zero byte, a record type,
    and for entries a length-prefixed entry key. */
module StorageKey {
  import opened Bytes
  import opened Varint

  datatype Record = Meta | EventConfig | StringEntry(key: Bytes)

  /** What the parser does with a raw key. `Fault` is the arithmetic overflow of
      the end position, which stops the caller instead of returning. */
  datatype Parsed = Match(id: Bytes, record: Record) | NoMatch | Fault

  /** Slices and strings never exceed the address space. */
  const MAX_LEN: nat := 0x8000_0000_0000_0000

  predicate NulFree(s: Bytes) {
    forall i :: 0 <= i < |s| ==> s[i] != 0
  }

  /** An id the grid uses: a string without zero byte. */
  predicate IsId(id: Bytes) {
    NulFree(id) && ValidUtf8(id) && |id| < MAX_LEN
  }

  /** Entry keys are any strings. */
  predicate IsRecord(r: Record) {
    r.StringEntry? ==> ValidUtf8(r.key) && |r.key| < MAX_LEN
  }

  // ----- builders -----

  function ObjectPrefix(id: Bytes): (p: Bytes) {
    id + [0x00]
  }

  function Body(r: Record): (b: Bytes)
    ensures |b| > 0
  {
    match r
    case Meta => [0x00]
    case EventConfig => [0x01]
    case StringEntry(key) => [0x11] + Encoding(|key|) + key
  }

  function BuildKey(id: Bytes, r: Record): (k: Bytes)
    ensures ObjectPrefix(id) <= k
  {
    ObjectPrefix(id) + Body(r)
  }

  method MetaKey(id: Bytes) returns (v: Bytes)
    ensures v == BuildKey(id, Meta)
    ensures v == id + [0x00, 0x00]
  {
    v := id;
    v := v + [0x00];
    v := v + [0x00];
  }

  method EventConfigKey(id: Bytes) returns (v: Bytes)
    ensures v == BuildKey(id, EventConfig)
    ensures v == id + [0x00, 0x01]
  {
    v := id;
    v := v + [0x00];
    v := v + [0x01];
  }

  method EntryKey(id: Bytes, key: Bytes) returns (v: Bytes)
    requires |key| < MAX_LEN
    ensures v == BuildKey(id, StringEntry(key))
    ensures v == id + [0x00, 0x11] + (Encoding(|key|) + key)
  {
    hide Encoding;
    v := id;
    v := v + [0x00];
    v := v + [0x11];
    ghost var head := v;
    v := EncodeVarint(|key|, v);
    v := v + key;
    assert v == head + (Encoding(|key|) + key);
  }

  // ----- parser -----

  /** The position of the first zero byte, or the length if there is none. */
  function Position0(s: Bytes): (t: nat)
    ensures t <= |s|
    ensures NulFree(s[..t])
    ensures t < |s| ==> s[t] == 0
  {
    if s == [] || s[0] == 0 then 0 else
    var t := 1 + Position0(s[1..]);
    assert s[..t] == [s[0]] + s[1..][..t-1];
    t
  }

  function Parse(raw: Bytes): (p: Parsed)
    requires |raw| < MAX_LEN
  {
    var term := Position0(raw);
    if term + 1 >= |raw| then NoMatch
    else ParseParts(raw[..term], raw[term + 1], raw[term + 2..])
  }

  /** The key split at its first zero byte: id, record type, and what follows. */
  function ParseParts(id: Bytes, ty: byte, rest: Bytes): (p: Parsed) {
    if !ValidUtf8(id) then NoMatch
    else if ty == 0x00 then Match(id, Meta)
    else if ty == 0x01 then Match(id, EventConfig)
    else if ty == 0x11 then ParseEntry(id, rest, |id| + 2)
    else NoMatch
  }

  /** The entry part; `at` is where it starts in the whole key. */
  function ParseEntry(id: Bytes, rest: Bytes, at: nat): (p: Parsed) {
    DecodeReads(rest);
    TakeEntry(id, rest, at, Decode(rest))
  }

  function TakeEntry(id: Bytes, rest: Bytes, at: nat, read: Option<(nat, nat)>): (p: Parsed)
    requires read.Some? ==> read.value.1 <= |rest|
  {
    match read
    case None => NoMatch
    case Some((len, consumed)) =>
      if at + consumed + len >= USIZE then Fault
      else if consumed + len > |rest| then NoMatch
      else if !ValidUtf8(rest[consumed..consumed + len]) then NoMatch
      else Match(id, StringEntry(rest[consumed..consumed + len]))
  }

  // ----- what is parsed, over the bytes -----

  /** The entry part: a length of at most ten bytes, the last below 0x80, worth the length of
      the key modulo 2^64; then the key. */
  ghost predicate EntryAt(rest: Bytes, c: nat, key: Bytes) {
    && c <= 10 && Terminated(rest, c)
    && |key| == Groups(rest[..c]) % USIZE
    && c + |key| <= |rest| && rest[c..c + |key|] == key
    && ValidUtf8(key)
  }

  ghost predicate HasEntry(rest: Bytes, key: Bytes) {
    exists c: nat :: EntryAt(rest, c, key)
  }

  lemma EntryParsesIff(id: Bytes, rest: Bytes, at: nat, key: Bytes)
    requires at + |rest| < MAX_LEN
    ensures ParseEntry(id, rest, at) == Match(id, StringEntry(key)) <==> HasEntry(rest, key)
  {
    DecodeReads(rest);
    hide Decode, Groups, ValidUtf8;
    if c: nat :| EntryAt(rest, c, key) {
      assert Decode(rest).Some?;
      TerminatedUnique(rest, c, Decode(rest).value.1);
    }
    if ParseEntry(id, rest, at) == Match(id, StringEntry(key)) {
      assert EntryAt(rest, Decode(rest).value.1, key);
    }
  }

  /** Exactly which raw keys parse, and to what: the id before the first zero byte, which must
      be UTF-8; a record type of 0x00, 0x01 or 0x11; and for the last an entry part. */
  lemma ParseIff(raw: Bytes, id: Bytes, key: Bytes)
    requires |raw| < MAX_LEN
    ensures var t := Position0(raw);
            var head := t + 1 < |raw| && id == raw[..t] && ValidUtf8(id);
            && (Parse(raw) == Match(id, Meta) <==> head && raw[t + 1] == 0x00)
            && (Parse(raw) == Match(id, EventConfig) <==> head && raw[t + 1] == 0x01)
            && (Parse(raw) == Match(id, StringEntry(key)) <==>
                  head && raw[t + 1] == 0x11 && HasEntry(raw[t + 2..], key))
  {
    hide ValidUtf8, ParseEntry, HasEntry;
    var t := Position0(raw);
    if t + 1 < |raw| {
      EntryParsesIff(raw[..t], raw[t + 2..], t + 2, key);
      EntryHasId(raw[..t], raw[t + 2..], t + 2);
    }
  }

  lemma EntryHasId(id: Bytes, rest: Bytes, at: nat)
    ensures ParseEntry(id, rest, at).Match? ==>
              ParseEntry(id, rest, at).id == id && ParseEntry(id, rest, at).record.StringEntry?
  {
    hide Decode, ValidUtf8;
  }

  // ----- round trip -----

  lemma {:induction false} FirstZero(id: Bytes, tail: Bytes)
    requires NulFree(id)
    ensures Position0(id + [0] + tail) == |id|
    decreases |id|
  {
    if id != [] {
      assert (id + [0] + tail)[1..] == id[1..] + [0] + tail;
      FirstZero(id[1..], tail);
    }
  }

  lemma SliceAfter(e: Bytes, key: Bytes, tail: Bytes)
    ensures |e| + |key| <= |e + (key + tail)|
    ensures (e + (key + tail))[|e|..|e| + |key|] == key
  {
  }

  lemma TakeValid(id: Bytes, rest: Bytes, at: nat, len: nat, consumed: nat)
    requires consumed + len <= |rest| && at + consumed + len < USIZE
    requires ValidUtf8(rest[consumed..consumed + len])
    ensures TakeEntry(id, rest, at, Some((len, consumed))) == Match(id, StringEntry(rest[consumed..consumed + len]))
  {
    hide ValidUtf8;
  }

  lemma TakeEntryBuilt(id: Bytes, e: Bytes, key: Bytes, tail: Bytes, at: nat)
    requires ValidUtf8(key) && at + |e| + |key| < USIZE
    ensures TakeEntry(id, e + (key + tail), at, Some((|key|, |e|))) == Match(id, StringEntry(key))
  {
    hide *;
    SliceAfter(e, key, tail);
    TakeValid(id, e + (key + tail), at, |key|, |e|);
  }

  lemma ParseEntryBuilt(id: Bytes, key: Bytes, tail: Bytes, at: nat)
    requires ValidUtf8(key) && |key| < MAX_LEN && at + |Encoding(|key|)| + |key| < USIZE
    ensures ParseEntry(id, Encoding(|key|) + (key + tail), at) == Match(id, StringEntry(key))
  {
    DecodeEncoding(|key|, key + tail);
    hide ValidUtf8, Encoding, Decode, TakeEntry;
    TakeEntryBuilt(id, Encoding(|key|), key, tail, at);
  }

  lemma ParsePartsBuilt(id: Bytes, r: Record, tail: Bytes)
    requires ValidUtf8(id) && IsRecord(r) && |BuildKey(id, r)| < MAX_LEN
    ensures ParseParts(id, Body(r)[0], Body(r)[1..] + tail) == Match(id, r)
  {
    hide ValidUtf8, Encoding, ParseEntry;
    if r.StringEntry? {
      assert Body(r)[1..] + tail == Encoding(|r.key|) + (r.key + tail);
      ParseEntryBuilt(id, r.key, tail, |id| + 2);
    }
  }

  /** A built key, whatever follows it, parses to the id and record it was built from. */
  lemma ParseBuilt(id: Bytes, r: Record, tail: Bytes)
    requires IsId(id) && IsRecord(r)
    requires |BuildKey(id, r) + tail| < MAX_LEN
    ensures Parse(BuildKey(id, r) + tail) == Match(id, r)
  {
    hide ValidUtf8, Position0, NulFree, ParseParts, Body;
    var raw := BuildKey(id, r) + tail;
    assert raw == id + [0] + (Body(r) + tail);
    FirstZero(id, Body(r) + tail);
    assert raw[..|id|] == id && raw[|id| + 1] == Body(r)[0] && raw[|id| + 2..] == Body(r)[1..] + tail;
    ParsePartsBuilt(id, r, tail);
  }

  /** No built key is another one, or the beginning of another one. */
  lemma BuildPrefixFree(id1: Bytes, r1: Record, id2: Bytes, r2: Record)
    requires IsId(id1) && IsRecord(r1) && IsId(id2) && IsRecord(r2)
    requires |BuildKey(id2, r2)| < MAX_LEN
    requires BuildKey(id1, r1) <= BuildKey(id2, r2)
    ensures id1 == id2 && r1 == r2
  {
    hide ValidUtf8, NulFree, Body, Parse;
    var k := BuildKey(id2, r2);
    var tail := k[|BuildKey(id1, r1)|..];
    assert k == BuildKey(id1, r1) + tail;
    assert k == k + [];
    ParseBuilt(id1, r1, tail);
    ParseBuilt(id2, r2, []);
  }

  // ----- the converse -----

  /** The length field of an entry part is in its shortest form. */
  predicate MinimalLength(rest: Bytes) {
    DecodeReads(rest);
    Decode(rest).Some? && Minimal(rest[..Decode(rest).value.1])
  }

  lemma EntryAccepted(id: Bytes, rest: Bytes, at: nat)
    requires ParseEntry(id, rest, at).Match?
    ensures var p := ParseEntry(id, rest, at);
            && p.id == id && p.record.StringEntry? && IsRecord(p.record) && |p.record.key| <= |rest|
            && (Encoding(|p.record.key|) + p.record.key <= rest <==> MinimalLength(rest))
    requires |rest| < MAX_LEN
  {
    hide ValidUtf8, Decode, Encoding, Minimal;
    DecodeReads(rest);
    AcceptedIsEncodingIffMinimal(rest);
    var (len, consumed) := Decode(rest).value;
    var e, key := Encoding(len), rest[consumed..consumed + len];
    if e == rest[..consumed] {
      SlicesAreHead(rest, consumed, len);
    }
    if e + key <= rest {
      assert rest == e + rest[|e|..];
      DecodeEncoding(len, rest[|e|..]);
    }
  }

  lemma SlicesAreHead(s: Bytes, m: nat, n: nat)
    requires m + n <= |s|
    ensures s[..m] + s[m..m + n] <= s
  {
    assert s == s[..m] + s[m..m + n] + s[m + n..];
  }

  lemma PlainPrefix(id: Bytes, ty: byte, rest: Bytes)
    ensures ObjectPrefix(id) + [ty] <= Joined(id, ty, rest)
  {
    assert ObjectPrefix(id) + [ty] == id + [0, ty] + [];
    PrefixAfter(id + [0, ty], [], rest);
  }

  lemma EntryPrefix(id: Bytes, rest: Bytes, key: Bytes)
    ensures BuildKey(id, StringEntry(key)) <= Joined(id, 0x11, rest) <==> Encoding(|key|) + key <= rest
  {
    hide Encoding;
    Regroup(id, Encoding(|key|), key);
    PrefixAfter(id + [0, 0x11], Encoding(|key|) + key, rest);
  }

  lemma Regroup(id: Bytes, e: Bytes, key: Bytes)
    ensures id + [0] + ([0x11] + e + key) == id + [0, 0x11] + (e + key)
  {
  }

  lemma PartsAccepted(id: Bytes, ty: byte, rest: Bytes)
    requires |id| + |rest| < MAX_LEN - 2 && ParseParts(id, ty, rest).Match?
    ensures var p := ParseParts(id, ty, rest);
            && p.id == id && ValidUtf8(id) && IsRecord(p.record)
            && (BuildKey(id, p.record) <= Joined(id, ty, rest) <==> (p.record.StringEntry? ==> MinimalLength(rest)))
  {
    hide ValidUtf8, Encoding, MinimalLength, ParseEntry, Joined, ObjectPrefix;
    PlainPrefix(id, ty, rest);
    if ty == 0x11 {
      EntryAccepted(id, rest, |id| + 2);
      EntryPrefix(id, rest, ParseEntry(id, rest, |id| + 2).record.key);
    }
  }

  function Joined(id: Bytes, ty: byte, rest: Bytes): (raw: Bytes) {
    id + [0, ty] + rest
  }

  lemma Split(raw: Bytes, term: nat)
    requires term + 1 < |raw| && raw[term] == 0
    ensures raw == Joined(raw[..term], raw[term + 1], raw[term + 2..])
  {
  }

  /** What the parser accepts has a zero-free id. It is a built key followed by
      ignored bytes exactly when an entry's length field is minimal. */
  lemma AcceptedStartsWithBuilt(raw: Bytes)
    requires |raw| < MAX_LEN && Parse(raw).Match?
    ensures IsId(Parse(raw).id) && IsRecord(Parse(raw).record)
    ensures BuildKey(Parse(raw).id, Parse(raw).record) <= raw
       <==> (Parse(raw).record.StringEntry? ==> MinimalLength(raw[Position0(raw) + 2..]))
  {
    hide ValidUtf8, MinimalLength, Position0, BuildKey, NulFree, Joined, ParseParts, IsRecord;
    var term := Position0(raw);
    PartsAccepted(raw[..term], raw[term + 1], raw[term + 2..]);
    Split(raw, term);
  }

  lemma PrefixAfter(head: Bytes, a: Bytes, b: Bytes)
    ensures head + a <= head + b <==> a <= b
  {
    assert (head + a)[|head|..] == a && (head + b)[|head|..] == b;
    if a <= b {
      assert b == a + b[|a|..];
      assert head + b == head + a + b[|a|..];
    }
    if head + a <= head + b {
      assert forall i :: 0 <= i < |a| ==> a[i] == (head + a)[|head| + i] == (head + b)[|head| + i] == b[i];
    }
  }
}
