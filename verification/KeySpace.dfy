/** How the keys of the grid lie in byte order: one block per object, blocks in
    the order of the ids, and the order of the records inside a block. */
module KeySpace {
  import opened Bytes
  import opened Varint
  import opened StorageKey

  // ----- blocks -----

  /** The exclusive end of an object's block: its prefix with the last byte raised. */
  function RangeEnd(prefix: Bytes): (e: Bytes) {
    if prefix == [] then [1]
    else
      var last := prefix[|prefix| - 1];
      prefix[..|prefix| - 1] + [if last == 255 then 255 else last + 1]
  }

  /** The half-open range of an object's block holds exactly the keys that start
      with its prefix. */
  lemma BlockIsRange(id: Bytes, k: Bytes)
    ensures Leq(ObjectPrefix(id), k) && Less(k, RangeEnd(ObjectPrefix(id))) <==> ObjectPrefix(id) <= k
  {
    var p, e := ObjectPrefix(id), RangeEnd(ObjectPrefix(id));
    assert e == id + [1];
    if p <= k {
      assert k == p + k[|p|..];
      assert p != k ==> LessAt(p, k, |p|);
      assert k[..|id|] == id && k[|id|] == 0;
      assert LessAt(k, e, |id|);
    } else if Leq(p, k) && Less(k, e) {
      BetweenEnds(id, k);
    }
  }

  lemma BetweenEnds(id: Bytes, k: Bytes)
    requires Less(id + [0], k) && Less(k, id + [1])
    ensures id + [0] <= k
  {
    var i: nat :| LessAt(id + [0], k, i);
    var j: nat :| LessAt(k, id + [1], j);
    if i >= |id| + 1 {
      assert k[..|id| + 1] == k[..i][..|id| + 1] == (id + [0])[..i][..|id| + 1];
    }
  }

  /** Every key of the object with the smaller id comes before every key of the
      other, so blocks are contiguous and ordered as the ids. */
  lemma BlocksOrderedAsIds(a: Bytes, b: Bytes, x: Bytes, y: Bytes)
    requires NulFree(a) && NulFree(b)
    requires ObjectPrefix(a) <= x && ObjectPrefix(b) <= y
    ensures Less(a, b) ==> Less(x, y)
    ensures a != b ==> (Less(x, y) <==> Less(a, b))
  {
    if Less(a, b) {
      BlockBefore(a, b, x, y);
    }
    if a != b && Less(x, y) && !Less(a, b) {
      LessTotal(a, b);
      BlockBefore(b, a, y, x);
      LessAsymmetric(x, y);
    }
  }

  lemma BlockBefore(a: Bytes, b: Bytes, x: Bytes, y: Bytes)
    requires NulFree(b) && Less(a, b)
    requires ObjectPrefix(a) <= x && ObjectPrefix(b) <= y
    ensures Less(x, y)
  {
    var k: nat :| LessAt(a, b, k);
    assert x == ObjectPrefix(a) + x[|a| + 1..] && y == ObjectPrefix(b) + y[|b| + 1..];
    assert ObjectPrefix(a)[..k] == a[..k] && ObjectPrefix(b)[..k] == b[..k];
    LessExtends(ObjectPrefix(a), ObjectPrefix(b), x[|a| + 1..], y[|b| + 1..], k);
  }

  // ----- inside a block -----

  /** Which of two different lengths has the smaller length field: the seven-bit
      groups are compared least significant first. */
  predicate LengthBefore(m: nat, n: nat) {
    if m < 0x80 || n < 0x80 then m < n
    else m % 0x80 < n % 0x80 || (m % 0x80 == n % 0x80 && LengthBefore(m / 0x80, n / 0x80))
  }

  /** The order of two records of one object. */
  predicate RecordBefore(r: Record, s: Record) {
    match (r, s)
    case (Meta, _) => !s.Meta?
    case (EventConfig, _) => s.StringEntry?
    case (StringEntry(_), Meta) => false
    case (StringEntry(_), EventConfig) => false
    case (StringEntry(k), StringEntry(l)) => EntryBefore(k, l)
  }

  predicate EntryBefore(k: Bytes, l: Bytes) {
    if |k| == |l| then SliceLess(k, l) else LengthBefore(|k|, |l|)
  }

  lemma {:induction false} EncodingOrder(m: nat, n: nat, x: Bytes, y: Bytes)
    requires m != n
    ensures Less(Encoding(m) + x, Encoding(n) + y) <==> LengthBefore(m, n)
    decreases m
  {
    var a, b := Encoding(m) + x, Encoding(n) + y;
    if m >= 0x80 && n >= 0x80 && m % 0x80 == n % 0x80 {
      assert a[1..] == Encoding(m / 0x80) + x && b[1..] == Encoding(n / 0x80) + y;
      LessTail(a, b);
      EncodingOrder(m / 0x80, n / 0x80, x, y);
    } else {
      FirstByteDecides(a, b);
    }
  }

  lemma FirstByteDecides(a: Bytes, b: Bytes)
    requires a != [] && b != [] && a[0] != b[0]
    ensures Less(a, b) <==> a[0] < b[0]
  {
    assert a[0] < b[0] ==> LessAt(a, b, 0);
    assert b[0] < a[0] ==> LessAt(b, a, 0);
    if b[0] < a[0] {
      LessAsymmetric(b, a);
    }
  }

  /** Byte order inside one object: metadata, then event configuration, then the
      entries by length field and, at equal length, lexicographically. */
  lemma RecordOrder(id: Bytes, r: Record, s: Record)
    ensures Less(BuildKey(id, r), BuildKey(id, s)) <==> RecordBefore(r, s)
  {
    LessAfterPrefix(ObjectPrefix(id), Body(r), Body(s));
    if r.StringEntry? && s.StringEntry? {
      var a, b := Encoding(|r.key|) + r.key, Encoding(|s.key|) + s.key;
      assert Body(r) == [0x11] + a && Body(s) == [0x11] + b;
      LessAfterPrefix([0x11], a, b);
      if |r.key| == |s.key| {
        LessAfterPrefix(Encoding(|r.key|), r.key, s.key);
      } else {
        EncodingOrder(|r.key|, |s.key|, r.key, s.key);
      }
    } else if r == s {
      LessIrreflexive(Body(r));
    } else {
      FirstByteDecides(Body(r), Body(s));
    }
  }

  /** Entries whose keys are shorter than 128 bytes sort by length, then
      lexicographically, and before every longer one. */
  lemma ShortEntriesShortlex(id: Bytes, k: Bytes, l: Bytes)
    requires |k| < 0x80
    ensures Less(BuildKey(id, StringEntry(k)), BuildKey(id, StringEntry(l)))
       <==> |k| < |l| || (|k| == |l| && Less(k, l))
  {
    RecordOrder(id, StringEntry(k), StringEntry(l));
  }

  /** Entries are not in lexicographic order: "b" precedes "aa". */
  lemma ShorterKeyFirst(id: Bytes, k: Bytes, l: Bytes)
    requires k == [98] && l == [97, 97]
    ensures Less(l, k) && Less(BuildKey(id, StringEntry(k)), BuildKey(id, StringEntry(l)))
  {
    hide BuildKey;
    assert LessAt(l, k, 0);
    ShortEntriesShortlex(id, k, l);
  }

  /** Nor in order of length: a key of 256 bytes precedes one of 255. */
  lemma LongerKeyFirst(id: Bytes, k: Bytes, l: Bytes)
    requires |k| == 256 && |l| == 255
    ensures Less(BuildKey(id, StringEntry(k)), BuildKey(id, StringEntry(l)))
  {
    hide BuildKey, Less;
    assert LengthBefore(256, 255);
    RecordOrder(id, StringEntry(k), StringEntry(l));
  }
}
