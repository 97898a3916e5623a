/** The two wrapping counters that every backend keeps of its entries and bytes. */
module Stats {
  import opened Bytes

  const U64: nat := 0x1_0000_0000_0000_0000

  datatype Counters = Counters(entries: nat, bytes: nat)

  /** The calls that change the counters by a fixed amount. */
  datatype Record =
    | Put(keySize: nat, valueSize: nat, wasUpdate: bool)
    | PutWithOldSize(keySize: nat, newSize: nat, oldSize: Option<nat>)
    | Delete(keySize: nat, valueSize: nat)
    | DeleteBatch(entries: nat, size: nat)

  function EntryDelta(r: Record): (d: int) {
    match r
    case Put(_, _, wasUpdate) => if wasUpdate then 0 else 1
    case PutWithOldSize(_, _, o) => if o.Some? then 0 else 1
    case Delete(_, _) => -1
    case DeleteBatch(n, _) => 0 - n
  }

  function ByteDelta(r: Record): (d: int) {
    match r
    case Put(k, v, _) => k + v
    case PutWithOldSize(k, v, o) => if o.Some? then v - o.value else k + v
    case Delete(k, v) => 0 - (k + v)
    case DeleteBatch(_, size) => 0 - size
  }

  /** Unsigned 64-bit counters wrap around. */
  function Wrap(x: int): (r: nat)
    ensures r < U64
  {
    x % U64
  }

  function Recorded(c: Counters, r: Record): (d: Counters) {
    Counters(Wrap(c.entries + EntryDelta(r)), Wrap(c.bytes + ByteDelta(r)))
  }

  class AtomicStats {
    var entriesCount: nat
    var totalSizeBytes: nat

    ghost function Value(): (c: Counters)
      reads this
    {
      Counters(entriesCount, totalSizeBytes)
    }

    ghost predicate Valid()
      reads this
    {
      entriesCount < U64 && totalSizeBytes < U64
    }

    constructor ()
      ensures Valid() && Value() == Counters(0, 0)
    {
      entriesCount, totalSizeBytes := 0, 0;
    }

    method RecordPut(keySize: nat, valueSize: nat, wasUpdate: bool)
      requires Valid()
      modifies this
      ensures Valid() && Value() == Recorded(old(Value()), Put(keySize, valueSize, wasUpdate))
    {
      if !wasUpdate {
        entriesCount := Wrap(entriesCount + 1);
      }
      totalSizeBytes := Wrap(totalSizeBytes + (keySize + valueSize));
    }

    method RecordPutWithOldSize(keySize: nat, newSize: nat, oldSize: Option<nat>)
      requires Valid()
      modifies this
      ensures Valid() && Value() == Recorded(old(Value()), PutWithOldSize(keySize, newSize, oldSize))
    {
      var newTotal := keySize + newSize;
      match oldSize {
        case Some(o) =>
          var oldTotal := keySize + o;
          if newTotal >= oldTotal {
            totalSizeBytes := Wrap(totalSizeBytes + (newTotal - oldTotal));
          } else {
            totalSizeBytes := Wrap(totalSizeBytes - (oldTotal - newTotal));
          }
        case None =>
          entriesCount := Wrap(entriesCount + 1);
          totalSizeBytes := Wrap(totalSizeBytes + newTotal);
      }
    }

    method RecordDelete(keySize: nat, valueSize: nat)
      requires Valid()
      modifies this
      ensures Valid() && Value() == Recorded(old(Value()), Delete(keySize, valueSize))
    {
      entriesCount := Wrap(entriesCount - 1);
      totalSizeBytes := Wrap(totalSizeBytes - (keySize + valueSize));
    }

    method RecordDeleteBatch(totalEntries: nat, totalSize: nat)
      requires Valid()
      modifies this
      ensures Valid() && Value() == Recorded(old(Value()), DeleteBatch(totalEntries, totalSize))
    {
      entriesCount := Wrap(entriesCount - totalEntries);
      totalSizeBytes := Wrap(totalSizeBytes - totalSize);
    }
  }

  // ----- order does not matter -----

  function RecordedAll(c: Counters, rs: seq<Record>): (d: Counters)
    decreases |rs|
  {
    if rs == [] then c else RecordedAll(Recorded(c, rs[0]), rs[1..])
  }

  function Entries(rs: seq<Record>): (d: int) {
    if rs == [] then 0 else EntryDelta(rs[0]) + Entries(rs[1..])
  }

  function Sizes(rs: seq<Record>): (d: int) {
    if rs == [] then 0 else ByteDelta(rs[0]) + Sizes(rs[1..])
  }

  lemma WrapAdd(a: int, b: int)
    ensures Wrap(Wrap(a) + b) == Wrap(a + b)
  {
    assert a == U64 * (a / U64) + a % U64;
    AddMultiple(a % U64 + b, a / U64);
  }

  lemma {:induction false} AddMultiple(x: int, q: int)
    ensures (x + U64 * q) % U64 == x % U64
    decreases if q < 0 then -q else q
  {
    if q > 0 {
      AddMultiple(x, q - 1);
      assert x + U64 * q == x + U64 * (q - 1) + U64;
    } else if q < 0 {
      AddMultiple(x, q + 1);
      assert x + U64 * q == x + U64 * (q + 1) - U64;
    }
  }

  lemma {:induction false} RecordedAllSum(c: Counters, rs: seq<Record>)
    requires c.entries < U64 && c.bytes < U64
    ensures RecordedAll(c, rs) == Counters(Wrap(c.entries + Entries(rs)), Wrap(c.bytes + Sizes(rs)))
    decreases |rs|
  {
    if rs != [] {
      RecordedAllSum(Recorded(c, rs[0]), rs[1..]);
      WrapAdd(c.entries + EntryDelta(rs[0]), Entries(rs[1..]));
      WrapAdd(c.bytes + ByteDelta(rs[0]), Sizes(rs[1..]));
    }
  }

  lemma {:induction false} SumsAppend(x: seq<Record>, y: seq<Record>)
    ensures Entries(x + y) == Entries(x) + Entries(y) && Sizes(x + y) == Sizes(x) + Sizes(y)
    decreases |x|
  {
    if x == [] {
      assert x + y == y;
    } else {
      assert (x + y)[1..] == x[1..] + y;
      SumsAppend(x[1..], y);
    }
  }

  lemma HeadIn(y: seq<Record>)
    requires y != []
    ensures y[0] in multiset(y)
  {
  }

  lemma RemoveOne(x: seq<Record>, y: seq<Record>, i: nat)
    requires x != [] && i < |y| && y[i] == x[0] && multiset(x) == multiset(y)
    ensures multiset(x[1..]) == multiset(y[..i] + y[i+1..])
  {
    assert x == [x[0]] + x[1..];
    assert y == y[..i] + [y[i]] + y[i+1..];
    assert multiset(x[1..]) == multiset(x) - multiset{x[0]};
    assert multiset(y[..i] + y[i+1..]) == multiset(y) - multiset{y[i]};
  }

  lemma {:induction false} SumsPermute(x: seq<Record>, y: seq<Record>)
    requires multiset(x) == multiset(y)
    ensures Entries(x) == Entries(y) && Sizes(x) == Sizes(y)
    decreases |x|
  {
    if x == [] {
      if y != [] {
        HeadIn(y);
      }
    } else {
      HeadIn(x);
      var i :| 0 <= i < |y| && y[i] == x[0];
      var z := y[..i] + y[i+1..];
      RemoveOne(x, y, i);
      SumsPermute(x[1..], z);
      SumsAppend(y[..i], y[i+1..]);
      SumsAppend(y[..i], [x[0]] + y[i+1..]);
      assert y == y[..i] + ([x[0]] + y[i+1..]);
    }
  }

  /** The same records in any order, from any number of threads, leave the same counters. */
  lemma OrderIrrelevant(c: Counters, x: seq<Record>, y: seq<Record>)
    requires c.entries < U64 && c.bytes < U64 && multiset(x) == multiset(y)
    ensures RecordedAll(c, x) == RecordedAll(c, y)
  {
    RecordedAllSum(c, x);
    RecordedAllSum(c, y);
    SumsPermute(x, y);
  }
}
