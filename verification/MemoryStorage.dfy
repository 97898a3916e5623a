/** The in-memory backend: an ordered map and the counters kept beside it. */
module MemoryStorage {
  import opened Bytes
  import opened Collections
  import opened OrderedStore
  import opened Stats

  datatype Mutation =
    | Put(key: Bytes, value: Bytes)
    | PutWithReturn(key: Bytes, value: Bytes)
    | Delete(key: Bytes)
    | DeleteRange(lo: Bytes, hi: Option<Bytes>)

  datatype State = State(data: Store, stats: Counters)

  function KeysOf(s: seq<Pair>): (keys: set<Bytes>) {
    set i | 0 <= i < |s| :: s[i].0
  }

  function SizeAt(m: Store, k: Bytes): (n: Option<nat>) {
    if k in m then Some(|m[k]|) else None
  }

  function Mutated(s: State, op: Mutation): (t: State) {
    match op
    case Put(k, v) =>
      State(s.data[k := v], Recorded(s.stats, Record.Put(|k|, |v|, k in s.data)))
    case PutWithReturn(k, v) =>
      State(s.data[k := v], Recorded(s.stats, PutWithOldSize(|k|, |v|, SizeAt(s.data, k))))
    case Delete(k) =>
      if k in s.data
      then State(s.data - {k}, Recorded(s.stats, Record.Delete(|k|, |s.data[k]|)))
      else s
    case DeleteRange(lo, hi) =>
      var gone := Scan(s.data, lo, hi);
      if gone == [] then s
      else State(s.data - KeysOf(gone), Recorded(s.stats, DeleteBatch(|gone|, TotalBytes(gone))))
  }

  class MemoryStorage {
    var data: Store
    const stats: AtomicStats

    ghost function Value(): (s: State)
      reads this, stats
    {
      State(data, stats.Value())
    }

    ghost predicate Valid()
      reads this, stats
    {
      stats.Valid()
    }

    constructor ()
      ensures Valid() && fresh(stats) && Value() == State(map[], Counters(0, 0))
    {
      data := map[];
      stats := new AtomicStats();
    }

    method PutValue(key: Bytes, value: Bytes) returns (existed: bool)
      requires Valid()
      modifies this, stats
      ensures Valid() && Value() == Mutated(old(Value()), Mutation.Put(key, value))
      ensures existed == (key in old(data))
    {
      existed := key in data;
      data := data[key := value];
      stats.RecordPut(|key|, |value|, existed);
    }

    method PutValueWithReturn(key: Bytes, value: Bytes) returns (previous: Option<Bytes>)
      requires Valid()
      modifies this, stats
      ensures Valid() && Value() == Mutated(old(Value()), PutWithReturn(key, value))
      ensures previous == if key in old(data) then Some(old(data)[key]) else None
    {
      previous := if key in data then Some(data[key]) else None;
      data := data[key := value];
      stats.RecordPutWithOldSize(|key|, |value|, if previous.Some? then Some(|previous.value|) else None);
    }

    method DeleteKey(key: Bytes)
      requires Valid()
      modifies this, stats
      ensures Valid() && Value() == Mutated(old(Value()), Mutation.Delete(key))
    {
      if key in data {
        var removed := data[key];
        data := data - {key};
        stats.RecordDelete(|key|, |removed|);
      }
    }

    method DeleteKeyRange(lo: Bytes, hi: Option<Bytes>) returns (count: nat)
      requires Valid()
      modifies this, stats
      ensures Valid() && Value() == Mutated(old(Value()), DeleteRange(lo, hi))
      ensures count == |Scan(old(data), lo, hi)|
    {
      hide KeysOf, Scan, Wrap;
      var items := Scan(data, lo, hi);
      NoKeys();
      assert items[..0] == [] && items[0..] == items;
      count := |items|;
      var total := 0;
      for i := 0 to |items|
        invariant data == old(data) - KeysOf(items[..i])
        invariant total + TotalBytes(items[i..]) == TotalBytes(items)
        invariant stats.Value() == old(stats.Value()) && stats.Valid()
      {
        KeysSnoc(items, i);
        data := data - {items[i].0};
        total := total + (|items[i].0| + |items[i].1|);
        assert items[i..][1..] == items[i+1..];
      }
      assert items[..|items|] == items;
      if count > 0 {
        stats.RecordDeleteBatch(count, total);
      } else {
        assert data == old(data);
      }
    }
  }

  lemma KeysSnoc(s: seq<Pair>, i: nat)
    requires i < |s|
    ensures KeysOf(s[..i+1]) == KeysOf(s[..i]) + {s[i].0}
  {
    var a, b := s[..i], s[..i+1];
    forall k ensures k in KeysOf(b) <==> k in KeysOf(a) + {s[i].0} {
      if k in KeysOf(b) {
        var j :| 0 <= j < |b| && b[j].0 == k;
        assert j < i ==> a[j].0 == k;
      }
      if k in KeysOf(a) {
        var j :| 0 <= j < |a| && a[j].0 == k;
        assert b[j].0 == k;
      }
      assert b[i].0 == s[i].0;
    }
  }

  // ----- what the counters mean -----

  /** Bytes that an overwriting plain put adds without taking the old pair off. */
  function Leak(m: Store, op: Mutation): (n: nat) {
    if op.Put? && op.key in m then |op.key| + |m[op.key]| else 0
  }

  function Run(s: State, ops: seq<Mutation>): (t: State)
    decreases |ops|
  {
    if ops == [] then s else Run(Mutated(s, ops[0]), ops[1..])
  }

  function Leaked(s: State, ops: seq<Mutation>): (n: nat)
    decreases |ops|
  {
    if ops == [] then 0 else Leak(s.data, ops[0]) + Leaked(Mutated(s, ops[0]), ops[1..])
  }

  ghost predicate Tracks(s: State, leak: nat) {
    && s.stats.entries == Wrap(|s.data|)
    && s.stats.bytes == Wrap(SizeOf(s.data) + leak)
  }

  lemma {:induction false} SizeWithoutAll(m: Store, s: seq<Pair>)
    requires Ascending(s)
    requires forall i :: 0 <= i < |s| ==> s[i].0 in m && s[i].1 == m[s[i].0]
    ensures SizeOf(m - KeysOf(s)) == SizeOf(m) - TotalBytes(s) && |m - KeysOf(s)| == |m| - |s|
    decreases |s|
  {
    hide SizeOf, KeysOf, Less;
    if s == [] {
      NoKeys();
      assert m - {} == m;
    } else {
      var k, rest := s[0].0, s[1..];
      FirstIsAlone(s);
      hide Ascending;
      SizeDelete(m, k);
      assert forall i | 0 <= i < |rest| :: rest[i] == s[i + 1];
      SizeWithoutAll(m - {k}, rest);
      KeysCons(s);
      assert m - KeysOf(s) == m - {k} - KeysOf(rest);
    }
  }

  lemma FirstIsAlone(s: seq<Pair>)
    requires Ascending(s) && s != []
    ensures Ascending(s[1..]) && forall i | 0 <= i < |s[1..]| :: s[1..][i].0 != s[0].0
  {
    hide Less;
    LessIrreflexive(s[0].0);
    assert forall i | 0 <= i < |s[1..]| :: s[1..][i] == s[i + 1];
  }

  lemma NoKeys()
    ensures KeysOf([]) == {}
  {
  }

  lemma KeysCons(s: seq<Pair>)
    requires s != []
    ensures KeysOf(s) == {s[0].0} + KeysOf(s[1..])
  {
    forall k ensures k in KeysOf(s) <==> k in {s[0].0} + KeysOf(s[1..]) {
      if k in KeysOf(s) {
        var j :| 0 <= j < |s| && s[j].0 == k;
        assert j > 0 ==> s[1..][j-1].0 == k;
      }
      if k in KeysOf(s[1..]) {
        var j :| 0 <= j < |s[1..]| && s[1..][j].0 == k;
        assert s[j+1].0 == k;
      }
    }
  }

  lemma MutatedTracks(s: State, op: Mutation, leak: nat)
    requires Tracks(s, leak)
    ensures Tracks(Mutated(s, op), leak + Leak(s.data, op))
  {
    hide SizeOf, Wrap, Scan, KeysOf, Recorded, Tracks, TotalBytes;
    match op
    case Put(k, v) => PutTracks(s, k, v, leak);
    case PutWithReturn(k, v) => PutWithReturnTracks(s, k, v, leak);
    case Delete(k) => DeleteTracks(s, k, leak);
    case DeleteRange(lo, hi) => DeleteRangeTracks(s, Scan(s.data, lo, hi), leak);
  }

  lemma PutTracks(s: State, k: Bytes, v: Bytes, leak: nat)
    requires Tracks(s, leak)
    ensures Tracks(State(s.data[k := v], Recorded(s.stats, Record.Put(|k|, |v|, k in s.data))),
                   leak + Leak(s.data, Mutation.Put(k, v)))
  {
    hide SizeOf, Wrap;
    SizePut(s.data, k, v);
    Counted(s, if k in s.data then 0 else 1, |k| + |v|, leak);
  }

  lemma PutWithReturnTracks(s: State, k: Bytes, v: Bytes, leak: nat)
    requires Tracks(s, leak)
    ensures Tracks(State(s.data[k := v], Recorded(s.stats, PutWithOldSize(|k|, |v|, SizeAt(s.data, k)))), leak)
  {
    hide SizeOf, Wrap;
    SizePut(s.data, k, v);
    Counted(s, if k in s.data then 0 else 1, if k in s.data then |v| - |s.data[k]| else |k| + |v|, leak);
  }

  lemma DeleteTracks(s: State, k: Bytes, leak: nat)
    requires Tracks(s, leak)
    ensures k in s.data ==> Tracks(State(s.data - {k}, Recorded(s.stats, Record.Delete(|k|, |s.data[k]|))), leak)
  {
    hide SizeOf, Wrap;
    if k in s.data {
      SizeDelete(s.data, k);
      Counted(s, -1, 0 - (|k| + |s.data[k]|), leak);
    }
  }

  lemma DeleteRangeTracks(s: State, gone: seq<Pair>, leak: nat)
    requires Tracks(s, leak) && Ascending(gone)
    requires forall i :: 0 <= i < |gone| ==> gone[i].0 in s.data && gone[i].1 == s.data[gone[i].0]
    ensures Tracks(State(s.data - KeysOf(gone), Recorded(s.stats, DeleteBatch(|gone|, TotalBytes(gone)))), leak)
  {
    hide SizeOf, Wrap, KeysOf, TotalBytes, Ascending;
    SizeWithoutAll(s.data, gone);
    Counted(s, 0 - |gone|, 0 - TotalBytes(gone), leak);
  }

  lemma Counted(s: State, dn: int, db: int, leak: nat)
    requires Tracks(s, leak)
    ensures Wrap(s.stats.entries + dn) == Wrap(|s.data| + dn)
    ensures Wrap(s.stats.bytes + db) == Wrap(SizeOf(s.data) + leak + db)
  {
    hide SizeOf, Wrap;
    WrapAdd(|s.data|, dn);
    WrapAdd(SizeOf(s.data) + leak, db);
  }

  lemma {:induction false} RunTracks(s: State, ops: seq<Mutation>, leak: nat)
    requires Tracks(s, leak)
    ensures Tracks(Run(s, ops), leak + Leaked(s, ops))
    decreases |ops|
  {
    hide Mutated, Tracks, Leak;
    if ops != [] {
      MutatedTracks(s, ops[0], leak);
      RunTracks(Mutated(s, ops[0]), ops[1..], leak + Leak(s.data, ops[0]));
    }
  }

  // ----- contents -----

  /** What was last put under the key and not removed since. */
  ghost function LastValue(ops: seq<Mutation>, k: Bytes): (v: Option<Bytes>) {
    if ops == [] then None
    else
      var front := ops[..|ops| - 1];
      match ops[|ops| - 1]
      case Put(k', v) => if k' == k then Some(v) else LastValue(front, k)
      case PutWithReturn(k', v) => if k' == k then Some(v) else LastValue(front, k)
      case Delete(k') => if k' == k then None else LastValue(front, k)
      case DeleteRange(lo, hi) =>
        if Leq(lo, k) && (hi.Some? ==> Less(k, hi.value)) then None else LastValue(front, k)
  }

  lemma {:induction false} RunNext(s: State, ops: seq<Mutation>, op: Mutation)
    ensures Run(s, ops + [op]) == Mutated(Run(s, ops), op)
    decreases |ops|
  {
    hide Mutated;
    if ops == [] {
      assert (ops + [op])[1..] == [];
    } else {
      assert (ops + [op])[1..] == ops[1..] + [op];
      RunNext(Mutated(s, ops[0]), ops[1..], op);
    }
  }

  lemma MutatedAt(s: State, op: Mutation, k: Bytes)
    ensures var m := Mutated(s, op).data;
            match op
            case Put(k', v) => Lookup(m, k) == if k' == k then Some(v) else Lookup(s.data, k)
            case PutWithReturn(k', v) => Lookup(m, k) == if k' == k then Some(v) else Lookup(s.data, k)
            case Delete(k') => Lookup(m, k) == if k' == k then None else Lookup(s.data, k)
            case DeleteRange(lo, hi) => Lookup(m, k) == if Within(k, lo, hi) then None else Lookup(s.data, k)
  {
    hide Recorded, Less;
    if op.DeleteRange? {
      var gone := Scan(s.data, op.lo, op.hi);
      assert k in s.data && Within(k, op.lo, op.hi) ==> (k, s.data[k]) in gone;
      hide Scan;
      if k in KeysOf(gone) {
        var i :| 0 <= i < |gone| && gone[i].0 == k;
      }
    }
  }

  /** After any run from an empty backend every key holds what was last put there. */
  lemma {:induction false} ContentsAfterRun(ops: seq<Mutation>, k: Bytes)
    ensures Lookup(Run(State(map[], Counters(0, 0)), ops).data, k) == LastValue(ops, k)
    decreases |ops|
  {
    hide Mutated, Less;
    var s := State(map[], Counters(0, 0));
    if ops != [] {
      var front, op := ops[..|ops| - 1], ops[|ops| - 1];
      ContentsAfterRun(front, k);
      assert front + [op] == ops;
      RunNext(s, front, op);
      hide Run;
      MutatedAt(Run(s, front), op, k);
    }
  }

  /** After any run from an empty backend the entry counter is the number of
      keys; the byte counter is the size of the map plus the leaked bytes, so it
      is right exactly when those vanish modulo 2^64. */
  lemma CountersAfterRun(ops: seq<Mutation>)
    ensures var s := State(map[], Counters(0, 0));
            var t := Run(s, ops);
            && t.stats.entries == Wrap(|t.data|)
            && t.stats.bytes == Wrap(SizeOf(t.data) + Leaked(s, ops))
            && (t.stats.bytes == Wrap(SizeOf(t.data)) <==> Leaked(s, ops) % U64 == 0)
  {
    hide Run, Leaked, Wrap;
    var s := State(map[], Counters(0, 0));
    assert Tracks(s, 0) by {
      EmptySize();
      WrapZero();
    }
    RunTracks(s, ops, 0);
    WrapEqual(SizeOf(Run(s, ops).data), Leaked(s, ops));
  }

  /** Two plain puts to one key: one entry, and the first one's bytes counted for ever. */
  lemma OverwriteLeaks(k: Bytes, v: Bytes, w: Bytes)
    ensures var s := State(map[], Counters(0, 0));
            var ops := [Mutation.Put(k, v), Mutation.Put(k, w)];
            && Run(s, ops).data == map[k := w]
            && Leaked(s, ops) == |k| + |v|
            && Run(s, ops).stats.bytes == Wrap(SizeOf(map[k := w]) + |k| + |v|)
  {
    var s := State(map[], Counters(0, 0));
    var ops := [Mutation.Put(k, v), Mutation.Put(k, w)];
    assert ops[1..] == [Mutation.Put(k, w)] && ops[1..][1..] == [];
    var t := Mutated(s, ops[0]);
    assert t.data == map[k := v];
    assert Mutated(t, ops[1]).data == map[k := w];
    CountersAfterRun(ops);
    hide Wrap, SizeOf;
    var u := Mutated(t, ops[1]);
    assert Run(u, []) == u && Leaked(u, []) == 0;
    assert Run(t, ops[1..]) == u;
    assert Leaked(s, ops) == Leak(s.data, ops[0]) + (Leak(t.data, ops[1]) + 0);
  }

  lemma WrapZero()
    ensures Wrap(0) == 0
  {
  }

  lemma WrapEqual(a: nat, b: nat)
    ensures Wrap(a + b) == Wrap(a) <==> b % U64 == 0
  {
    var x: int := a;
    var y: int := b;
    WrapAdd(x, 0 - x);
    WrapAdd(x + y, 0 - x);
    WrapAdd(y, x);
    assert x + y + (0 - x) == y && x + (0 - x) == 0;
  }

  /** Runs without plain puts over existing keys have exact counters. */
  lemma {:induction false} NoOverwriteNoLeak(s: State, ops: seq<Mutation>)
    requires forall i :: 0 <= i < |ops| ==> !ops[i].Put?
    ensures Leaked(s, ops) == 0
    decreases |ops|
  {
    if ops != [] {
      NoOverwriteNoLeak(Mutated(s, ops[0]), ops[1..]);
    }
  }
}
