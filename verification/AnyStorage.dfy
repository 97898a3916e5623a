/** The generic storage layer over one ordered backend. */
module AnyStorage {
  import opened Bytes
  import opened Collections
  import opened OrderedStore
  import Paging
  import Snapshot
  import CompareAndSwap
  import Increment
  import LittleEndian
  import Stats

  /** An item of a snapshot stream: a pair, or the error that ends it. */
  datatype Item = Ok(pair: Pair) | Err

  /** The pairs before the first error. */
  function Received(stream: seq<Item>): (pairs: seq<Pair>)
    ensures |pairs| <= |stream|
    ensures forall i :: 0 <= i < |pairs| ==> stream[i] == Ok(pairs[i])
    ensures |pairs| < |stream| ==> stream[|pairs|] == Err
  {
    if stream == [] || stream[0].Err? then [] else [stream[0].pair] + Received(stream[1..])
  }

  class AnyStorage {
    var data: Store

    constructor ()
      ensures data == map[]
    {
      data := map[];
    }

    method ScanRangePaginated(start: Bytes, end: Bytes, limit: Option<nat>)
        returns (results: seq<Pair>, next: Option<Bytes>)
      requires Leq(start, end)
      ensures (results, next) == Paging.Page(data, start, end, limit)
      ensures limit.None? ==> next.None? && Lists(results, data, start, Some(end))
    {
      results := Scan(data, start, Some(end));
      next := None;
      if limit.Some? {
        if |results| > limit.value {
          next := Some(results[limit.value].0);
          results := results[..limit.value];
        }
      }
    }

    method MultiGet(keys: seq<Bytes>) returns (results: seq<Option<Bytes>>)
      ensures |results| == |keys|
      ensures forall i :: 0 <= i < |keys| ==> results[i] == Lookup(data, keys[i])
    {
      results := [];
      for n := 0 to |keys|
        invariant |results| == n
        invariant forall i :: 0 <= i < n ==> results[i] == Lookup(data, keys[i])
      {
        results := results + [if keys[n] in data then Some(data[keys[n]]) else None];
      }
    }

    /** Run without interleaving, an increment is its two steps; a value that is no counter is
        refused and kept. */
    method IncrementValue(key: Bytes, delta: int) returns (r: Option<nat>)
      modifies this
      ensures var w := Increment.World(Lookup(old(data), key), map[], []);
              var w' := Increment.Run(w, [Increment.Begin(0, delta), Increment.Finish(0)]);
              && w'.results == [(0, r)]
              && data == CompareAndSwap.Update(old(data), key, w'.value)
      ensures r.None? <==> key in old(data) && |old(data)[key]| != 8
      ensures r.None? ==> data == old(data)
      ensures r.Some? ==>
                && r.value < Stats.U64 && key in data && data[key] == LittleEndian.ToLe(r.value, 8)
                && (r.value - delta - (if key in old(data) then LittleEndian.FromLe(old(data)[key]) else 0)) % Stats.U64 == 0
      ensures forall k | k != key :: Lookup(data, k) == Lookup(old(data), k)
    {
      Increment.Alone(Lookup(data, key), delta);
      hide Increment.Run;
      var current := 0;
      if key in data {
        if |data[key]| != 8 {
          assert CompareAndSwap.Update(data, key, Some(data[key])) == data;
          return None;
        }
        current := LittleEndian.FromLe(data[key]);
      }
      var sum := Stats.Wrap(current + delta);
      data := data[key := LittleEndian.ToLe(sum, 8)];
      r := Some(sum);
    }

    /** Run without interleaving, a swap is the atomic operation. */
    method CompareAndSwapValue(key: Bytes, expected: Option<Bytes>, value: Option<Bytes>) returns (done: bool)
      modifies this
      ensures var swap := CompareAndSwap.Swap(0, CompareAndSwap.Cas(key, expected, value));
              CompareAndSwap.Apply(CompareAndSwap.Atomic(old(data), []), swap)
              == CompareAndSwap.Atomic(data, [(0, done)])
      ensures done <==> (if key in old(data) then expected == Some(old(data)[key]) else expected == None)
      ensures !done ==> data == old(data)
      ensures done ==> (key in data <==> value.Some?) && (value.Some? ==> data[key] == value.value)
      ensures forall k | k != key :: Lookup(data, k) == Lookup(old(data), k)
    {
      var current := if key in data then Some(data[key]) else None;
      var matches :=
        match (current, expected)
        case (Some(c), Some(e)) => c == e
        case (None, None) => true
        case _ => false;
      if matches {
        match value {
          case Some(v) => data := data[key := v];
          case None => data := data - {key};
        }
        done := true;
      } else {
        done := false;
      }
    }

    method CreateSnapshot() returns (s: Snapshot.Snapshot)
      ensures s == Snapshot.Take(data)
      ensures s.entryCount == |data| && s.totalBytes == SizeOf(data)
    {
      var all := Scan(data, [], None);
      var size := EstimateSnapshotSize(all);
      s := Snapshot.Snapshot(all, |all|, size);
      Snapshot.RestoreIsExact(data);
    }

    /** Replaces the contents by the pairs of the stream; a stream that fails
        leaves exactly the pairs received before the failure. */
    method InstallFromStream(stream: seq<Item>) returns (ok: bool)
      modifies this
      ensures ok <==> |Received(stream)| == |stream|
      ensures data == Snapshot.Installed(Received(stream))
    {
      data := map[];
      var pairs := Received(stream);
      var i := 0;
      while i < |stream|
        invariant i <= |pairs|
        invariant data == Snapshot.Installed(pairs[..i])
      {
        if stream[i].Err? {
          assert pairs[..i] == pairs;
          return false;
        }
        assert pairs[..i+1][..i] == pairs[..i];
        data := data[stream[i].pair.0 := stream[i].pair.1];
        i := i + 1;
      }
      assert pairs[..i] == pairs;
      ok := true;
    }

    /** Restoring brings back the contents at the time of the snapshot. */
    method RestoreFromSnapshot(s: Snapshot.Snapshot, ghost taken: Store) returns (ok: bool)
      requires s == Snapshot.Take(taken)
      modifies this
      ensures ok && data == taken
    {
      var stream := seq(|s.pairs|, i requires 0 <= i < |s.pairs| => Ok(s.pairs[i]));
      ReceivedAll(stream, s.pairs);
      Snapshot.RestoreIsExact(taken);
      hide *;
      ok := InstallFromStream(stream);
    }
  }

  method EstimateSnapshotSize(pairs: seq<Pair>) returns (size: nat)
    ensures size == TotalBytes(pairs)
  {
    size := 0;
    for i := 0 to |pairs|
      invariant size + TotalBytes(pairs[i..]) == TotalBytes(pairs)
    {
      assert pairs[i..][1..] == pairs[i+1..];
      size := size + (|pairs[i].0| + |pairs[i].1|);
    }
  }

  lemma ReceivedAll(stream: seq<Item>, pairs: seq<Pair>)
    requires |stream| == |pairs| && forall i :: 0 <= i < |pairs| ==> stream[i] == Ok(pairs[i])
    ensures Received(stream) == pairs
  {
  }
}
