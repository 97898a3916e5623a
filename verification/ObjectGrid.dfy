/** Objects flattened into one ordered store: what a scan of an object's block
    recovers, and what deleting the block removes. */
module ObjectGrid {
  import opened Bytes
  import opened StorageKey
  import opened KeySpace
  import opened OrderedStore

  /** All records of all objects, by object id and record. */
  type Grid = map<(Bytes, Record), Bytes>

  ghost predicate WellFormed(g: Grid) {
    forall id, r :: (id, r) in g ==> IsId(id) && IsRecord(r) && |BuildKey(id, r)| < MAX_LEN
  }

  /** `s` holds exactly the records of `g`, each under its built key. */
  ghost predicate Flattened(s: Store, g: Grid) {
    && (forall id, r :: (id, r) in g ==> BuildKey(id, r) in s && s[BuildKey(id, r)] == g[(id, r)])
    && (forall k :: k in s ==> IsBuilt(k, g))
  }

  ghost predicate IsBuilt(k: Bytes, g: Grid) {
    exists id, r :: (id, r) in g && k == BuildKey(id, r)
  }

  function ObjectOf(g: Grid, id: Bytes): (o: map<Record, Bytes>) {
    map p | p in g && p.0 == id :: p.1 := g[p]
  }

  /** The records parsed out of scanned pairs. */
  function Collect(pairs: seq<Pair>): (o: map<Record, Bytes>)
    requires forall i :: 0 <= i < |pairs| ==> |pairs[i].0| < MAX_LEN
  {
    if pairs == [] then map[]
    else
      var (k, v) := pairs[|pairs| - 1];
      var rest := Collect(pairs[..|pairs| - 1]);
      match Parse(k)
      case Match(_, r) => rest[r := v]
      case _ => rest
  }

  function Block(s: Store, id: Bytes): (pairs: seq<Pair>) {
    Scan(s, ObjectPrefix(id), Some(RangeEnd(ObjectPrefix(id))))
  }

  /** A pair of an object's block is one of its records, and parses to it. */
  lemma BlockPair(s: Store, g: Grid, id: Bytes, i: nat) returns (r: Record)
    requires WellFormed(g) && Flattened(s, g) && IsId(id) && i < |Block(s, id)|
    ensures (id, r) in g && Block(s, id)[i] == (BuildKey(id, r), g[(id, r)])
    ensures |BuildKey(id, r)| < MAX_LEN && Parse(BuildKey(id, r)) == Match(id, r)
  {
    hide Parse, ValidUtf8, NulFree, BuildKey;
    var (k, v) := Block(s, id)[i];
    assert IsBuilt(k, g);
    var id', r' :| (id', r') in g && k == BuildKey(id', r');
    ParseBuilt(id', r', []);
    assert k + [] == k;
    BlockIsRange(id, k);
    SameBlock(id, id', k);
    r := r';
  }

  /** Blocks of different ids are disjoint. */
  lemma SameBlock(a: Bytes, b: Bytes, k: Bytes)
    requires NulFree(a) && NulFree(b) && ObjectPrefix(a) <= k && ObjectPrefix(b) <= k
    ensures a == b
  {
    FirstZero(a, k[|a| + 1..]);
    FirstZero(b, k[|b| + 1..]);
    assert k == a + [0] + k[|a| + 1..] && k == b + [0] + k[|b| + 1..];
    assert a == k[..|a|] && b == k[..|b|];
  }

  lemma RecordInBlock(s: Store, g: Grid, id: Bytes, r: Record)
    requires Flattened(s, g) && (id, r) in g
    ensures (BuildKey(id, r), g[(id, r)]) in Block(s, id)
  {
    BlockIsRange(id, BuildKey(id, r));
  }

  lemma BlockKeysShort(s: Store, g: Grid, id: Bytes)
    requires WellFormed(g) && Flattened(s, g) && IsId(id)
    ensures forall i :: 0 <= i < |Block(s, id)| ==> |Block(s, id)[i].0| < MAX_LEN
  {
    forall i | 0 <= i < |Block(s, id)| ensures |Block(s, id)[i].0| < MAX_LEN {
      var r := BlockPair(s, g, id, i);
    }
  }

  lemma CollectStep(front: seq<Pair>, p: Pair, id: Bytes, r': Record, r: Record, v: Bytes)
    requires forall i :: 0 <= i < |front| ==> |front[i].0| < MAX_LEN
    requires |p.0| < MAX_LEN && Parse(p.0) == Match(id, r')
    ensures Holds(Collect(front + [p]), r, v) <==> if r == r' then v == p.1 else Holds(Collect(front), r, v)
  {
    hide Parse;
    assert (front + [p])[..|front|] == front;
  }

  lemma NothingCollected(r: Record, v: Bytes)
    ensures !Holds(Collect([]), r, v)
  {
  }

  /** After `n` pairs the collected records are the object's first `n` records. */
  lemma {:induction false} CollectFirst(s: Store, g: Grid, id: Bytes, n: nat, r: Record, v: Bytes)
    requires WellFormed(g) && Flattened(s, g) && IsId(id) && n <= |Block(s, id)|
    requires forall i :: 0 <= i < |Block(s, id)| ==> |Block(s, id)[i].0| < MAX_LEN
    ensures Holds(Collect(Block(s, id)[..n]), r, v) <==>
              (id, r) in g && g[(id, r)] == v && (BuildKey(id, r), v) in Block(s, id)[..n]
    decreases n
  {
    hide *;
    var block := Block(s, id);
    if n == 0 {
      NothingCollected(r, v);
      assert block[..0] == [];
    } else {
      CollectFirst(s, g, id, n - 1, r, v);
      var front, p := block[..n-1], block[n-1];
      assert block[..n] == front + [p];
      var r' := BlockPair(s, g, id, n - 1);
      CollectStep(front, p, id, r', r, v);
      if (id, r) in g && BuildKey(id, r) == p.0 {
        SameRecord(g, id, r, r');
      }
    }
  }

  ghost predicate Holds(o: map<Record, Bytes>, r: Record, v: Bytes) {
    r in o && o[r] == v
  }

  lemma SameRecord(g: Grid, id: Bytes, r: Record, s: Record)
    requires WellFormed(g) && (id, r) in g && (id, s) in g && BuildKey(id, r) == BuildKey(id, s)
    ensures r == s
  {
    BuildPrefixFree(id, r, id, s);
  }

  /** Scanning an object's block and parsing the keys recovers exactly that
      object: its metadata, event configuration and entries, and nothing else. */
  lemma ScanRecoversObject(s: Store, g: Grid, id: Bytes)
    requires WellFormed(g) && Flattened(s, g) && IsId(id)
    ensures forall i :: 0 <= i < |Block(s, id)| ==> |Block(s, id)[i].0| < MAX_LEN
    ensures Collect(Block(s, id)) == ObjectOf(g, id)
  {
    hide Parse, BuildKey, Scan, WellFormed, Collect, Block;
    BlockKeysShort(s, g, id);
    var block := Block(s, id);
    assert block[..|block|] == block;
    var c, o := Collect(block), ObjectOf(g, id);
    forall r ensures (r in c <==> r in o) && (r in o ==> c[r] == o[r]) {
      if r in o {
        RecordInBlock(s, g, id, r);
        CollectFirst(s, g, id, |block|, r, g[(id, r)]);
      }
      if r in c {
        CollectFirst(s, g, id, |block|, r, c[r]);
      }
    }
  }

  function WithoutBlock(s: Store, id: Bytes): (t: Store) {
    map k | k in s && !InRange(k, ObjectPrefix(id), Some(RangeEnd(ObjectPrefix(id)))) :: s[k]
  }

  /** Deleting an object's range removes its records and no others. */
  lemma DeleteRemovesObject(s: Store, g: Grid, id: Bytes)
    requires WellFormed(g) && Flattened(s, g) && IsId(id)
    ensures Flattened(WithoutBlock(s, id), map p | p in g && p.0 != id :: g[p])
  {
    hide BuildKey, ValidUtf8, NulFree;
    var t, h := WithoutBlock(s, id), map p | p in g && p.0 != id :: g[p];
    forall x, r | (x, r) in h ensures BuildKey(x, r) in t && t[BuildKey(x, r)] == h[(x, r)] {
      BlockIsRange(id, BuildKey(x, r));
      if ObjectPrefix(id) <= BuildKey(x, r) {
        SameBlock(id, x, BuildKey(x, r));
      }
    }
    forall k | k in t ensures IsBuilt(k, h) {
      assert IsBuilt(k, g);
      var x, r :| (x, r) in g && k == BuildKey(x, r);
      if x == id {
        BlockIsRange(id, k);
      }
      assert (x, r) in h;
    }
  }
}
