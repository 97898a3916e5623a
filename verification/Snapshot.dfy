/** Snapshots as lists of pairs, their installation, and their transfer between
    Raft nodes as one byte stream. */
module Snapshot {
  import opened Bytes
  import opened OrderedStore
  import opened LittleEndian

  datatype Snapshot = Snapshot(pairs: seq<Pair>, entryCount: nat, totalBytes: nat)

  function Take(m: Store): (s: Snapshot) {
    var all := Scan(m, [], None);
    Snapshot(all, |all|, TotalBytes(all))
  }

  /** The store after putting the pairs one by one into an empty store. */
  function Installed(pairs: seq<Pair>): (m: Store) {
    if pairs == [] then map[]
    else
      var (k, v) := pairs[|pairs| - 1];
      Installed(pairs[..|pairs| - 1])[k := v]
  }

  ghost predicate Has(m: Store, k: Bytes, v: Bytes) {
    k in m && m[k] == v
  }

  lemma {:induction false} InstalledContents(pairs: seq<Pair>)
    requires Ascending(pairs)
    ensures forall k, v :: Has(Installed(pairs), k, v) <==> (k, v) in pairs
    decreases |pairs|
  {
    if pairs != [] {
      var n := |pairs| - 1;
      var front, last := pairs[..n], pairs[n];
      InstalledContents(front);
      forall k, v ensures Has(Installed(pairs), k, v) <==> (k, v) in pairs {
        if (k, v) in pairs {
          var i :| 0 <= i < |pairs| && pairs[i] == (k, v);
          if i < n {
            assert front[i] == (k, v);
            LessAsymmetric(k, last.0);
          }
        }
      }
    }
  }

  /** A snapshot restores exactly the map it was taken of, whatever the target
      store held; its counts are those of the map. */
  lemma RestoreIsExact(m: Store)
    ensures Installed(Take(m).pairs) == m
    ensures Take(m).entryCount == |m| && Take(m).totalBytes == SizeOf(m)
  {
    FullScanSize(m);
    ScanInstalled(m);
  }

  lemma ScanInstalled(m: Store)
    ensures Installed(Scan(m, [], None)) == m
  {
    hide Installed, Scan;
    var all := Scan(m, [], None);
    InstalledContents(all);
    forall k, v ensures Has(Installed(all), k, v) <==> Has(m, k, v) {
      if Has(m, k, v) {
        EmptyIsLeast(k);
        assert (k, v) in all;
      }
    }
    SameContents(Installed(all), m);
  }

  lemma SameContents(a: Store, b: Store)
    requires forall k, v :: Has(a, k, v) <==> Has(b, k, v)
    ensures a == b
  {
    forall k ensures k in a ==> k in b && a[k] == b[k] {
      if k in a {
        assert Has(a, k, a[k]);
      }
    }
    forall k ensures k in b ==> k in a {
      if k in b {
        assert Has(b, k, b[k]);
      }
    }
  }

  // ----- transfer -----

  const U32: nat := 0x1_0000_0000

  /** One pair on the wire; lengths are cut to 32 bits. */
  function SerializePair(p: Pair): (s: Bytes) {
    ToLe(|p.0| % U32, 4) + p.0 + ToLe(|p.1| % U32, 4) + p.1
  }

  function SerializeAll(pairs: seq<Pair>): (s: Bytes) {
    if pairs == [] then [] else SerializePair(pairs[0]) + SerializeAll(pairs[1..])
  }

  /** Where the parser ends: at the end of the stream, or waiting for bytes that
      will not come. */
  datatype Ending = End | Stalled

  /** The parser reading a complete buffer. A key length of zero ends the stream. */
  function ParseAll(s: Bytes): (r: (seq<Pair>, Ending))
    decreases |s|
  {
    if s == [] then ([], End)
    else if |s| < 4 then ([], Stalled)
    else
      var klen := FromLe(s[..4]);
      if klen == 0 then ([], End)
      else if |s| < 4 + klen + 4 then ([], Stalled)
      else
        var vlen := FromLe(s[4 + klen..8 + klen]);
        if |s| < 8 + klen + vlen then ([], Stalled)
        else
          var (rest, ending) := ParseAll(s[8 + klen + vlen..]);
          ([(s[4..4 + klen], s[8 + klen..8 + klen + vlen])] + rest, ending)
  }

  predicate Fits(pairs: seq<Pair>) {
    forall i :: 0 <= i < |pairs| ==> |pairs[i].0| < U32 && |pairs[i].1| < U32
  }

  /** The pairs before the first one with an empty key. */
  function BeforeEmptyKey(pairs: seq<Pair>): (r: seq<Pair>) {
    if pairs == [] || pairs[0].0 == [] then [] else [pairs[0]] + BeforeEmptyKey(pairs[1..])
  }

  lemma SerializedParts(p: Pair, rest: Bytes)
    requires |p.0| < U32 && |p.1| < U32
    ensures var s := SerializePair(p) + rest;
            var n := |p.0|;
            && |s| == 8 + n + |p.1| + |rest|
            && FromLe(s[..4]) == n && s[4..4 + n] == p.0
            && FromLe(s[4 + n..8 + n]) == |p.1| && s[8 + n..8 + n + |p.1|] == p.1
            && s[8 + n + |p.1|..] == rest
  {
    hide ToLe, FromLe;
    var a, b := ToLe(|p.0| % U32, 4), ToLe(|p.1| % U32, 4);
    Widths();
    FromTo(|p.0|, 4);
    FromTo(|p.1|, 4);
    var s := SerializePair(p) + rest;
    var n := |p.0|;
    assert s == a + p.0 + b + p.1 + rest;
    assert s[..4] == a && s[4 + n..8 + n] == b;
  }

  lemma {:induction false} ParseSerialized(pairs: seq<Pair>)
    requires Fits(pairs)
    ensures ParseAll(SerializeAll(pairs)) == (BeforeEmptyKey(pairs), End)
    decreases |pairs|
  {
    hide ToLe, FromLe, SerializePair;
    if pairs != [] {
      var p, rest := pairs[0], SerializeAll(pairs[1..]);
      SerializedParts(p, rest);
      ParseSerialized(pairs[1..]);
    }
  }

  lemma {:induction false} ParsedFits(s: Bytes)
    ensures Fits(ParseAll(s).0)
    decreases |s|
  {
    if |s| >= 4 {
      var klen := FromLe(s[..4]);
      LengthFits(s[..4]);
      if klen > 0 && |s| >= 8 + klen {
        var vlen := FromLe(s[4 + klen..8 + klen]);
        LengthFits(s[4 + klen..8 + klen]);
        if |s| >= 8 + klen + vlen {
          ParsedFits(s[8 + klen + vlen..]);
        }
      }
    }
  }

  lemma LengthFits(s: Bytes)
    requires |s| == 4
    ensures FromLe(s) < U32
  {
    Widths();
    ToFrom(s);
  }

  lemma {:induction false} InstalledFrom(pairs: seq<Pair>, k: Bytes)
    requires k in Installed(pairs)
    ensures (k, Installed(pairs)[k]) in pairs
    decreases |pairs|
  {
    var n := |pairs| - 1;
    if k != pairs[n].0 {
      InstalledFrom(pairs[..n], k);
    }
  }

  /** Nothing that does not fit 32 bits arrives. */
  lemma OversizeIsLost(m: Store, s: Bytes)
    requires !Fits(Take(m).pairs)
    ensures Installed(ParseAll(s).0) != m
  {
    hide ParseAll, Scan;
    var all, got := Take(m).pairs, ParseAll(s).0;
    ParsedFits(s);
    var i :| 0 <= i < |all| && !(|all[i].0| < U32 && |all[i].1| < U32);
    var k := all[i].0;
    if Installed(got) == m {
      InstalledFrom(got, k);
    }
  }

  /** A node that installs the transferred snapshot of `m` gets `m` exactly when `m` has no
      empty key and all lengths fit 32 bits; with an empty key it gets an empty store. */
  lemma TransferIsExact(m: Store)
    ensures Installed(ParseAll(SerializeAll(Take(m).pairs)).0) == m <==> [] !in m && Fits(Take(m).pairs)
    ensures Fits(Take(m).pairs) ==> ParseAll(SerializeAll(Take(m).pairs)).1 == End
    ensures Fits(Take(m).pairs) && [] in m ==> Installed(ParseAll(SerializeAll(Take(m).pairs)).0) == map[]
  {
    var all := Scan(m, [], None);
    if !Fits(all) {
      OversizeIsLost(m, SerializeAll(all));
    } else {
      ParseSerialized(all);
      if [] in m {
        EmptyKeyFirst(m);
      } else {
        AllBefore(all);
        RestoreIsExact(m);
      }
    }
  }

  lemma EmptyKeyFirst(m: Store)
    requires [] in m
    ensures Scan(m, [], None) != [] && Scan(m, [], None)[0].0 == []
  {
    var all := Scan(m, [], None);
    assert ([], m[[]]) in all;
    var i :| 0 <= i < |all| && all[i] == ([], m[[]]);
    if i > 0 {
      EmptyIsLeast(all[0].0);
      LessAsymmetric(all[0].0, []);
    }
  }

  lemma {:induction false} AllBefore(pairs: seq<Pair>)
    requires forall i :: 0 <= i < |pairs| ==> pairs[i].0 != []
    ensures BeforeEmptyKey(pairs) == pairs
    decreases |pairs|
  {
    if pairs != [] {
      AllBefore(pairs[1..]);
    }
  }
}
