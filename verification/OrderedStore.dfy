/** The ordered key-value backend: a map of byte strings that is scanned in
    byte order of the keys. */
module OrderedStore {
  import opened Bytes

  type Store = map<Bytes, Bytes>
  type Pair = (Bytes, Bytes)

  /** Keys from `lo` on and, if there is an upper end, before it. */
  ghost predicate Within(k: Bytes, lo: Bytes, hi: Option<Bytes>) {
    Leq(lo, k) && (hi.Some? ==> Less(k, hi.value))
  }

  predicate InRange(k: Bytes, lo: Bytes, hi: Option<Bytes>)
    ensures InRange(k, lo, hi) <==> Within(k, lo, hi)
  {
    (lo == k || SliceLess(lo, k)) && (hi.Some? ==> SliceLess(k, hi.value))
  }

  ghost predicate Ascending(s: seq<Pair>) {
    forall i, j :: 0 <= i < j < |s| ==> Less(s[i].0, s[j].0)
  }

  /** `s` lists the part of `m` in the range, in order. */
  ghost predicate Lists(s: seq<Pair>, m: Store, lo: Bytes, hi: Option<Bytes>) {
    && Ascending(s)
    && (forall i :: 0 <= i < |s| ==> s[i].0 in m && s[i].1 == m[s[i].0] && Within(s[i].0, lo, hi))
    && (forall k :: k in m && Within(k, lo, hi) ==> (k, m[k]) in s)
  }

  // ----- scanning -----

  predicate IsLeast(k: Bytes, keys: set<Bytes>) {
    k in keys && forall l :: l in keys ==> k == l || SliceLess(k, l)
  }

  lemma {:induction false} LeastExists(keys: set<Bytes>)
    requires keys != {}
    ensures exists k :: IsLeast(k, keys)
  {
    var x :| x in keys;
    var rest := keys - {x};
    if rest == {} {
      assert keys == {x};
      assert IsLeast(x, keys);
    } else {
      LeastExists(rest);
      var y :| IsLeast(y, rest);
      LessTotal(x, y);
      if Less(y, x) {
        assert IsLeast(y, keys);
      } else {
        forall l | l in keys ensures x == l || Less(x, l) {
          if l != x && l != y {
            assert l in rest;
            LessTransitive(x, y, l);
          }
        }
        assert IsLeast(x, keys);
      }
    }
  }

  lemma LeastUnique(k: Bytes, l: Bytes, keys: set<Bytes>)
    requires IsLeast(k, keys) && IsLeast(l, keys)
    ensures k == l
  {
    if k != l {
      LessAsymmetric(k, l);
    }
  }

  function Least(keys: set<Bytes>): (k: Bytes)
    requires keys != {}
    ensures IsLeast(k, keys)
  {
    LeastExists(keys);
    assert forall k, l :: IsLeast(k, keys) && IsLeast(l, keys) ==> k == l by {
      forall k, l | IsLeast(k, keys) && IsLeast(l, keys) ensures k == l {
        LeastUnique(k, l, keys);
      }
    }
    var k :| IsLeast(k, keys);
    k
  }

  function InOrder(m: Store, keys: set<Bytes>): (s: seq<Pair>)
    requires keys <= m.Keys
    ensures Ascending(s)
    ensures forall i :: 0 <= i < |s| ==> s[i].0 in keys && s[i].1 == m[s[i].0]
    ensures forall k :: k in keys ==> (k, m[k]) in s
    decreases |keys|
  {
    if keys == {} then [] else
    var k := Least(keys);
    [(k, m[k])] + InOrder(m, keys - {k})
  }

  function Scan(m: Store, lo: Bytes, hi: Option<Bytes>): (s: seq<Pair>)
    ensures Lists(s, m, lo, hi)
  {
    var keys := set k | k in m && InRange(k, lo, hi);
    assert forall k :: k in m && Within(k, lo, hi) ==> k in keys;
    InOrder(m, keys)
  }

  // ----- a listing is determined by what it lists -----

  lemma {:induction false} AscendingUnique(s: seq<Pair>, t: seq<Pair>)
    requires Ascending(s) && Ascending(t)
    requires forall p :: p in s <==> p in t
    ensures s == t
    decreases |s|
  {
    if s == [] {
      if t != [] {
        SomeMember(t, s);
      }
    } else {
      SomeMember(s, t);
      assert s[0] in t && t[0] in s;
      HeadsAgree(s, t);
      forall p ensures p in s[1..] <==> p in t[1..] {
        TailMembers(s, p);
        TailMembers(t, p);
      }
      AscendingUnique(s[1..], t[1..]);
      assert s == [s[0]] + s[1..] && t == [t[0]] + t[1..];
    }
  }

  lemma SomeMember(s: seq<Pair>, t: seq<Pair>)
    requires s != [] && forall p :: p in s ==> p in t
    ensures t != []
  {
    assert s[0] in s;
  }

  lemma HeadsAgree(s: seq<Pair>, t: seq<Pair>)
    requires Ascending(s) && Ascending(t) && s != [] && t != []
    requires s[0] in t && t[0] in s
    ensures s[0] == t[0]
  {
    if s[0] != t[0] {
      var i :| 0 <= i < |t| && t[i] == s[0];
      var j :| 0 <= j < |s| && s[j] == t[0];
      LessAsymmetric(s[0].0, t[0].0);
    }
  }

  lemma TailMembers(s: seq<Pair>, p: Pair)
    requires Ascending(s) && s != []
    ensures p in s[1..] <==> p in s && p != s[0]
  {
    if p in s[1..] {
      var i :| 0 <= i < |s[1..]| && s[1..][i] == p;
      assert Less(s[0].0, s[i + 1].0);
      LessIrreflexive(p.0);
    }
  }

  lemma ListsUnique(s: seq<Pair>, t: seq<Pair>, m: Store, lo: Bytes, hi: Option<Bytes>)
    requires Lists(s, m, lo, hi) && Lists(t, m, lo, hi)
    ensures s == t
  {
    AscendingUnique(s, t);
  }

  /** No key is listed twice. */
  lemma ListedOnce(s: seq<Pair>, i: nat, j: nat)
    requires Ascending(s) && i < |s| && j < |s| && s[i].0 == s[j].0
    ensures i == j
  {
    LessIrreflexive(s[i].0);
  }

  lemma AscendingAppend(s: seq<Pair>, t: seq<Pair>)
    requires Ascending(s) && Ascending(t)
    requires forall i, j :: 0 <= i < |s| && 0 <= j < |t| ==> Less(s[i].0, t[j].0)
    ensures Ascending(s + t)
  {
  }

  lemma EmptyIsLeast(k: Bytes)
    ensures Leq([], k)
  {
    assert k != [] ==> LessAt([], k, 0);
  }

  // ----- sizes -----

  /** Bytes held by a map: the lengths of all keys and values. */
  ghost function SizeOf(m: Store): (n: nat)
    decreases |m|
  {
    if m == map[] then 0 else
    var k :| k in m;
    |k| + |m[k]| + SizeOf(m - {k})
  }

  lemma {:induction false} SizeWithout(m: Store, k: Bytes)
    requires k in m
    ensures SizeOf(m) == |k| + |m[k]| + SizeOf(m - {k})
    decreases |m|
  {
    var l :| l in m && SizeOf(m) == |l| + |m[l]| + SizeOf(m - {l});
    if l != k {
      SizeWithout(m - {l}, k);
      SizeWithout(m - {k}, l);
      assert m - {l} - {k} == m - {k} - {l};
    }
  }

  lemma SizePut(m: Store, k: Bytes, v: Bytes)
    ensures k !in m ==> SizeOf(m[k := v]) == SizeOf(m) + |k| + |v| && |m[k := v]| == |m| + 1
    ensures k in m ==> SizeOf(m[k := v]) == SizeOf(m) - |m[k]| + |v| && |m[k := v]| == |m|
  {
    hide SizeOf;
    SizeWithout(m[k := v], k);
    assert m[k := v] - {k} == m - {k};
    if k in m {
      SizeWithout(m, k);
      assert m[k := v].Keys == m.Keys;
    } else {
      assert m - {k} == m;
      assert m[k := v].Keys == m.Keys + {k};
    }
  }

  lemma SizeDelete(m: Store, k: Bytes)
    requires k in m
    ensures SizeOf(m - {k}) == SizeOf(m) - |k| - |m[k]| && |m - {k}| == |m| - 1
  {
    hide SizeOf;
    SizeWithout(m, k);
    assert (m - {k}).Keys == m.Keys - {k};
  }

  function TotalBytes(s: seq<Pair>): (n: nat) {
    if s == [] then 0 else |s[0].0| + |s[0].1| + TotalBytes(s[1..])
  }

  lemma {:induction false} InOrderSize(m: Store, keys: set<Bytes>)
    requires keys <= m.Keys
    ensures |InOrder(m, keys)| == |keys|
    ensures TotalBytes(InOrder(m, keys)) == SizeOf(map k | k in keys :: m[k])
    decreases |keys|
  {
    hide Ascending, SizeOf;
    var part := map k | k in keys :: m[k];
    if keys != {} {
      var k := Least(keys);
      InOrderSize(m, keys - {k});
      SizeWithout(part, k);
      assert part - {k} == map l | l in keys - {k} :: m[l];
      assert InOrder(m, keys)[1..] == InOrder(m, keys - {k});
    } else {
      assert part == map[];
      EmptySize();
    }
  }

  lemma EmptySize()
    ensures SizeOf(map[]) == 0
  {
  }

  /** A full scan has one pair for every key and the bytes of the map. */
  lemma FullScanSize(m: Store)
    ensures |Scan(m, [], None)| == |m|
    ensures TotalBytes(Scan(m, [], None)) == SizeOf(m)
  {
    hide InRange, Lists, SizeOf, Ascending, InOrder;
    var keys := set k | k in m && InRange(k, [], None);
    assert keys == m.Keys by {
      forall k | k in m ensures k in keys {
        EmptyIsLeast(k);
      }
    }
    InOrderSize(m, keys);
    assert (map k | k in keys :: m[k]) == m;
  }
}
