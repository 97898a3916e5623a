/** Listing by prefix to the end: complete at every page size exactly for contiguous matches,
    and otherwise a matter of the page size. */
module PrefixGap {
  import opened Bytes
  import opened Collections
  import opened StorageKey
  import opened KeySpace
  import opened OrderedStore
  import opened EntryList
  import opened EntryListProof

  /** A match, entries that fail the prefix, and another match. */
  ghost predicate Gap(q: Query, h: Pair, misses: seq<Pair>, h': Pair) {
    && q.prefix.Some? && misses != []
    && |h.0| < MAX_LEN && |h'.0| < MAX_LEN && Short(misses)
    && Taken(q, h) && Taken(q, h')
    && forall i | 0 <= i < |misses| :: Miss(q, misses[i].0)
  }

  lemma {:induction false} PassSkipsMisses(q: Query, misses: seq<Pair>, todo: seq<Pair>, n: nat)
    requires n > 0 && Short(misses) && Short(todo)
    requires forall i | 0 <= i < |misses| :: Miss(q, misses[i].0)
    ensures Short(misses + todo)
    ensures Pass(q, misses + todo, n, false) == Pass(q, todo, n, false)
    ensures Matching(q, misses + todo) == Matching(q, todo)
    decreases |misses|
  {
    hide Hit, Miss, KeyOf;
    if misses == [] {
      assert misses + todo == todo;
    } else {
      var all := misses + todo;
      assert all[0] == misses[0] && all[1..] == misses[1..] + todo;
      HitOrMiss(q, all[0].0);
      PassSkipsMisses(q, misses[1..], todo, n);
    }
  }

  lemma OneHit(q: Query, h: Pair)
    requires |h.0| < MAX_LEN && Taken(q, h)
    ensures Short([h])
    ensures Matching(q, [h]) == [EntryOf(q, h)]
    ensures Pass(q, [h], 1, false) == Outcome([EntryOf(q, h)], Some(h.0), [], Full)
  {
    HitOrMiss(q, h.0);
    assert [h][1..] == [];
  }

  lemma HitThen(q: Query, h: Pair, rest: seq<Pair>, n: nat)
    requires n > 0 && |h.0| < MAX_LEN && Taken(q, h) && Short(rest)
    ensures Short([h] + rest)
    ensures Matching(q, [h] + rest) == [EntryOf(q, h)] + Matching(q, rest)
    ensures n == 1 ==> Pass(q, [h] + rest, n, false) == Outcome([EntryOf(q, h)], Some(h.0), rest, Full)
    ensures n > 1 && rest != [] && Miss(q, rest[0].0) ==>
              Pass(q, [h] + rest, n, false) == Outcome([EntryOf(q, h)], Some(h.0), rest, Exhausted)
  {
    hide Hit, Miss, KeyOf;
    var all := [h] + rest;
    assert all[0] == h && all[1..] == rest;
    HitOrMiss(q, h.0);
    TakenIsHit(q, h);
    if n > 1 && rest != [] && Miss(q, rest[0].0) {
      assert Pass(q, rest, n - 1, true) == Outcome([], None, rest, Exhausted);
    }
  }

  lemma GapMatches(q: Query, h: Pair, misses: seq<Pair>, h': Pair)
    requires Gap(q, h, misses, h')
    ensures Short(misses + [h']) && Short([h] + (misses + [h']))
    ensures Matching(q, [h] + (misses + [h'])) == [EntryOf(q, h), EntryOf(q, h')]
    ensures Pass(q, misses + [h'], 1, false) == Outcome([EntryOf(q, h')], Some(h'.0), [], Full)
  {
    hide Pass, Matching, Taken, Miss, EntryOf;
    OneHit(q, h');
    PassSkipsMisses(q, misses, [h'], 1);
    HitThen(q, h, misses + [h'], 1);
  }

  /** With pages of one entry the call at the first match reports more exactly when the storage
      layer has pairs beyond the first chunk. */
  lemma FirstPageReports(q: Query, h: Pair, misses: seq<Pair>, h': Pair)
    requires Gap(q, h, misses, h')
    ensures Short([h] + (misses + [h']))
    ensures More(q, [h] + (misses + [h']), false, 1, false) <==> |misses| >= LIST_SCAN_SLACK
  {
    GapMatches(q, h, misses, h');
    var rest := misses + [h'];
    var all := [h] + rest;
    var size := Min(1 + LIST_SCAN_SLACK, |all|);
    var chunk, after := all[..size], all[size..];
    assert all == chunk + after;
    assert chunk == [h] + rest[..size - 1];
    assert after == rest[size - 1..];
    assert rest[..size - 1][0] == misses[0];
    forall i | 0 <= i < |rest| ensures KeyOf(q, rest[i].0).Some? {
      if i < |misses| { assert rest[i] == misses[i] && Miss(q, misses[i].0); } else { assert rest[i] == h'; }
    }
    assert !Hit(q, misses[0].0) by { HitOrMiss(q, misses[0].0); }
    MoreStep(q, all, false, chunk, after, 1, false);
    RestNone(chunk);
    HitThen(q, h, rest[..size - 1], 1);
    MoreFromStep(q, chunk, after, 1, false);
    hide Pass, More, MoreFrom, Hit, Miss, Taken, KeyOf;
  }

  /** The first scan has nothing to skip. */
  lemma FreshScan(s: Store, q: Query)
    ensures Todo(s, q.id, None) == Scan(s, StartKey(q.id, None), Some(BlockEnd(q.id)))
    ensures !Skips(Scan(s, StartKey(q.id, None), Some(BlockEnd(q.id))), StartKey(q.id, None), None)
  {
    hide Scan;
  }

  lemma ReportsFresh(s: Store, q: Query, limit: nat, all: seq<Pair>)
    requires limit > 0 && Short(all) && Todo(s, q.id, None) == all
    ensures Short(Scan(s, StartKey(q.id, None), Some(BlockEnd(q.id)))) && PageSize(limit) > 0
    ensures Reports(s, q, limit, None) == More(q, all, false, PageSize(limit), false)
  {
    FreshScan(s, q);
    hide Scan, More, StartKey, BlockEnd, Todo;
  }

  /** What a chain unfolds to at one page. */
  lemma ChainedOnce(s: Store, q: Query, limit: nat, cursor: Option<Bytes>)
    requires limit > 0 && Parseable(s) && (cursor.Some? ==> |cursor.value| < MAX_LEN)
    ensures Short(Todo(s, q.id, cursor)) && PageSize(limit) > 0
    ensures Short(Scan(s, StartKey(q.id, cursor), Some(BlockEnd(q.id))))
    ensures var o := Pass(q, Todo(s, q.id, cursor), PageSize(limit), false);
            && (!Reports(s, q, limit, cursor) ==> Chained(s, q, limit, cursor).0 == o.entries)
            && (Reports(s, q, limit, cursor) ==>
                  && o.stop == Full && o.last.Some? && |o.last.value| < MAX_LEN && Todo(s, q.id, o.last) == o.rest
                  && Chained(s, q, limit, cursor).0 == o.entries + Chained(s, q, limit, o.last).0)
  {
    hide Pass, Todo, Scan, Parseable, Reports, StartKey, BlockEnd;
    TodoShort(s, q.id, cursor);
    ScanShort(s, StartKey(q.id, cursor), BlockEnd(q.id));
    PageSizePositive(limit);
    if Reports(s, q, limit, cursor) {
      ReportsResumes(s, q, limit, cursor);
    }
  }

  /** A page that leaves nothing, or is not full, reports no more. */
  lemma NoReport(s: Store, q: Query, limit: nat, cursor: Option<Bytes>)
    requires limit > 0 && Parseable(s) && (cursor.Some? ==> |cursor.value| < MAX_LEN)
    requires Short(Scan(s, StartKey(q.id, cursor), Some(BlockEnd(q.id)))) && Short(Todo(s, q.id, cursor))
    requires PageSize(limit) > 0
    requires var o := Pass(q, Todo(s, q.id, cursor), PageSize(limit), false); o.rest == [] || o.stop != Full
    ensures !Reports(s, q, limit, cursor)
  {
    hide *;
    var o := Pass(q, Todo(s, q.id, cursor), PageSize(limit), false);
    ListedIs(s, q, limit, cursor, o);
    ListedMeans(s, q, limit, cursor, o.entries, if Reports(s, q, limit, cursor) then o.last else None);
    if o.stop == Full {
      NothingLeft(q, Reports(s, q, limit, cursor));
    }
  }

  lemma NothingLeft(q: Query, more: bool)
    ensures MoreIsRight(q, [], more) ==> !more
  {
  }

  lemma PageOfOne(limit: nat)
    requires limit > 0
    ensures PageSize(limit) > 0 && (PageSize(limit) == 1 <==> limit == 1)
  {
  }

  lemma GapFacts(q: Query, h: Pair, misses: seq<Pair>, h': Pair)
    requires Gap(q, h, misses, h')
    ensures |h.0| < MAX_LEN && |h'.0| < MAX_LEN && Taken(q, h) && Taken(q, h')
    ensures (misses + [h'])[0] == misses[0] && |misses[0].0| < MAX_LEN && Miss(q, (misses + [h'])[0].0)
  {
    hide Taken, Miss;
  }

  /** A chain over contiguous matches is complete. */
  lemma {:induction false} ContiguousChain(s: Store, q: Query, limit: nat, cursor: Option<Bytes>)
    requires limit > 0 && Parseable(s) && (cursor.Some? ==> |cursor.value| < MAX_LEN)
    requires Short(Todo(s, q.id, cursor)) && Contiguous(q, Todo(s, q.id, cursor))
    requires q.prefix.Some? ==> AllEntries(q, Todo(s, q.id, cursor))
    ensures Chained(s, q, limit, cursor).0 == Matching(q, Todo(s, q.id, cursor))
    decreases |Todo(s, q.id, cursor)|
  {
    hide Pass, Matching, Contiguous, Todo, Scan, Parseable, Hit, Miss, KeyOf, Reports, Chained, StartKey, BlockEnd;
    ChainedOnce(s, q, limit, cursor);
    var todo := Todo(s, q.id, cursor);
    var n := PageSize(limit);
    var o := Pass(q, todo, n, false);
    ListedIs(s, q, limit, cursor, o);
    ListedMeans(s, q, limit, cursor, o.entries, if Reports(s, q, limit, cursor) then o.last else None);
    if o.stop == Full {
      FullPageSplits(q, todo, n);
      RestEntries(q, todo, n);
      if Reports(s, q, limit, cursor) {
        ReportsResumes(s, q, limit, cursor);
        ContiguousChain(s, q, limit, o.last);
      } else {
        LastPage(q, o.rest);
        assert o.entries + [] == o.entries;
      }
    } else {
      NotSeen(q, todo);
      PassComplete(q, todo, n, false);
    }
  }

  lemma PageIsNotFull(q: Query, todo: seq<Pair>, n: nat)
    requires Short(todo) && n > |Matching(q, todo)|
    ensures Pass(q, todo, n, false).stop != Full
  {
    assert Short([]);
    hide *;
    PassLosesEntries(q, todo, n, false);
    PassSplit(q, todo, [], n, false);
  }

  lemma LargestPage()
    ensures MAX_LIST_LIMIT > 0 && PageSize(MAX_LIST_LIMIT) == MAX_LIST_LIMIT
  {
  }

  /** An object whose matches fit the largest page is listed completely by prefix, at every
      page size, if and only if its matches are contiguous. */
  lemma CompleteAtEverySizeIff(s: Store, q: Query, cursor: Option<Bytes>)
    requires Parseable(s) && (cursor.Some? ==> |cursor.value| < MAX_LEN)
    requires Short(Todo(s, q.id, cursor)) && AllEntries(q, Todo(s, q.id, cursor))
    requires |Matching(q, Todo(s, q.id, cursor))| < MAX_LIST_LIMIT
    ensures (forall limit: nat | limit > 0 :: Chained(s, q, limit, cursor).0 == Matching(q, Todo(s, q.id, cursor)))
       <==> Contiguous(q, Todo(s, q.id, cursor))
  {
    var todo := Todo(s, q.id, cursor);
    var n := MAX_LIST_LIMIT;
    LargestPage();
    hide *;
    ChainedOnce(s, q, n, cursor);
    PageIsNotFull(q, todo, n);
    NoReport(s, q, n, cursor);
    CompleteIffContiguous(q, todo, n);
    if Contiguous(q, todo) {
      forall limit: nat | limit > 0 ensures Chained(s, q, limit, cursor).0 == Matching(q, todo) {
        ContiguousChain(s, q, limit, cursor);
      }
    }
  }

  lemma FirstOfOne(s: Store, q: Query, h: Pair, misses: seq<Pair>, h': Pair)
    requires Parseable(s) && Gap(q, h, misses, h') && Todo(s, q.id, None) == [h] + (misses + [h'])
    ensures |misses| < 16 ==> Chained(s, q, 1, None).0 == [EntryOf(q, h)]
    ensures |misses| >= 16 ==>
              && |h.0| < MAX_LEN && Todo(s, q.id, Some(h.0)) == misses + [h']
              && Chained(s, q, 1, None).0 == [EntryOf(q, h)] + Chained(s, q, 1, Some(h.0)).0
  {
    assert LIST_SCAN_SLACK == 16;
    hide *;
    PageOfOne(1);
    var rest := misses + [h'];
    GapFacts(q, h, misses, h');
    assert Short(rest) by { GapMatches(q, h, misses, h'); }
    HitThen(q, h, rest, 1);
    ChainedOnce(s, q, 1, None);
    ReportsFresh(s, q, 1, [h] + rest);
    FirstPageReports(q, h, misses, h');
  }

  lemma SecondOfOne(s: Store, q: Query, k: Bytes, rest: seq<Pair>)
    requires Parseable(s) && |k| < MAX_LEN && Todo(s, q.id, Some(k)) == rest && Short(rest)
    requires Pass(q, rest, 1, false).rest == []
    ensures Chained(s, q, 1, Some(k)).0 == Pass(q, rest, 1, false).entries
  {
    hide *;
    PageOfOne(1);
    ChainedOnce(s, q, 1, Some(k));
    NoReport(s, q, 1, Some(k));
  }

  lemma PagesOfOne(s: Store, q: Query, h: Pair, misses: seq<Pair>, h': Pair)
    requires Parseable(s) && Gap(q, h, misses, h') && Todo(s, q.id, None) == [h] + (misses + [h'])
    ensures Chained(s, q, 1, None).0
            == if |misses| >= 16 then [EntryOf(q, h), EntryOf(q, h')] else [EntryOf(q, h)]
  {
    hide *;
    GapFacts(q, h, misses, h');
    FirstOfOne(s, q, h, misses, h');
    if |misses| >= 16 {
      GapMatches(q, h, misses, h');
      SecondOfOne(s, q, h.0, misses + [h']);
      assert [EntryOf(q, h)] + [EntryOf(q, h')] == [EntryOf(q, h), EntryOf(q, h')];
    }
  }

  lemma LargerPages(s: Store, q: Query, h: Pair, misses: seq<Pair>, h': Pair, limit: nat)
    requires Parseable(s) && Gap(q, h, misses, h') && Todo(s, q.id, None) == [h] + (misses + [h'])
    requires limit > 1
    ensures Chained(s, q, limit, None).0 == [EntryOf(q, h)]
  {
    hide *;
    PageOfOne(limit);
    GapFacts(q, h, misses, h');
    GapMatches(q, h, misses, h');
    ChainedOnce(s, q, limit, None);
    ReportsFresh(s, q, limit, [h] + (misses + [h']));
    HitThen(q, h, misses + [h'], PageSize(limit));
    NoReport(s, q, limit, None);
  }

  /** Two runs of matches, one entry each, with a gap of other entries between them. Pages of
      two or more always lose the second run. Pages of one lose it if and only if the gap is
      shorter than the slack with which chunks are read. */
  lemma GapOutcomes(s: Store, q: Query, h: Pair, misses: seq<Pair>, h': Pair, limit: nat)
    requires Parseable(s) && Gap(q, h, misses, h') && limit > 0
    requires Todo(s, q.id, None) == [h] + (misses + [h'])
    ensures Short(Todo(s, q.id, None))
    ensures Matching(q, Todo(s, q.id, None)) == [EntryOf(q, h), EntryOf(q, h')]
    ensures Chained(s, q, limit, None).0
            == if limit == 1 && |misses| >= 16 then [EntryOf(q, h), EntryOf(q, h')] else [EntryOf(q, h)]
  {
    hide *;
    GapFacts(q, h, misses, h');
    GapMatches(q, h, misses, h');
    if limit == 1 {
      PagesOfOne(s, q, h, misses, h');
    } else {
      LargerPages(s, q, h, misses, h', limit);
    }
  }

  // ----- such stores exist -----

  /** The entry keys "a", then `n` one-byte keys from "b" on, then "aa". */
  function KeyAt(n: nat, i: nat): (k: Bytes)
    requires n <= 29 && i < n + 2
    ensures |k| <= 2 && forall j | 0 <= j < |k| :: k[j] < 0x80
  {
    if i <= n then [97 + i] else [97, 97]
  }

  function RawAt(id: Bytes, n: nat, i: nat): (raw: Bytes)
    requires n <= 29 && i < n + 2
  {
    BuildKey(id, StringEntry(KeyAt(n, i)))
  }

  function GapPairs(id: Bytes, n: nat): (pairs: seq<Pair>)
    requires n <= 29
    ensures |pairs| == n + 2
  {
    seq(n + 2, (i: nat) requires i < n + 2 => (RawAt(id, n, i), []))
  }

  function GapStore(id: Bytes, n: nat): (s: Store)
    requires n <= 29
  {
    map i | 0 <= i < n + 2 :: RawAt(id, n, i) := []
  }

  lemma KeysInOrder(id: Bytes, n: nat, i: nat, j: nat)
    requires n <= 29 && i < j < n + 2
    ensures Less(RawAt(id, n, i), RawAt(id, n, j))
  {
    hide BuildKey;
    ShortEntriesShortlex(id, KeyAt(n, i), KeyAt(n, j));
    if j <= n {
      assert LessAt([97 + i], [97 + j], 0);
    }
  }

  lemma RawInRange(id: Bytes, n: nat, i: nat)
    requires n <= 29 && i < n + 2
    ensures Within(RawAt(id, n, i), StartKey(id, None), Some(BlockEnd(id)))
  {
    hide BuildKey, Less, KeyAt;
    var raw := RawAt(id, n, i);
    EmptyEntryFirst(id, StringEntry(KeyAt(n, i)));
    BlockIsRange(id, raw);
  }

  lemma GapAscends(id: Bytes, n: nat)
    requires n <= 29
    ensures Ascending(GapPairs(id, n))
  {
    hide Less, RawAt;
    var pairs := GapPairs(id, n);
    forall i, j | 0 <= i < j < n + 2 ensures Less(pairs[i].0, pairs[j].0) {
      KeysInOrder(id, n, i, j);
    }
  }

  /** The store and the pairs have the same contents. */
  lemma GapContents(id: Bytes, n: nat)
    requires n <= 29
    ensures var s, pairs := GapStore(id, n), GapPairs(id, n);
            && (forall i | 0 <= i < |pairs| :: pairs[i].0 in s && pairs[i].1 == s[pairs[i].0])
            && (forall k | k in s :: (k, s[k]) in pairs)
  {
    hide RawAt;
    var s, pairs := GapStore(id, n), GapPairs(id, n);
    forall k | k in s ensures (k, s[k]) in pairs {
      var i :| 0 <= i < n + 2 && k == RawAt(id, n, i);
      assert pairs[i] == (k, []);
    }
  }

  lemma GapWithin(id: Bytes, n: nat)
    requires n <= 29
    ensures forall i | 0 <= i < n + 2 :: Within(GapPairs(id, n)[i].0, StartKey(id, None), Some(BlockEnd(id)))
  {
    hide RawAt, Within, StartKey, BlockEnd;
    forall i | 0 <= i < n + 2 ensures Within(GapPairs(id, n)[i].0, StartKey(id, None), Some(BlockEnd(id))) {
      RawInRange(id, n, i);
    }
  }

  lemma GapStoreScans(id: Bytes, n: nat)
    requires n <= 29
    ensures Scan(GapStore(id, n), StartKey(id, None), Some(BlockEnd(id))) == GapPairs(id, n)
  {
    var s, pairs, lo, hi := GapStore(id, n), GapPairs(id, n), StartKey(id, None), Some(BlockEnd(id));
    GapAscends(id, n);
    GapContents(id, n);
    GapWithin(id, n);
    hide Less, Scan, StartKey, BlockEnd, GapStore, GapPairs, Ascending, Within;
    assert Lists(pairs, s, lo, hi);
    ListsUnique(Scan(s, lo, hi), pairs, s, lo, hi);
  }

  lemma GapStoreParses(id: Bytes, n: nat, q: Query)
    requires n <= 29 && IsId(id) && |id| < 1000 && q.id == id
    ensures Parseable(GapStore(id, n))
    ensures forall i | 0 <= i < n + 2 :: |RawAt(id, n, i)| < MAX_LEN && KeyOf(q, RawAt(id, n, i)) == Some(KeyAt(n, i))
  {
    hide Parse, BuildKey, KeyAt, KeyOf, IsId;
    forall i | 0 <= i < n + 2
      ensures |RawAt(id, n, i)| < MAX_LEN && KeyOf(q, RawAt(id, n, i)) == Some(KeyAt(n, i)) && Parse(RawAt(id, n, i)).Match?
    {
      KeyReads(q, KeyAt(n, i));
    }
  }

  lemma ByFirstByte(q: Query, raw: Bytes, key: Bytes)
    requires |raw| < MAX_LEN && KeyOf(q, raw) == Some(key) && key != []
    requires q.prefix == Some([97]) && q.decode([]).Some?
    ensures key[0] == 97 ==> Taken(q, (raw, []))
    ensures key[0] != 97 ==> Miss(q, raw)
  {
    hide KeyOf;
    assert key[0] == 97 ==> [97] <= key by { assert key[0] == 97 ==> key == [97] + key[1..]; }
  }

  lemma GapHolds(q: Query, id: Bytes, n: nat)
    requires 0 < n <= 29 && q.prefix == Some([97]) && q.decode([]).Some?
    requires forall i | 0 <= i < n + 2 :: |RawAt(id, n, i)| < MAX_LEN && KeyOf(q, RawAt(id, n, i)) == Some(KeyAt(n, i))
    ensures var pairs := GapPairs(id, n); Gap(q, pairs[0], pairs[1..n + 1], pairs[n + 1])
  {
    hide RawAt, KeyOf, Taken, Miss;
    var pairs := GapPairs(id, n);
    ByFirstByte(q, RawAt(id, n, 0), KeyAt(n, 0));
    ByFirstByte(q, RawAt(id, n, n + 1), KeyAt(n, n + 1));
    var misses := pairs[1..n + 1];
    forall i | 0 <= i < n ensures |misses[i].0| < MAX_LEN && Miss(q, misses[i].0) {
      ByFirstByte(q, RawAt(id, n, i + 1), KeyAt(n, i + 1));
    }
  }

  /** For every length of the gap up to 29, both sides of the slack, there is such a store. */
  lemma GapExists(id: Bytes, n: nat) returns (s: Store, q: Query, h: Pair, misses: seq<Pair>, h': Pair)
    requires IsId(id) && |id| < 1000 && 0 < n <= 29
    ensures Parseable(s) && Gap(q, h, misses, h') && |misses| == n
    ensures Todo(s, q.id, None) == [h] + (misses + [h'])
  {
    hide *;
    q := Query(id, Some([97]), (v: Bytes) => Some(v));
    s := GapStore(id, n);
    var pairs := GapPairs(id, n);
    GapStoreParses(id, n, q);
    GapStoreScans(id, n);
    FreshScan(s, q);
    GapHolds(q, id, n);
    h, misses, h' := pairs[0], pairs[1..n + 1], pairs[n + 1];
    assert pairs == [h] + (misses + [h']);
  }
}
