/** What the pages of an entry listing contain, taken together. */
module EntryListProof {
  import opened Bytes
  import opened Collections
  import opened StorageKey
  import opened KeySpace
  import opened OrderedStore
  import opened ObjectGrid
  import opened EntryList
  import Paging

  /** The reference: every matching entry with a readable value, in order. */
  function Matching(q: Query, todo: seq<Pair>): (entries: seq<Entry>)
    requires Short(todo)
    decreases |todo|
  {
    if todo == [] then []
    else if Taken(q, todo[0]) then [EntryOf(q, todo[0])] + Matching(q, todo[1..])
    else Matching(q, todo[1..])
  }

  predicate Taken(q: Query, p: Pair)
    requires |p.0| < MAX_LEN
  {
    Hit(q, p.0) && q.decode(p.1).Some?
  }

  function EntryOf(q: Query, p: Pair): (e: Entry)
    requires |p.0| < MAX_LEN && Taken(q, p)
  {
    (KeyOf(q, p.0).value, q.decode(p.1).value)
  }

  /** No entry that fails the prefix lies between two that pass it. */
  ghost predicate Contiguous(q: Query, todo: seq<Pair>)
    requires Short(todo)
  {
    forall i, j, l :: 0 <= i < j < l < |todo| && Hit(q, todo[i].0) && Miss(q, todo[j].0) ==> !Taken(q, todo[l])
  }

  /** The same with the pass's own state: once an entry was seen, none is taken
      after a failing one. */
  ghost predicate OneRun(q: Query, todo: seq<Pair>, seen: bool)
    requires Short(todo)
  {
    && Contiguous(q, todo)
    && (seen ==> forall j, l :: 0 <= j < l < |todo| && Miss(q, todo[j].0) ==> !Taken(q, todo[l]))
  }

  lemma OneRunTail(q: Query, todo: seq<Pair>, seen: bool)
    requires Short(todo) && todo != []
    ensures OneRun(q, todo, seen) && !(seen && Miss(q, todo[0].0)) ==>
              OneRun(q, todo[1..], seen || Hit(q, todo[0].0))
    ensures OneRun(q, todo[1..], seen || Hit(q, todo[0].0)) && !(seen && Miss(q, todo[0].0)) ==> OneRun(q, todo, seen)
    ensures OneRun(q, todo, seen) && seen && Miss(q, todo[0].0) ==> Matching(q, todo[1..]) == []
    ensures seen && Miss(q, todo[0].0) && Matching(q, todo[1..]) == [] ==> OneRun(q, todo, seen)
  {
    hide Hit, Miss, Taken, KeyOf;
    var rest := todo[1..];
    assert forall i :: 0 < i < |todo| ==> todo[i] == rest[i-1];
    assert forall i :: 0 <= i < |rest| ==> rest[i] == todo[i+1];
    HitOrMiss(q, todo[0].0);
    NothingTaken(q, rest);
  }

  lemma HitOrMiss(q: Query, raw: Bytes)
    requires |raw| < MAX_LEN
    ensures !(Hit(q, raw) && Miss(q, raw))
  {
  }

  lemma {:induction false} NothingTaken(q: Query, todo: seq<Pair>)
    requires Short(todo)
    ensures Matching(q, todo) == [] <==> forall i :: 0 <= i < |todo| ==> !Taken(q, todo[i])
    decreases |todo|
  {
    hide Taken;
    if todo != [] {
      NothingTaken(q, todo[1..]);
      assert forall i :: 0 < i < |todo| ==> todo[i] == todo[1..][i-1];
    }
  }

  // ----- one page -----

  function Head(s: seq<Entry>, n: nat): (t: seq<Entry>) {
    if |s| <= n then s else s[..n]
  }

  ghost predicate PageComplete(q: Query, todo: seq<Pair>, n: nat, o: Outcome)
    requires Short(todo)
  {
    && o.entries == Head(Matching(q, todo), n)
    && (o.stop == Full <==> |Matching(q, todo)| >= n)
  }

  lemma {:induction false} PassComplete(q: Query, todo: seq<Pair>, n: nat, seen: bool)
    requires n > 0 && Short(todo) && OneRun(q, todo, seen)
    ensures PageComplete(q, todo, n, Pass(q, todo, n, seen))
    decreases |todo|
  {
    hide Hit, Miss, KeyOf, OneRun;
    if todo != [] {
      OneRunTail(q, todo, seen);
      HitOrMiss(q, todo[0].0);
      if !(seen && Miss(q, todo[0].0)) {
        var seen' := seen || Hit(q, todo[0].0);
        PassComplete(q, todo[1..], n, seen');
        if n > 1 && Taken(q, todo[0]) {
          PassComplete(q, todo[1..], n - 1, seen');
        }
      }
    }
  }

  /** If the failing entries do split the matching ones, a pass over more room than
      there are matches returns fewer than all. */
  lemma {:induction false} PassLosesEntries(q: Query, todo: seq<Pair>, n: nat, seen: bool)
    requires Short(todo) && n > |Matching(q, todo)|
    ensures |Pass(q, todo, n, seen).entries| <= |Matching(q, todo)|
    ensures !OneRun(q, todo, seen) ==> |Pass(q, todo, n, seen).entries| < |Matching(q, todo)|
    decreases |todo|
  {
    hide Hit, Miss, KeyOf, OneRun;
    if todo != [] {
      OneRunTail(q, todo, seen);
      HitOrMiss(q, todo[0].0);
      if !(seen && Miss(q, todo[0].0)) {
        var seen' := seen || Hit(q, todo[0].0);
        if Taken(q, todo[0]) {
          PassLosesEntries(q, todo[1..], n - 1, seen');
        } else {
          PassLosesEntries(q, todo[1..], n, seen');
        }
      }
    } else {
      EmptyOneRun(q, seen);
    }
  }

  lemma EmptyOneRun(q: Query, seen: bool)
    ensures OneRun(q, [], seen)
  {
  }

  /** A page with more room than there are matches holds all of them exactly when
      the matching entries are contiguous in storage order. */
  lemma CompleteIffContiguous(q: Query, todo: seq<Pair>, n: nat)
    requires Short(todo) && n > |Matching(q, todo)|
    ensures Pass(q, todo, n, false).entries == Matching(q, todo) <==> Contiguous(q, todo)
  {
    hide Pass, Matching, Contiguous;
    NotSeen(q, todo);
    if Contiguous(q, todo) {
      PassComplete(q, todo, n, false);
    } else {
      PassLosesEntries(q, todo, n, false);
    }
  }

  lemma NotSeen(q: Query, todo: seq<Pair>)
    requires Short(todo)
    ensures OneRun(q, todo, false) <==> Contiguous(q, todo)
  {
  }

  /** Without a prefix nothing fails, so every listing is complete. */
  lemma NoPrefixContiguous(q: Query, todo: seq<Pair>)
    requires Short(todo) && q.prefix.None?
    ensures Contiguous(q, todo)
  {
  }

  // ----- where a full page ends -----

  /** `i` is the place of the last entry of a full page, and the rest follows it. */
  ghost predicate EndsAt(q: Query, todo: seq<Pair>, o: Outcome, i: nat)
    requires Short(todo)
  {
    && i < |todo| && Taken(q, todo[i]) && o.last == Some(todo[i].0) && o.rest == todo[i+1..]
  }

  lemma {:induction false} FullPageEnd(q: Query, todo: seq<Pair>, n: nat, seen: bool) returns (i: nat)
    requires n > 0 && Short(todo) && Pass(q, todo, n, seen).stop == Full
    ensures EndsAt(q, todo, Pass(q, todo, n, seen), i)
    decreases |todo|
  {
    hide Hit, Miss, KeyOf;
    if Hit(q, todo[0].0) && !Miss(q, todo[0].0) && q.decode(todo[0].1).Some? && n == 1 {
      i := 0;
    } else {
      var seen' := seen || (Hit(q, todo[0].0) && !Miss(q, todo[0].0));
      var n' := if Taken(q, todo[0]) && !Miss(q, todo[0].0) then n - 1 else n;
      i := FullPageEnd(q, todo[1..], n', seen');
      assert todo[1..][i] == todo[i+1] && todo[1..][i+1..] == todo[i+2..];
      i := i + 1;
    }
  }

  /** A full page is a head of the matches, and the pairs left hold the others. */
  lemma FullPageSplits(q: Query, todo: seq<Pair>, n: nat)
    requires n > 0 && Short(todo) && Contiguous(q, todo) && Pass(q, todo, n, false).stop == Full
    ensures var o := Pass(q, todo, n, false);
            && Short(o.rest) && Matching(q, todo) == o.entries + Matching(q, o.rest)
            && Contiguous(q, o.rest)
            && (o.rest != [] && Miss(q, o.rest[0].0) ==> Matching(q, o.rest) == [])
  {
    hide Pass, Matching, Hit, Miss, Taken, Contiguous;
    PassReturnsPrefix(q, todo, n, false);
    var i := FullPageEnd(q, todo, n, false);
    RestAfter(q, todo, i);
  }

  /** Whatever ends a pass, it has taken the first of the matches, and the others are among
      the pairs it leaves. */
  lemma {:induction false} PassReturnsPrefix(q: Query, todo: seq<Pair>, n: nat, seen: bool)
    requires n > 0 && Short(todo)
    ensures var o := Pass(q, todo, n, seen);
            Short(o.rest) && Matching(q, todo) == o.entries + Matching(q, o.rest)
    decreases |todo|
  {
    hide Hit, Miss, KeyOf;
    if todo != [] {
      var p, tail := todo[0], todo[1..];
      HitOrMiss(q, p.0);
      if Miss(q, p.0) {
        PassReturnsPrefix(q, tail, n, false);
      } else if Taken(q, p) {
        if n > 1 {
          PassReturnsPrefix(q, tail, n - 1, true);
          var o := Pass(q, tail, n - 1, true);
          assert [EntryOf(q, p)] + (o.entries + Matching(q, o.rest)) == [EntryOf(q, p)] + o.entries + Matching(q, o.rest);
        }
      } else {
        PassReturnsPrefix(q, tail, n, seen || Hit(q, p.0));
      }
    }
  }

  lemma RestAfter(q: Query, todo: seq<Pair>, i: nat)
    requires Short(todo) && Contiguous(q, todo) && i < |todo| && Taken(q, todo[i])
    ensures var rest := todo[i+1..];
            && Short(rest) && Contiguous(q, rest)
            && (rest != [] && Miss(q, rest[0].0) ==> Matching(q, rest) == [])
  {
    hide Hit, Miss, Taken;
    var rest := todo[i+1..];
    assert forall j :: 0 <= j < |rest| ==> rest[j] == todo[i + 1 + j];
    NothingTaken(q, rest);
    TakenIsHit(q, todo[i]);
    if rest != [] && Miss(q, rest[0].0) {
      HitOrMiss(q, rest[0].0);
      if Taken(q, rest[0]) {
        TakenIsHit(q, rest[0]);
      }
    }
  }

  lemma TakenIsHit(q: Query, p: Pair)
    requires |p.0| < MAX_LEN && Taken(q, p)
    ensures Hit(q, p.0)
  {
  }

  // ----- following the cursors -----

  /** Resuming from a full page's cursor continues with exactly the pairs left. */
  lemma ResumeContinues(s: Store, q: Query, cursor: Option<Bytes>, n: nat)
    requires n > 0 && Parseable(s) && (cursor.Some? ==> |cursor.value| < MAX_LEN)
    requires Short(Todo(s, q.id, cursor)) && Pass(q, Todo(s, q.id, cursor), n, false).stop == Full
    ensures var o := Pass(q, Todo(s, q.id, cursor), n, false);
            o.last.Some? && |o.last.value| < MAX_LEN && Todo(s, q.id, o.last) == o.rest
  {
    hide Pass, Scan, Parseable, BuildKey;
    var todo := Todo(s, q.id, cursor);
    var i := FullPageEnd(q, todo, n, false);
    var start, end := StartKey(q.id, cursor), BlockEnd(q.id);
    var all := Scan(s, start, Some(end));
    var k := if todo == all then i else i + 1;
    assert all[k] == todo[i];
    Paging.ScanTail(s, start, end, k);
    assert all[k..][0] == todo[i] && all[k..][1..] == todo[i+1..];
    assert StartKey(q.id, Some(todo[i].0)) == todo[i].0;
  }

  /** All pairs of the listing range are entries of the object. */
  ghost predicate AllEntries(q: Query, todo: seq<Pair>)
    requires Short(todo)
  {
    forall i :: 0 <= i < |todo| ==> KeyOf(q, todo[i].0).Some?
  }

  /** A chain of pages, each call resuming from the previous cursor, to the end. */
  ghost predicate Chain(s: Store, q: Query, limit: nat, cursor: Option<Bytes>, pages: seq<seq<Entry>>)
    requires limit > 0 && (cursor.Some? ==> |cursor.value| < MAX_LEN)
    decreases |pages|
  {
    && pages != []
    && exists next: Option<Bytes> :: IsPage(s, q, limit, cursor, pages, next)
  }

  ghost predicate IsPage(s: Store, q: Query, limit: nat, cursor: Option<Bytes>, pages: seq<seq<Entry>>, next: Option<Bytes>)
    requires limit > 0 && (cursor.Some? ==> |cursor.value| < MAX_LEN) && pages != []
    decreases |pages|, 0
  {
    && (next.Some? ==> |next.value| < MAX_LEN)
    && Listed(s, q, limit, cursor, pages[0], next)
    && (if next.Some? then Chain(s, q, limit, next, pages[1..]) else |pages| == 1)
  }

  function Concat(pages: seq<seq<Entry>>): (entries: seq<Entry>) {
    if pages == [] then [] else pages[0] + Concat(pages[1..])
  }

  /** Pages of a contiguous listing, put together, are all the matches in order. */
  lemma {:induction false} ChainComplete(s: Store, q: Query, limit: nat, cursor: Option<Bytes>, pages: seq<seq<Entry>>)
    requires limit > 0 && Parseable(s) && (cursor.Some? ==> |cursor.value| < MAX_LEN)
    requires Chain(s, q, limit, cursor, pages)
    requires Short(Todo(s, q.id, cursor)) && Contiguous(q, Todo(s, q.id, cursor))
    requires q.prefix.Some? ==> AllEntries(q, Todo(s, q.id, cursor))
    ensures Concat(pages) == Matching(q, Todo(s, q.id, cursor))
    decreases |pages|
  {
    hide Pass, Matching, Contiguous, Todo, Scan, Parseable, Hit, Miss, KeyOf;
    var next: Option<Bytes> :| IsPage(s, q, limit, cursor, pages, next);
    var todo := Todo(s, q.id, cursor);
    var n := PageSize(limit);
    PageSizePositive(limit);
    var o := Pass(q, todo, n, false);
    ListedMeans(s, q, limit, cursor, pages[0], next);
    hide Reports;
    if o.stop == Full {
      FullPageSplits(q, todo, n);
      ResumeContinues(s, q, cursor, n);
      RestEntries(q, todo, n);
      if next.Some? {
        ChainComplete(s, q, limit, next, pages[1..]);
      } else {
        LastPage(q, o.rest);
        assert pages[1..] == [];
      }
    } else {
      NotSeen(q, todo);
      PassComplete(q, todo, n, false);
      assert pages[1..] == [] && pages[0] + [] == pages[0];
    }
  }

  /** A page of a contiguous listing is the first of the matches, as many as the limit and
      1024 allow. */
  lemma PageIsFirst(s: Store, q: Query, limit: nat, cursor: Option<Bytes>, entries: seq<Entry>, next: Option<Bytes>)
    requires limit > 0 && (cursor.Some? ==> |cursor.value| < MAX_LEN)
    requires Listed(s, q, limit, cursor, entries, next)
    requires Short(Todo(s, q.id, cursor)) && Contiguous(q, Todo(s, q.id, cursor))
    ensures var all := Matching(q, Todo(s, q.id, cursor)); entries == all[..Min(Min(limit, 1024), |all|)]
  {
    assert PageSize(limit) == Min(limit, 1024);
    hide Pass, Matching, Contiguous, Todo, Reports, PageSize;
    ListedMeans(s, q, limit, cursor, entries, next);
    NotSeen(q, Todo(s, q.id, cursor));
    PassComplete(q, Todo(s, q.id, cursor), PageSize(limit), false);
  }

  // ----- what a chain returns, contiguous or not -----

  /** The entries of all pages from a cursor on, and the pairs that the last page leaves. */
  ghost function Chained(s: Store, q: Query, limit: nat, cursor: Option<Bytes>): (r: (seq<Entry>, seq<Pair>))
    requires limit > 0 && Parseable(s) && (cursor.Some? ==> |cursor.value| < MAX_LEN)
    ensures Short(r.1)
    decreases |Todo(s, q.id, cursor)|
  {
    TodoShort(s, q.id, cursor);
    ScanShort(s, StartKey(q.id, cursor), BlockEnd(q.id));
    PageSizePositive(limit);
    PassReturnsPrefix(q, Todo(s, q.id, cursor), PageSize(limit), false);
    var o := Pass(q, Todo(s, q.id, cursor), PageSize(limit), false);
    if Reports(s, q, limit, cursor) then
      ReportsResumes(s, q, limit, cursor);
      var (entries, left) := Chained(s, q, limit, o.last);
      (o.entries + entries, left)
    else (o.entries, o.rest)
  }

  lemma ReportsResumes(s: Store, q: Query, limit: nat, cursor: Option<Bytes>)
    requires limit > 0 && Parseable(s) && (cursor.Some? ==> |cursor.value| < MAX_LEN)
    requires Short(Scan(s, StartKey(q.id, cursor), Some(BlockEnd(q.id)))) && Short(Todo(s, q.id, cursor))
    requires Reports(s, q, limit, cursor)
    ensures PageSize(limit) > 0
    ensures var o := Pass(q, Todo(s, q.id, cursor), PageSize(limit), false);
            && o.stop == Full && o.last.Some? && |o.last.value| < MAX_LEN
            && Todo(s, q.id, o.last) == o.rest && |o.rest| < |Todo(s, q.id, cursor)|
  {
    hide *;
    PageSizePositive(limit);
    var n := PageSize(limit);
    var o := Pass(q, Todo(s, q.id, cursor), n, false);
    ListedIs(s, q, limit, cursor, o);
    ListedMeans(s, q, limit, cursor, o.entries, o.last);
    ResumeContinues(s, q, cursor, n);
    var i := FullPageEnd(q, Todo(s, q.id, cursor), n, false);
    EndIsShorter(q, Todo(s, q.id, cursor), o, i);
  }

  lemma EndIsShorter(q: Query, todo: seq<Pair>, o: Outcome, i: nat)
    requires Short(todo) && EndsAt(q, todo, o, i)
    ensures |o.rest| < |todo|
  {
    hide Taken;
  }

  lemma ListedIs(s: Store, q: Query, limit: nat, cursor: Option<Bytes>, o: Outcome)
    requires limit > 0 && (cursor.Some? ==> |cursor.value| < MAX_LEN) && PageSize(limit) > 0
    requires Short(Scan(s, StartKey(q.id, cursor), Some(BlockEnd(q.id)))) && Short(Todo(s, q.id, cursor))
    requires o == Pass(q, Todo(s, q.id, cursor), PageSize(limit), false)
    ensures Listed(s, q, limit, cursor, o.entries, if Reports(s, q, limit, cursor) then o.last else None)
  {
    hide Pass, Todo, Reports, Scan;
  }

  /** Following the cursors gives the entries of `Chained`. */
  lemma {:induction false} ChainIsChained(s: Store, q: Query, limit: nat, cursor: Option<Bytes>, pages: seq<seq<Entry>>)
    requires limit > 0 && Parseable(s) && (cursor.Some? ==> |cursor.value| < MAX_LEN)
    requires Chain(s, q, limit, cursor, pages)
    ensures Concat(pages) == Chained(s, q, limit, cursor).0
    decreases |pages|
  {
    hide Pass, Todo, Scan, Parseable, Reports, StartKey, BlockEnd;
    var next: Option<Bytes> :| IsPage(s, q, limit, cursor, pages, next);
    ListedMeans(s, q, limit, cursor, pages[0], next);
    if next.Some? {
      ChainIsChained(s, q, limit, next, pages[1..]);
    } else {
      assert pages[1..] == [] && pages[0] + [] == pages[0];
    }
  }

  /** A chain of pages returns the first of the matches, in order and with none left out; the
      others, exactly, are among the pairs that its last page leaves. So it is complete if and
      only if that page leaves no match. */
  lemma {:induction false} ChainReturnsPrefix(s: Store, q: Query, limit: nat, cursor: Option<Bytes>)
    requires limit > 0 && Parseable(s) && (cursor.Some? ==> |cursor.value| < MAX_LEN)
    ensures Short(Todo(s, q.id, cursor))
    ensures var (entries, left) := Chained(s, q, limit, cursor);
            && Matching(q, Todo(s, q.id, cursor)) == entries + Matching(q, left)
            && (entries == Matching(q, Todo(s, q.id, cursor)) <==> Matching(q, left) == [])
    decreases |Todo(s, q.id, cursor)|
  {
    hide Pass, Matching, Todo, Scan, Parseable, Reports, StartKey, BlockEnd;
    TodoShort(s, q.id, cursor);
    ScanShort(s, StartKey(q.id, cursor), BlockEnd(q.id));
    PageSizePositive(limit);
    var todo := Todo(s, q.id, cursor);
    PassReturnsPrefix(q, todo, PageSize(limit), false);
    var o := Pass(q, todo, PageSize(limit), false);
    if Reports(s, q, limit, cursor) {
      ReportsResumes(s, q, limit, cursor);
      ChainReturnsPrefix(s, q, limit, o.last);
      var (entries, left) := Chained(s, q, limit, o.last);
      assert o.entries + (entries + Matching(q, left)) == o.entries + entries + Matching(q, left);
    }
    var (entries, left) := Chained(s, q, limit, cursor);
    PrefixIsAll(entries, Matching(q, left), Matching(q, todo));
  }

  lemma PrefixIsAll(a: seq<Entry>, b: seq<Entry>, all: seq<Entry>)
    requires all == a + b
    ensures a == all <==> b == []
  {
    if b != [] { assert |all| > |a|; }
  }

  lemma RestEntries(q: Query, todo: seq<Pair>, n: nat)
    requires n > 0 && Short(todo) && Pass(q, todo, n, false).stop == Full && Short(Pass(q, todo, n, false).rest)
    ensures AllEntries(q, todo) ==> AllEntries(q, Pass(q, todo, n, false).rest)
  {
    hide Pass, KeyOf;
    var i := FullPageEnd(q, todo, n, false);
  }

  lemma LastPage(q: Query, rest: seq<Pair>)
    requires Short(rest) && MoreIsRight(q, rest, false)
    requires q.prefix.Some? ==> AllEntries(q, rest)
    requires rest != [] && Miss(q, rest[0].0) ==> Matching(q, rest) == []
    ensures Matching(q, rest) == []
  {
    hide KeyOf;
  }

  // ----- counting -----

  /** Counts by following the pages to the end. */
  method CountEntries(s: Store, q: Query) returns (total: nat)
    requires Parseable(s) && q.prefix.None?
    ensures Short(Todo(s, q.id, None)) && total == |Matching(q, Todo(s, q.id, None))|
  {
    assert MAX_LIST_LIMIT > 0;
    hide *;
    total := 0;
    var cursor: Option<Bytes> := None;
    TodoShort(s, q.id, None);
    while true
      invariant cursor.Some? ==> |cursor.value| < MAX_LEN && !Parse(cursor.value).Fault?
      invariant Short(Todo(s, q.id, cursor))
      invariant total + |Matching(q, Todo(s, q.id, cursor))| == |Matching(q, Todo(s, q.id, None))|
      decreases |Todo(s, q.id, cursor)|
    {
      var page, next := ListEntries(s, q, MAX_LIST_LIMIT, cursor);
      PageCounts(s, q, cursor, page, next);
      total := total + |page|;
      if next.None? {
        break;
      }
      cursor := next;
    }
  }

  lemma TodoShort(s: Store, id: Bytes, cursor: Option<Bytes>)
    requires Parseable(s) && (cursor.Some? ==> |cursor.value| < MAX_LEN)
    ensures Short(Todo(s, id, cursor))
  {
    hide Parse, BuildKey, Scan, Parseable;
    ScanShort(s, StartKey(id, cursor), BlockEnd(id));
    SkipShort(Scan(s, StartKey(id, cursor), Some(BlockEnd(id))), StartKey(id, cursor), cursor);
  }

  lemma PageCounts(s: Store, q: Query, cursor: Option<Bytes>, page: seq<Entry>, next: Option<Bytes>)
    requires Parseable(s) && q.prefix.None? && (cursor.Some? ==> |cursor.value| < MAX_LEN)
    requires Listed(s, q, MAX_LIST_LIMIT, cursor, page, next) && Short(Todo(s, q.id, cursor))
    ensures next.None? ==> |page| == |Matching(q, Todo(s, q.id, cursor))|
    ensures next.Some? ==>
              && |next.value| < MAX_LEN && !Parse(next.value).Fault?
              && Short(Todo(s, q.id, next)) && |Todo(s, q.id, next)| < |Todo(s, q.id, cursor)|
              && |page| + |Matching(q, Todo(s, q.id, next))| == |Matching(q, Todo(s, q.id, cursor))|
  {
    hide Pass, Matching, Contiguous, Todo, Scan, Parseable, Hit, Miss, Parse;
    var todo := Todo(s, q.id, cursor);
    var n := PageSize(MAX_LIST_LIMIT);
    ListedMeans(s, q, MAX_LIST_LIMIT, cursor, page, next);
    hide Reports;
    NoPrefixContiguous(q, todo);
    NotSeen(q, todo);
    PassComplete(q, todo, n, false);
    if Pass(q, todo, n, false).stop == Full {
      FullPageSplits(q, todo, n);
      ResumeContinues(s, q, cursor, n);
      var i := FullPageEnd(q, todo, n, false);
      LastParses(q, todo, i);
      if next.None? {
        LastPage(q, Pass(q, todo, n, false).rest);
      }
    }
  }

  lemma LastParses(q: Query, todo: seq<Pair>, i: nat)
    requires Short(todo) && i < |todo| && Taken(q, todo[i])
    ensures |todo[i].0| < MAX_LEN && Parse(todo[i].0).Match?
  {
  }

  // ----- listings of a grid -----

  lemma GridParseable(s: Store, g: Grid)
    requires WellFormed(g) && Flattened(s, g)
    ensures Parseable(s)
  {
    hide Parse, BuildKey, ValidUtf8, NulFree;
    forall k | k in s ensures |k| < MAX_LEN && !Parse(k).Fault? {
      assert IsBuilt(k, g);
      var id, r :| (id, r) in g && k == BuildKey(id, r);
      ParseBuilt(id, r, []);
      assert k + [] == k;
    }
  }

  lemma EmptyEntryFirst(id: Bytes, r: Record)
    ensures Leq(BuildKey(id, StringEntry([])), BuildKey(id, r)) <==> r.StringEntry?
  {
    hide BuildKey, Less;
    RecordOrder(id, StringEntry([]), r);
    if r.StringEntry? {
      RecordOrder(id, r, StringEntry([]));
      assert !EntryBefore(r.key, []);
      if r != StringEntry([]) {
        LessTotal(BuildKey(id, StringEntry([])), BuildKey(id, r));
        EmptyKeyDistinct(id, r);
      }
    } else {
      RecordOrder(id, r, StringEntry([]));
      LessAsymmetric(BuildKey(id, r), BuildKey(id, StringEntry([])));
    }
  }

  lemma EmptyKeyDistinct(id: Bytes, r: Record)
    requires r.StringEntry? && r != StringEntry([])
    ensures BuildKey(id, r) != BuildKey(id, StringEntry([]))
  {
    hide Less;
    RecordOrder(id, StringEntry([]), r);
    assert EntryBefore([], r.key);
    LessIrreflexive(BuildKey(id, r));
  }

  /** The pairs of a full listing are exactly the object's entries. */
  lemma TodoOfGrid(s: Store, g: Grid, q: Query)
    requires WellFormed(g) && Flattened(s, g) && IsId(q.id)
    ensures Parseable(s) && Short(Todo(s, q.id, None)) && AllEntries(q, Todo(s, q.id, None))
    ensures forall k, v :: (BuildKey(q.id, StringEntry(k)), v) in Todo(s, q.id, None) <==>
              Has(g, q.id, k, v)
  {
    hide Parse, Scan, Parseable, BuildKey, ValidUtf8, NulFree, WellFormed, Flattened;
    GridParseable(s, g);
    TodoShort(s, q.id, None);
    var todo := Todo(s, q.id, None);
    forall i | 0 <= i < |todo| ensures KeyOf(q, todo[i].0).Some? {
      var k := TodoPair(s, g, q, i);
    }
    forall k, v ensures (BuildKey(q.id, StringEntry(k)), v) in todo <==> Has(g, q.id, k, v) {
      if (BuildKey(q.id, StringEntry(k)), v) in todo {
        var i :| 0 <= i < |todo| && todo[i] == (BuildKey(q.id, StringEntry(k)), v);
        var l := TodoPair(s, g, q, i);
        SameEntryKey(q.id, k, l);
      }
      if Has(g, q.id, k, v) {
        EntryInTodo(s, g, q, k, v);
      }
    }
  }

  ghost predicate Has(g: Grid, id: Bytes, k: Bytes, v: Bytes) {
    (id, StringEntry(k)) in g && g[(id, StringEntry(k))] == v
  }

  lemma SameEntryKey(id: Bytes, k: Bytes, l: Bytes)
    requires BuildKey(id, StringEntry(k)) == BuildKey(id, StringEntry(l))
    ensures k == l
  {
    hide BuildKey;
    RecordOrder(id, StringEntry(k), StringEntry(l));
    RecordOrder(id, StringEntry(l), StringEntry(k));
    LessIrreflexive(BuildKey(id, StringEntry(k)));
    EntriesTotal(k, l);
  }

  lemma EntriesTotal(k: Bytes, l: Bytes)
    requires !EntryBefore(k, l) && !EntryBefore(l, k)
    ensures k == l
  {
    hide Less, SliceLess;
    if |k| == |l| {
      LessTotal(k, l);
    } else {
      LengthsTotal(|k|, |l|);
    }
  }

  lemma {:induction false} LengthsTotal(m: nat, n: nat)
    requires m != n
    ensures LengthBefore(m, n) || LengthBefore(n, m)
    decreases m
  {
    if m >= 0x80 && n >= 0x80 && m % 0x80 == n % 0x80 {
      LengthsTotal(m / 0x80, n / 0x80);
    }
  }

  lemma TodoPair(s: Store, g: Grid, q: Query, i: nat) returns (k: Bytes)
    requires WellFormed(g) && Flattened(s, g) && IsId(q.id) && i < |Todo(s, q.id, None)|
    ensures var p := Todo(s, q.id, None)[i];
            p.0 == BuildKey(q.id, StringEntry(k)) && Has(g, q.id, k, p.1) && |p.0| < MAX_LEN && KeyOf(q, p.0) == Some(k)
  {
    hide Parse, BuildKey, ValidUtf8, NulFree, Less, Scan;
    var (raw, v) := Todo(s, q.id, None)[i];
    assert IsBuilt(raw, g);
    var id, r :| (id, r) in g && raw == BuildKey(id, r);
    EntryRangeInBlock(q.id, raw);
    BlockIsRange(q.id, raw);
    SameBlock(q.id, id, raw);
    EmptyEntryFirst(id, r);
    k := r.key;
    ParseBuilt(id, r, []);
    assert raw + [] == raw;
  }

  lemma EntryRangeInBlock(id: Bytes, raw: Bytes)
    requires Leq(BuildKey(id, StringEntry([])), raw)
    ensures Leq(ObjectPrefix(id), raw)
  {
    hide Less;
    BlockIsRange(id, BuildKey(id, StringEntry([])));
    if ObjectPrefix(id) != BuildKey(id, StringEntry([])) && BuildKey(id, StringEntry([])) != raw {
      LessTransitive(ObjectPrefix(id), BuildKey(id, StringEntry([])), raw);
    }
  }

  lemma EntryInTodo(s: Store, g: Grid, q: Query, k: Bytes, v: Bytes)
    requires Flattened(s, g) && Has(g, q.id, k, v)
    ensures (BuildKey(q.id, StringEntry(k)), v) in Todo(s, q.id, None)
  {
    hide Less, BuildKey;
    var raw := BuildKey(q.id, StringEntry(k));
    BlockIsRange(q.id, raw);
    EmptyEntryFirst(q.id, StringEntry(k));
  }

  /** Listing an object of the grid without prefix, page by page with any page
      size, returns each of its readable entries once, in storage order. */
  lemma ListingIsTheObject(s: Store, g: Grid, q: Query, limit: nat, pages: seq<seq<Entry>>)
    requires WellFormed(g) && Flattened(s, g) && IsId(q.id) && limit > 0
    requires Chain(s, q, limit, None, pages)
    requires q.prefix.None? || (Short(Todo(s, q.id, None)) && Contiguous(q, Todo(s, q.id, None)))
    ensures forall k, v :: (k, v) in Concat(pages) <==> InListing(g, q, k, v)
    ensures forall i, j :: 0 <= i < j < |Concat(pages)| ==> EntryBefore(Concat(pages)[i].0, Concat(pages)[j].0)
  {
    hide *;
    TodoOfGrid(s, g, q);
    var todo := Todo(s, q.id, None);
    if q.prefix.None? {
      NoPrefixContiguous(q, todo);
    }
    ChainComplete(s, q, limit, None, pages);
    MatchingIsListing(s, g, q);
  }

  /** An entry of the object whose key passes the prefix and whose value decodes to `v`. */
  ghost predicate InListing(g: Grid, q: Query, k: Bytes, v: Bytes) {
    && (q.id, StringEntry(k)) in g
    && (q.prefix.Some? ==> q.prefix.value <= k)
    && q.decode(g[(q.id, StringEntry(k))]) == Some(v)
  }

  lemma MatchingIsListing(s: Store, g: Grid, q: Query)
    requires WellFormed(g) && Flattened(s, g) && IsId(q.id) && Short(Todo(s, q.id, None))
    ensures var m := Matching(q, Todo(s, q.id, None));
            && (forall k, v :: (k, v) in m <==> InListing(g, q, k, v))
            && (forall i, j :: 0 <= i < j < |m| ==> EntryBefore(m[i].0, m[j].0))
  {
    hide Parse, BuildKey, ValidUtf8, NulFree, Scan, Flattened, WellFormed, Matching, Todo, EntryBefore, Hit, Miss;
    var todo := Todo(s, q.id, None);
    var m := Matching(q, todo);
    forall k, v ensures (k, v) in m <==> InListing(g, q, k, v) {
      MatchingMember(q, todo, (k, v));
      if (k, v) in m {
        var i :| 0 <= i < |todo| && Taken(q, todo[i]) && EntryOf(q, todo[i]) == (k, v);
        var l := TodoPair(s, g, q, i);
        TakenKey(q, todo[i]);
      }
      if InListing(g, q, k, v) {
        var i := ListingPair(s, g, q, k, v);
      }
    }
    forall i, j | 0 <= i < |todo| && 0 <= j < |todo| && i < j && Taken(q, todo[i]) && Taken(q, todo[j])
      ensures EntryBefore(EntryOf(q, todo[i]).0, EntryOf(q, todo[j]).0)
    {
      PairsInOrder(s, g, q, i, j);
    }
    MatchingOrdered(q, todo);
  }

  lemma TakenKey(q: Query, p: Pair)
    requires |p.0| < MAX_LEN && Taken(q, p)
    ensures EntryOf(q, p).0 == KeyOf(q, p.0).value
    ensures q.prefix.Some? ==> q.prefix.value <= KeyOf(q, p.0).value
  {
    hide KeyOf;
  }

  lemma ListingPair(s: Store, g: Grid, q: Query, k: Bytes, v: Bytes) returns (i: nat)
    requires WellFormed(g) && Flattened(s, g) && IsId(q.id) && InListing(g, q, k, v) && Short(Todo(s, q.id, None))
    ensures i < |Todo(s, q.id, None)|
    ensures var p := Todo(s, q.id, None)[i]; Taken(q, p) && EntryOf(q, p) == (k, v)
  {
    hide Parse, BuildKey, ValidUtf8, NulFree, Scan, Flattened, WellFormed, KeyOf, Todo;
    var todo := Todo(s, q.id, None);
    var raw := g[(q.id, StringEntry(k))];
    EntryInTodo(s, g, q, k, raw);
    i :| 0 <= i < |todo| && todo[i] == (BuildKey(q.id, StringEntry(k)), raw);
    var l := TodoPair(s, g, q, i);
    SameEntryKey(q.id, k, l);
  }

  lemma PairsInOrder(s: Store, g: Grid, q: Query, i: nat, j: nat)
    requires WellFormed(g) && Flattened(s, g) && IsId(q.id) && Short(Todo(s, q.id, None))
    requires i < j < |Todo(s, q.id, None)| && Taken(q, Todo(s, q.id, None)[i]) && Taken(q, Todo(s, q.id, None)[j])
    ensures var todo := Todo(s, q.id, None);
            EntryBefore(EntryOf(q, todo[i]).0, EntryOf(q, todo[j]).0)
  {
    hide Parse, BuildKey, ValidUtf8, NulFree, Scan, Flattened, WellFormed, KeyOf, EntryBefore, Less;
    var todo := Todo(s, q.id, None);
    var k := TodoPair(s, g, q, i);
    var l := TodoPair(s, g, q, j);
    assert Less(todo[i].0, todo[j].0);
    RecordOrder(q.id, StringEntry(k), StringEntry(l));
    assert EntryBefore(k, l);
  }

  lemma {:induction false} MatchingMember(q: Query, todo: seq<Pair>, e: Entry)
    requires Short(todo)
    ensures e in Matching(q, todo) <==> exists i :: 0 <= i < |todo| && Taken(q, todo[i]) && EntryOf(q, todo[i]) == e
    decreases |todo|
  {
    hide Taken, EntryOf;
    if todo != [] {
      var tail := todo[1..];
      MatchingMember(q, tail, e);
      assert forall i :: 0 <= i < |tail| ==> tail[i] == todo[i+1];
      if i :| 0 <= i < |todo| && Taken(q, todo[i]) && EntryOf(q, todo[i]) == e {
        if i > 0 {
          assert tail[i-1] == todo[i];
        }
      }
      if i :| 0 <= i < |tail| && Taken(q, tail[i]) && EntryOf(q, tail[i]) == e {
        assert todo[i+1] == tail[i];
      }
    }
  }

  lemma {:induction false} MatchingOrdered(q: Query, todo: seq<Pair>)
    requires Short(todo)
    requires forall i, j :: 0 <= i < |todo| && 0 <= j < |todo| && i < j && Taken(q, todo[i]) && Taken(q, todo[j]) ==>
               EntryBefore(EntryOf(q, todo[i]).0, EntryOf(q, todo[j]).0)
    ensures var m := Matching(q, todo); forall i, j :: 0 <= i < j < |m| ==> EntryBefore(m[i].0, m[j].0)
    decreases |todo|
  {
    hide Taken, EntryOf, EntryBefore;
    if todo != [] {
      var tail := todo[1..];
      assert forall i :: 0 <= i < |tail| ==> tail[i] == todo[i+1];
      MatchingOrdered(q, tail);
      if Taken(q, todo[0]) {
        var rest := Matching(q, tail);
        forall j | 0 <= j < |rest| ensures EntryBefore(EntryOf(q, todo[0]).0, rest[j].0) {
          MatchingMember(q, tail, rest[j]);
          var i :| 0 <= i < |tail| && Taken(q, tail[i]) && EntryOf(q, tail[i]) == rest[j];
          assert tail[i] == todo[i+1];
        }
        var m := Matching(q, todo);
        assert m[0] == EntryOf(q, todo[0]) && m[1..] == rest;
        assert forall j :: 0 < j < |m| ==> m[j] == rest[j-1];
      } else {
        assert Matching(q, todo) == Matching(q, tail);
      }
    }
  }

  // ----- the early stop -----

  /** With the entries "a", "b" and "aa", listing the prefix "a" stops at "b", which
      lies between the two matches, and returns "a" alone. */
  lemma PrefixListingStopsEarly(q: Query, a: Bytes, b: Bytes, aa: Bytes, v: Bytes)
    requires IsId(q.id) && |q.id| < 1000 && q.prefix == Some([97]) && q.decode(v) == Some(v)
    requires a == BuildKey(q.id, StringEntry([97])) && b == BuildKey(q.id, StringEntry([98]))
    requires aa == BuildKey(q.id, StringEntry([97, 97]))
    ensures Less(a, b) && Less(b, aa)
    ensures var todo := [(a, v), (b, v), (aa, v)];
            && Short(todo) && Matching(q, todo) == [([97], v), ([97, 97], v)]
            && Pass(q, todo, 100, false) == Outcome([([97], v)], Some(a), [(b, v), (aa, v)], Exhausted)
  {
    hide Parse, BuildKey, ValidUtf8, Less;
    OrderOfThree(q.id);
    KeyReads(q, [97]);
    KeyReads(q, [98]);
    KeyReads(q, [97, 97]);
    var x: Bytes, y: Bytes, xx: Bytes := [97], [98], [97, 97];
    assert x <= x && xx == x + x && y[0] != x[0];
    assert x <= xx && !(x <= y);
    assert Hit(q, a) && Miss(q, b) && Hit(q, aa);
    var t2, t3 := [(b, v), (aa, v)], [(aa, v)];
    var t1 := [(a, v), (b, v), (aa, v)];
    assert t1[1..] == t2 && t2[1..] == t3 && t3[1..] == [];
    assert Matching(q, t3) == [([97, 97], v)];
    assert Matching(q, t2) == Matching(q, t3);
    assert Pass(q, t2, 99, true) == Outcome([], None, t2, Exhausted);
  }

  lemma OrderOfThree(id: Bytes)
    ensures Less(BuildKey(id, StringEntry([97])), BuildKey(id, StringEntry([98])))
    ensures Less(BuildKey(id, StringEntry([98])), BuildKey(id, StringEntry([97, 97])))
  {
    hide BuildKey;
    assert LessAt([97], [98], 0);
    ShortEntriesShortlex(id, [97], [98]);
    ShortEntriesShortlex(id, [98], [97, 97]);
  }

  lemma KeyReads(q: Query, key: Bytes)
    requires IsId(q.id) && |q.id| < 1000 && |key| <= 2 && forall i | 0 <= i < |key| :: key[i] < 0x80
    ensures |BuildKey(q.id, StringEntry(key))| < MAX_LEN && Parse(BuildKey(q.id, StringEntry(key))).Match?
    ensures KeyOf(q, BuildKey(q.id, StringEntry(key))) == Some(key)
  {
    hide Parse, NulFree;
    AsciiIsUtf8(key);
    var raw := BuildKey(q.id, StringEntry(key));
    ParseBuilt(q.id, StringEntry(key), []);
    assert raw + [] == raw;
  }

  /** A cursor of the object, whether its pair is still there or not, resumes with exactly the
      pairs of the block that lie beyond it. */
  lemma OwnCursorResumes(s: Store, id: Bytes, cursor: Bytes)
    requires |cursor| < MAX_LEN && Parse(cursor).Match? && Parse(cursor).id == id
    ensures var todo := Todo(s, id, Some(cursor));
            && Ascending(todo)
            && forall k, v :: (k, v) in todo <==> k in s && s[k] == v && Less(cursor, k) && Less(k, BlockEnd(id))
  {
    var all := Scan(s, cursor, Some(BlockEnd(id)));
    var todo := Todo(s, id, Some(cursor));
    hide Parse, BuildKey, Less, BlockEnd;
    assert StartKey(id, Some(cursor)) == cursor;
    assert Lists(all, s, cursor, Some(BlockEnd(id)));
    hide Scan, StartKey;
    AfterFirst(all, s, cursor, BlockEnd(id));
  }

  lemma AfterFirst(all: seq<Pair>, s: Store, lo: Bytes, hi: Bytes)
    requires Lists(all, s, lo, Some(hi))
    ensures var todo := Skip(all, lo, Some(lo));
            && Ascending(todo)
            && forall k, v :: (k, v) in todo <==> k in s && s[k] == v && Less(lo, k) && Less(k, hi)
  {
    hide Less;
    var todo := Skip(all, lo, Some(lo));
    var skipped := all != [] && all[0].0 == lo;
    assert forall i | 0 <= i < |todo| :: todo[i] == all[if skipped then i + 1 else i];
    LessIrreflexive(lo);
    forall k, v ensures (k, v) in todo <==> k in s && s[k] == v && Less(lo, k) && Less(k, hi) {
      if (k, v) in todo {
        var i :| 0 <= i < |todo| && todo[i] == (k, v);
        if skipped {
          assert all[0].0 == lo && all[i + 1] == (k, v);
        } else if k == lo {
          NoneBefore(all, lo, i);
        }
      }
      if k in s && s[k] == v && Less(lo, k) && Less(k, hi) {
        assert (k, v) in all;
        var i :| 0 <= i < |all| && all[i] == (k, v);
        assert todo[if skipped then i - 1 else i] == (k, v);
      }
    }
  }

  lemma NoneBefore(all: seq<Pair>, lo: Bytes, i: nat)
    requires Ascending(all) && i < |all| && all[i].0 == lo && Leq(lo, all[0].0)
    ensures i == 0
  {
    if i > 0 {
      LessAsymmetric(all[0].0, all[i].0);
    }
  }

  /** A cursor that does not belong to the object restarts the listing, but then the
      entry with the empty key, if there is one, is left out. */
  lemma ForeignCursorSkips(s: Store, id: Bytes, cursor: Bytes)
    requires |cursor| < MAX_LEN && !(Parse(cursor).Match? && Parse(cursor).id == id)
    ensures Todo(s, id, Some(cursor)) == Todo(s, id, None) <==> BuildKey(id, StringEntry([])) !in s
  {
    hide Parse, BuildKey, Less;
    var start := BuildKey(id, StringEntry([]));
    var all := Scan(s, start, Some(BlockEnd(id)));
    if start in s {
      BlockIsRange(id, start);
      assert (start, s[start]) in all;
      var i :| 0 <= i < |all| && all[i] == (start, s[start]);
      if i > 0 {
        LessAsymmetric(all[0].0, start);
      }
      assert |all[1..]| != |all|;
    }
  }
}
