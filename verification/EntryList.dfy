/** Listing the entries of an object page by page, with an optional key prefix:
    chunked range reads against one simple pass over the object's block. */
module EntryList {
  import opened Bytes
  import opened Collections
  import opened StorageKey
  import opened KeySpace
  import opened OrderedStore
  import Paging

  const MAX_LIST_LIMIT: nat := 1024
  const LIST_SCAN_SLACK: nat := 16

  /** What is listed: the object, the key prefix, and how stored values decode. */
  datatype Query = Query(id: Bytes, prefix: Option<Bytes>, decode: Bytes -> Option<Bytes>)

  type Entry = (Bytes, Bytes)

  /** The raw keys of a store can all be parsed without overflow. */
  ghost predicate Parseable(s: Store) {
    forall k :: k in s ==> |k| < MAX_LEN && !Parse(k).Fault?
  }

  predicate Short(todo: seq<Pair>) {
    forall i :: 0 <= i < |todo| ==> |todo[i].0| < MAX_LEN
  }

  /** The entry key of a raw key that belongs to the object. */
  function KeyOf(q: Query, raw: Bytes): (k: Option<Bytes>)
    requires |raw| < MAX_LEN
  {
    match Parse(raw)
    case Match(id, StringEntry(key)) => if id == q.id then Some(key) else None
    case _ => None
  }

  predicate Hit(q: Query, raw: Bytes)
    requires |raw| < MAX_LEN
  {
    KeyOf(q, raw).Some? && (q.prefix.Some? ==> q.prefix.value <= KeyOf(q, raw).value)
  }

  predicate Miss(q: Query, raw: Bytes)
    requires |raw| < MAX_LEN
  {
    KeyOf(q, raw).Some? && q.prefix.Some? && !(q.prefix.value <= KeyOf(q, raw).value)
  }

  // ----- one pass over the pairs -----

  datatype Stop = Full | Exhausted | End

  /** What a pass yields: the entries, the raw key of the last one, the pairs not
      looked at, and why it stopped. */
  datatype Outcome = Outcome(entries: seq<Entry>, last: Option<Bytes>, rest: seq<Pair>, stop: Stop)

  /** Entries already taken, put in front. */
  function Combine(entries: seq<Entry>, last: Option<Bytes>, o: Outcome): (r: Outcome) {
    Outcome(entries + o.entries, if o.last.Some? then o.last else last, o.rest, o.stop)
  }

  /** Takes up to `n` matching entries in order, but gives up at the first entry
      that does not match after one that did. */
  function Pass(q: Query, todo: seq<Pair>, n: nat, seen: bool): (o: Outcome)
    requires n > 0 && Short(todo)
    decreases |todo|
  {
    if todo == [] then Outcome([], None, [], End)
    else
      var (raw, value) := todo[0];
      if Miss(q, raw) then
        if seen then Outcome([], None, todo, Exhausted) else Pass(q, todo[1..], n, false)
      else if Hit(q, raw) then
        match q.decode(value)
        case None => Pass(q, todo[1..], n, true)
        case Some(v) =>
          var e := (KeyOf(q, raw).value, v);
          if n == 1 then Outcome([e], Some(raw), todo[1..], Full)
          else Combine([e], Some(raw), Pass(q, todo[1..], n - 1, true))
      else Pass(q, todo[1..], n, seen)
  }

  /** Where a listing starts: at the cursor if it belongs to the object, and
      otherwise at the first possible entry. */
  function StartKey(id: Bytes, cursor: Option<Bytes>): (k: Bytes)
    requires cursor.Some? ==> |cursor.value| < MAX_LEN
  {
    if cursor.Some? && Parse(cursor.value).Match? && Parse(cursor.value).id == id
    then cursor.value
    else BuildKey(id, StringEntry([]))
  }

  function BlockEnd(id: Bytes): (k: Bytes) {
    RangeEnd(ObjectPrefix(id))
  }

  /** With any cursor given, a pair exactly at the start key is skipped. */
  function Skip(all: seq<Pair>, start: Bytes, cursor: Option<Bytes>): (todo: seq<Pair>) {
    if cursor.Some? && all != [] && all[0].0 == start then all[1..] else all
  }

  function Todo(s: Store, id: Bytes, cursor: Option<Bytes>): (todo: seq<Pair>)
    requires cursor.Some? ==> |cursor.value| < MAX_LEN
  {
    var start := StartKey(id, cursor);
    Skip(Scan(s, start, Some(BlockEnd(id))), start, cursor)
  }

  /** When a full page says that there is more. Without prefix: exactly when a
      pair is left. With prefix: always if the next pair matches, and only if some
      pair is left. */
  ghost predicate MoreIsRight(q: Query, rest: seq<Pair>, more: bool)
    requires Short(rest)
  {
    && (q.prefix.None? ==> (more <==> rest != []))
    && (rest != [] && Hit(q, rest[0].0) ==> more)
    && (more ==> rest != [])
  }

  /** The answer for a full page, from the next pair of the chunk, if any, and the
      cursor of the storage layer. */
  function MoreAvailable(q: Query, peek: Option<Bytes>, storageCursor: Option<Bytes>): (more: bool)
    requires peek.Some? ==> |peek.value| < MAX_LEN
    requires storageCursor.Some? ==> |storageCursor.value| < MAX_LEN
  {
    if q.prefix.None? then peek.Some? || storageCursor.Some?
    else if peek.Some? then
      Hit(q, peek.value) || (storageCursor.Some? && KeyOf(q, storageCursor.value).Some?)
    else storageCursor.Some? && Hit(q, storageCursor.value)
  }

  function FirstKey(s: seq<Pair>): (k: Option<Bytes>) {
    if s == [] then None else Some(s[0].0)
  }

  lemma MoreAvailableIsRight(q: Query, chunk: seq<Pair>, after: seq<Pair>)
    requires Short(chunk) && Short(after)
    ensures Short(chunk + after)
    ensures MoreIsRight(q, chunk + after, MoreAvailable(q, FirstKey(chunk), FirstKey(after)))
  {
    hide KeyOf;
    if chunk == [] {
      assert chunk + after == after;
    } else {
      assert (chunk + after)[0] == chunk[0];
    }
  }

  /** The decision at a full page, with `rest` of the chunk and `after` beyond it: without
      prefix, whether anything is left; with one, whether the next pair matches, or both the
      chunk and the storage have more and the storage's next is an entry of the object. */
  lemma MoreAvailableIff(q: Query, rest: seq<Pair>, after: seq<Pair>)
    requires Short(rest) && Short(after)
    ensures Short(rest + after)
    ensures MoreAvailable(q, FirstKey(rest), FirstKey(after)) <==>
              var left := rest + after;
              && left != []
              && (q.prefix.Some? ==>
                    || Hit(q, left[0].0)
                    || (rest != [] && after != [] && KeyOf(q, after[0].0).Some?))
  {
    hide KeyOf;
    if rest == [] {
      assert rest + after == after;
    } else {
      assert (rest + after)[0] == rest[0];
    }
  }

  lemma CombineAssoc(xs: seq<Entry>, last: Option<Bytes>, e: Entry, raw: Bytes, o: Outcome)
    ensures Combine(xs, last, Combine([e], Some(raw), o)) == Combine(xs + [e], Some(raw), o)
  {
    assert xs + ([e] + o.entries) == xs + [e] + o.entries;
  }

  /** What one pair does to a listing that has taken `xs` so far. */
  lemma PassStep(q: Query, todo: seq<Pair>, n: nat, seen: bool, xs: seq<Entry>, last: Option<Bytes>)
    requires n > 0 && Short(todo) && todo != []
    ensures Short(todo[1..])
    ensures var raw := todo[0].0;
            var v := q.decode(todo[0].1);
            var now := Combine(xs, last, Pass(q, todo, n, seen));
            if Miss(q, raw) then
              if seen then now == Outcome(xs, last, todo, Exhausted)
              else now == Combine(xs, last, Pass(q, todo[1..], n, seen))
            else if Hit(q, raw) && v.Some? then
              var e := (KeyOfHit(q, raw), v.value);
              if n == 1 then now == Outcome(xs + [e], Some(raw), todo[1..], Full)
              else now == Combine(xs + [e], Some(raw), Pass(q, todo[1..], n - 1, true))
            else now == Combine(xs, last, Pass(q, todo[1..], n, seen || Hit(q, raw)))
  {
    hide KeyOf, Hit, Miss;
    var raw := todo[0].0;
    var v := q.decode(todo[0].1);
    if !Miss(q, raw) && Hit(q, raw) && v.Some? && n > 1 {
      CombineAssoc(xs, last, (KeyOfHit(q, raw), v.value), raw, Pass(q, todo[1..], n - 1, true));
    }
  }

  /** Whether a matching entry has been seen after the given pairs. */
  predicate SeenAfter(q: Query, items: seq<Pair>, seen: bool)
    requires Short(items)
    decreases |items|
  {
    if items == [] then seen else SeenAfter(q, items[1..], seen || Hit(q, items[0].0))
  }

  /** A pass that gets to the end of some pairs goes on with the next ones; one that stops
      before leaves these as well. */
  lemma {:induction false} PassSplit(q: Query, items: seq<Pair>, after: seq<Pair>, n: nat, seen: bool)
    requires n > 0 && Short(items) && Short(after)
    ensures Short(items + after)
    ensures var o := Pass(q, items, n, seen);
            && |o.entries| <= n && (|o.entries| == n <==> o.stop == Full)
            && Short(o.rest)
            && Pass(q, items + after, n, seen)
               == if o.stop == End
                  then Combine(o.entries, o.last, Pass(q, after, n - |o.entries|, SeenAfter(q, items, seen)))
                  else Outcome(o.entries, o.last, o.rest + after, o.stop)
    decreases |items|
  {
    hide KeyOf, Miss, Hit;
    if items == [] {
      assert items + after == after;
      CombineNothing(Pass(q, after, n, seen));
    } else {
      var whole := items + after;
      assert whole[0] == items[0] && whole[1..] == items[1..] + after;
      var raw, v := items[0].0, q.decode(items[0].1);
      MissIsNoHit(q, raw);
      if Miss(q, raw) {
        PassSplit(q, items[1..], after, n, false);
      } else if Hit(q, raw) && v.Some? {
        if n > 1 {
          PassSplit(q, items[1..], after, n - 1, true);
          var o := Pass(q, items[1..], n - 1, true);
          var e := (KeyOfHit(q, raw), v.value);
          if o.stop == End {
            CombineLater([e], Some(raw), o.entries, o.last, Pass(q, after, n - 1 - |o.entries|, SeenAfter(q, items[1..], true)));
          }
        }
      } else {
        PassSplit(q, items[1..], after, n, seen || Hit(q, raw));
      }
    }
  }

  lemma MissIsNoHit(q: Query, raw: Bytes)
    requires |raw| < MAX_LEN
    ensures !(Miss(q, raw) && Hit(q, raw))
  {
  }

  /** The loop over one chunk: the pass over it, and, on a full page, the decision whether
      there is more, from the pair after the last one taken and the storage cursor. */
  method ListChunk(q: Query, chunk: seq<Pair>, storageCursor: Option<Bytes>, max: nat,
                   taken: seq<Entry>, lastBefore: Option<Bytes>, seenBefore: bool)
      returns (entries: seq<Entry>, last: Option<Bytes>, seen: bool, stop: Stop, more: bool)
    requires Short(chunk) && |taken| < max
    requires storageCursor.Some? ==> |storageCursor.value| < MAX_LEN
    ensures var o := Pass(q, chunk, max - |taken|, seenBefore);
            && Combine(taken, lastBefore, o) == Outcome(entries, last, o.rest, stop)
            && (stop == End ==> seen == SeenAfter(q, chunk, seenBefore))
            && Short(o.rest)
            && (stop == Full ==> more == MoreAvailable(q, FirstKey(o.rest), storageCursor))
  {
    hide KeyOf, Hit, Miss, MoreAvailable, Pass, Combine, SeenAfter;
    PassSplit(q, chunk, [], max - |taken|, seenBefore);
    entries, last, seen, more := taken, lastBefore, seenBefore, false;
    ghost var o := Pass(q, chunk, max - |taken|, seenBefore);
    ghost var want := Combine(taken, lastBefore, o);
    CombineParts(taken, lastBefore, o);
    var i := 0;
    assert chunk[0..] == chunk;
    while i < |chunk|
      invariant i <= |chunk| && |entries| < max
      invariant Short(chunk[i..])
      invariant want == Combine(entries, last, Pass(q, chunk[i..], max - |entries|, seen))
      invariant SeenAfter(q, chunk, seenBefore) == SeenAfter(q, chunk[i..], seen)
    {
      var (raw, value) := chunk[i];
      ghost var todo := chunk[i..];
      assert todo[0] == chunk[i] && todo[1..] == chunk[i+1..];
      PassStep(q, todo, max - |entries|, seen, entries, last);
      SeenStep(q, todo, seen);
      MissIsNoHit(q, raw);
      if Miss(q, raw) {
        if seen {
          return entries, last, seen, Exhausted, false;
        }
      } else if Hit(q, raw) {
        seen := true;
        match q.decode(value) {
          case Some(v) =>
            entries := entries + [(KeyOfHit(q, raw), v)];
            last := Some(raw);
            if |entries| == max {
              var peek := if i + 1 < |chunk| then Some(chunk[i+1].0) else None;
              assert peek == FirstKey(chunk[i+1..]);
              more := MoreAvailable(q, peek, storageCursor);
              return entries, last, seen, Full, more;
            }
          case None =>
        }
      }
      i := i + 1;
    }
    assert chunk[i..] == [];
    PassNothing(q, max - |entries|, seen);
    CombineEnd(entries, last);
    SeenNothing(q, seen);
    stop := End;
  }

  lemma SeenStep(q: Query, items: seq<Pair>, seen: bool)
    requires Short(items) && items != []
    ensures Short(items[1..])
    ensures SeenAfter(q, items, seen) == SeenAfter(q, items[1..], seen || Hit(q, items[0].0))
  {
  }

  lemma SeenNothing(q: Query, seen: bool)
    ensures SeenAfter(q, [], seen) == seen
  {
  }

  function KeyOfHit(q: Query, raw: Bytes): (k: Bytes)
    requires |raw| < MAX_LEN && Hit(q, raw)
    ensures KeyOf(q, raw) == Some(k)
  {
    KeyOf(q, raw).value
  }

  function PageSize(limit: nat): (n: nat) {
    if limit < MAX_LIST_LIMIT then limit else MAX_LIST_LIMIT
  }

  /** Whether a call reports more, decided chunk by chunk over the pairs `all` from the start
      key on. With `skip` the first pair is passed over. */
  function More(q: Query, all: seq<Pair>, skip: bool, n: nat, seen: bool): (more: bool)
    requires n > 0 && Short(all)
    decreases |all|, 1
  {
    if all == [] then false
    else
      var size := Min(n + LIST_SCAN_SLACK, |all|);
      MoreFrom(q, Rest(all[..size], skip), all[size..], n, seen)
  }

  /** The same for one chunk and the pairs after it: at a full page `MoreAvailable` decides,
      and otherwise only a later chunk can. */
  function MoreFrom(q: Query, items: seq<Pair>, after: seq<Pair>, n: nat, seen: bool): (more: bool)
    requires n > 0 && Short(items) && Short(after)
    decreases |after|, 2
  {
    PassSplit(q, items, after, n, seen);
    var o := Pass(q, items, n, seen);
    match o.stop
    case Full => MoreAvailable(q, FirstKey(o.rest), FirstKey(after))
    case Exhausted => false
    case End => More(q, after, false, n - |o.entries|, SeenAfter(q, items, seen))
  }

  predicate Skips(all: seq<Pair>, start: Bytes, cursor: Option<Bytes>) {
    cursor.Some? && all != [] && all[0].0 == start
  }

  /** What the call decides about there being more. */
  ghost predicate Reports(s: Store, q: Query, limit: nat, cursor: Option<Bytes>)
    requires limit > 0 && (cursor.Some? ==> |cursor.value| < MAX_LEN)
    requires Short(Scan(s, StartKey(q.id, cursor), Some(BlockEnd(q.id))))
  {
    var start := StartKey(q.id, cursor);
    var all := Scan(s, start, Some(BlockEnd(q.id)));
    More(q, all, Skips(all, start, cursor), PageSize(limit), false)
  }

  /** What one call returns: the entries of the single pass over the pairs from the start key
      on, and the last key taken as cursor exactly when it reports more. */
  ghost predicate Listed(s: Store, q: Query, limit: nat, cursor: Option<Bytes>, entries: seq<Entry>, next: Option<Bytes>)
    requires limit > 0 && (cursor.Some? ==> |cursor.value| < MAX_LEN)
  {
    && Short(Scan(s, StartKey(q.id, cursor), Some(BlockEnd(q.id))))
    && Short(Todo(s, q.id, cursor))
    && var o := Pass(q, Todo(s, q.id, cursor), PageSize(limit), false);
    && entries == o.entries
    && next == if Reports(s, q, limit, cursor) then o.last else None
  }

  lemma MoreStep(q: Query, all: seq<Pair>, skip: bool, chunk: seq<Pair>, after: seq<Pair>, n: nat, seen: bool)
    requires n > 0 && Short(all) && Short(chunk) && Short(after) && all != []
    requires all == chunk + after && |chunk| == Min(n + LIST_SCAN_SLACK, |all|)
    ensures Short(Rest(chunk, skip))
    ensures More(q, all, skip, n, seen) == MoreFrom(q, Rest(chunk, skip), after, n, seen)
  {
    hide MoreFrom;
    assert all[..|chunk|] == chunk && all[|chunk|..] == after;
  }

  lemma MoreFromStep(q: Query, items: seq<Pair>, after: seq<Pair>, n: nat, seen: bool)
    requires n > 0 && Short(items) && Short(after)
    ensures var o := Pass(q, items, n, seen);
            && Short(o.rest) && (o.stop == End ==> |o.entries| < n)
            && (o.stop == Full ==> MoreFrom(q, items, after, n, seen) == MoreAvailable(q, FirstKey(o.rest), FirstKey(after)))
            && (o.stop == Exhausted ==> !MoreFrom(q, items, after, n, seen))
            && (o.stop == End ==> MoreFrom(q, items, after, n, seen)
                                  == More(q, after, false, n - |o.entries|, SeenAfter(q, items, seen)))
  {
    hide Pass, SeenAfter, MoreAvailable, More;
    PassSplit(q, items, after, n, seen);
  }

  /** More is reported only at a full page, and then within the bounds of `MoreIsRight`. */
  lemma {:induction false} MoreMeans(q: Query, all: seq<Pair>, skip: bool, n: nat, seen: bool)
    requires n > 0 && Short(all)
    ensures Short(Rest(all, skip))
    ensures var o := Pass(q, Rest(all, skip), n, seen);
            && Short(o.rest)
            && (More(q, all, skip, n, seen) ==> o.stop == Full && o.last.Some?)
            && (o.stop == Full ==> MoreIsRight(q, o.rest, More(q, all, skip, n, seen)))
    decreases |all|, 1
  {
    if all == [] {
      EmptyScan(q, skip, n, seen);
    } else {
      var size := Min(n + LIST_SCAN_SLACK, |all|);
      var chunk, after := all[..size], all[size..];
      assert all == chunk + after && Short(chunk) && Short(after);
      hide *;
      MoreStep(q, all, skip, chunk, after, n, seen);
      RestSplits(chunk, after, skip);
      MoreFromMeans(q, Rest(chunk, skip), after, n, seen);
    }
  }

  lemma {:induction false} MoreFromMeans(q: Query, items: seq<Pair>, after: seq<Pair>, n: nat, seen: bool)
    requires n > 0 && Short(items) && Short(after)
    ensures Short(items + after)
    ensures var o := Pass(q, items + after, n, seen);
            && Short(o.rest)
            && (MoreFrom(q, items, after, n, seen) ==> o.stop == Full && o.last.Some?)
            && (o.stop == Full ==> MoreIsRight(q, o.rest, MoreFrom(q, items, after, n, seen)))
    decreases |after|, 2
  {
    hide *;
    MoreFromStep(q, items, after, n, seen);
    var o := Pass(q, items, n, seen);
    if o.stop == End {
      var n', seen' := n - |o.entries|, SeenAfter(q, items, seen);
      MoreMeans(q, after, false, n', seen');
      RestNone(after);
      EndMeans(q, items, after, n, seen, MoreFrom(q, items, after, n, seen));
    } else {
      PassSplit(q, items, after, n, seen);
      WholeRest(q, items + after, n, seen);
      FullHasLast(q, items + after, n, seen);
      if o.stop == Full {
        MoreAvailableIsRight(q, o.rest, after);
      }
    }
  }

  lemma WholeRest(q: Query, items: seq<Pair>, n: nat, seen: bool)
    requires n > 0 && Short(items)
    ensures Short(Pass(q, items, n, seen).rest)
  {
    assert Short([]);
    hide *;
    PassSplit(q, items, [], n, seen);
  }

  /** Past items that leave the page short, what is reported of the rest is reported of all. */
  lemma EndMeans(q: Query, items: seq<Pair>, after: seq<Pair>, n: nat, seen: bool, more: bool)
    requires n > 0 && Short(items) && Short(after)
    requires var o := Pass(q, items, n, seen);
             && o.stop == End && |o.entries| < n
             && var o' := Pass(q, after, n - |o.entries|, SeenAfter(q, items, seen));
             && Short(o'.rest) && (more ==> o'.stop == Full && o'.last.Some?)
             && (o'.stop == Full ==> MoreIsRight(q, o'.rest, more))
    ensures Short(items + after)
    ensures var o := Pass(q, items + after, n, seen);
            && Short(o.rest) && (more ==> o.stop == Full && o.last.Some?)
            && (o.stop == Full ==> MoreIsRight(q, o.rest, more))
  {
    hide *;
    PassSplit(q, items, after, n, seen);
    var o := Pass(q, items, n, seen);
    CombineParts(o.entries, o.last, Pass(q, after, n - |o.entries|, SeenAfter(q, items, seen)));
  }

  lemma RestSplits(chunk: seq<Pair>, after: seq<Pair>, skip: bool)
    requires Short(chunk) && Short(after) && (skip && chunk == [] ==> after == [])
    ensures Rest(chunk + after, skip) == Rest(chunk, skip) + after
    ensures Short(Rest(chunk, skip)) && Short(Rest(chunk + after, skip))
  {
  }

  lemma RestNone(all: seq<Pair>)
    ensures Rest(all, false) == all
  {
  }

  lemma ListedMeans(s: Store, q: Query, limit: nat, cursor: Option<Bytes>, entries: seq<Entry>, next: Option<Bytes>)
    requires limit > 0 && (cursor.Some? ==> |cursor.value| < MAX_LEN)
    requires Listed(s, q, limit, cursor, entries, next)
    ensures var todo := Todo(s, q.id, cursor);
            && Short(todo) && PageSize(limit) > 0
            && var o := Pass(q, todo, PageSize(limit), false);
            && entries == o.entries && Short(o.rest)
            && (next.Some? <==> Reports(s, q, limit, cursor))
            && (next.Some? ==> o.stop == Full && next == o.last)
            && (o.stop == Full ==> MoreIsRight(q, o.rest, next.Some?))
  {
    hide Pass, More, MoreIsRight, Scan, StartKey, BlockEnd;
    var start := StartKey(q.id, cursor);
    var all := Scan(s, start, Some(BlockEnd(q.id)));
    MoreMeans(q, all, Skips(all, start, cursor), PageSize(limit), false);
  }

  /** The chunked loop is the single pass, and its cursor the one `More` decides on. */
  method ListEntries(s: Store, q: Query, limit: nat, cursor: Option<Bytes>)
      returns (entries: seq<Entry>, next: Option<Bytes>)
    requires Parseable(s)
    requires cursor.Some? ==> |cursor.value| < MAX_LEN && !Parse(cursor.value).Fault?
    ensures limit == 0 ==> entries == [] && next == cursor
    ensures limit > 0 ==> Listed(s, q, limit, cursor, entries, next)
    ensures |entries| <= Min(limit, 1024) && (limit > 0 && next.Some? ==> |entries| == Min(limit, 1024))
  {
    if limit == 0 {
      return [], cursor;
    }
    hide *;
    var max := PageSize(limit);
    var start, end := StartKey(q.id, cursor), BlockEnd(q.id);
    var skip := cursor;
    PageSizePositive(limit);
    ScanShort(s, start, end);
    ghost var all := Scan(s, start, Some(end));
    TodoIsSkip(s, q.id, cursor);
    SkipRest(all, start, cursor);
    ghost var want := Pass(q, Todo(s, q.id, cursor), max, false);
    ghost var decided := More(q, all, Skips(all, start, cursor), max, false);
    entries := [];
    var last: Option<Bytes> := None;
    var seen, more, done := false, false, false;
    StateStarts(q, all, Skips(all, start, cursor), max);
    while !done
      invariant !done ==> |entries| < max && StateAt(s, q, start, end, skip, max - |entries|, seen, entries, last, want, decided)
      invariant done ==> want.entries == entries && want.last == last && decided == more
      decreases !done, |Scan(s, start, Some(end))|
    {
      entries, last, seen, done, more, start := ReadChunk(s, q, start, end, skip, max, entries, last, seen, want, decided);
      skip := None;
    }
    next := if more then last else None;
    ListedIntro(s, q, limit, cursor, want, entries, last, more);
    PageBounds(s, q, limit, cursor, entries, next);
  }

  /** A page never has more than the limit and 1024 entries, and one with a cursor has no
      fewer. */
  lemma PageBounds(s: Store, q: Query, limit: nat, cursor: Option<Bytes>, entries: seq<Entry>, next: Option<Bytes>)
    requires limit > 0 && (cursor.Some? ==> |cursor.value| < MAX_LEN)
    requires Listed(s, q, limit, cursor, entries, next)
    ensures |entries| <= Min(limit, 1024) && (next.Some? ==> |entries| == Min(limit, 1024))
  {
    assert Short([]) && PageSize(limit) == Min(limit, 1024);
    hide *;
    ListedMeans(s, q, limit, cursor, entries, next);
    PassSplit(q, Todo(s, q.id, cursor), [], PageSize(limit), false);
  }

  /** The state of the loop when it is about to read from `start`. */
  ghost predicate StateAt(s: Store, q: Query, start: Bytes, end: Bytes, skip: Option<Bytes>, n: nat, seen: bool,
                          entries: seq<Entry>, last: Option<Bytes>, want: Outcome, decided: bool) {
    var all := Scan(s, start, Some(end));
    State(q, all, Skips(all, start, skip), n, seen, entries, last, want, decided)
  }

  /** One turn of the loop: read a chunk, go through it, and move to the storage cursor. */
  method ReadChunk(s: Store, q: Query, start: Bytes, end: Bytes, skip: Option<Bytes>, max: nat, taken: seq<Entry>,
                   lastBefore: Option<Bytes>, seenBefore: bool, ghost want: Outcome, ghost decided: bool)
      returns (entries: seq<Entry>, last: Option<Bytes>, seen: bool, done: bool, more: bool, nextStart: Bytes)
    requires Parseable(s) && |taken| < max
    requires StateAt(s, q, start, end, skip, max - |taken|, seenBefore, taken, lastBefore, want, decided)
    ensures done ==> want.entries == entries && want.last == last && decided == more
    ensures !done ==>
              && |entries| < max
              && StateAt(s, q, nextStart, end, None, max - |entries|, seen, entries, last, want, decided)
              && |Scan(s, nextStart, Some(end))| < |Scan(s, start, Some(end))|
  {
    hide *;
    entries, last, seen, done, more, nextStart := taken, lastBefore, seenBefore, true, false, start;
    ghost var all := Scan(s, start, Some(end));
    ghost var pass := Skips(all, start, skip);
    StateHere(s, q, start, end, skip, max - |taken|, seen, taken, last, want, decided);
    ScanShort(s, start, end);
    var chunkLimit := max - |taken| + LIST_SCAN_SLACK;
    var (chunk, storageCursor) := Paging.Page(s, start, end, Some(chunkLimit));
    ghost var after := NextChunk(s, start, end, chunkLimit);
    if chunk == [] {
      StateEnds(q, pass, max - |taken|, seen, taken, last, want, decided);
      return;
    }
    SkipRest(chunk, start, skip);
    SkipsChunk(chunk, after, start, skip);
    var items := Skip(chunk, start, skip);
    entries, last, seen, done, more :=
      TakeChunk(q, items, storageCursor, max, taken, last, seen, all, pass, chunk, after, want, decided);
    if !done {
      nextStart := storageCursor.value;
      StateAtNext(s, q, nextStart, end, max - |entries|, seen, entries, last, want, decided);
    }
  }

  /** The part of a turn that goes through the chunk. */
  method TakeChunk(q: Query, items: seq<Pair>, storageCursor: Option<Bytes>, max: nat, taken: seq<Entry>,
                   lastBefore: Option<Bytes>, seenBefore: bool, ghost all: seq<Pair>, ghost skip: bool,
                   ghost chunk: seq<Pair>, ghost after: seq<Pair>, ghost want: Outcome, ghost decided: bool)
      returns (entries: seq<Entry>, last: Option<Bytes>, seen: bool, done: bool, more: bool)
    requires |taken| < max
    requires State(q, all, skip, max - |taken|, seenBefore, taken, lastBefore, want, decided)
    requires Short(chunk) && Short(after) && chunk != [] && items == Rest(chunk, skip)
    requires all == chunk + after && |chunk| == Min(max - |taken| + LIST_SCAN_SLACK, |all|)
    requires storageCursor == FirstKey(after) && (storageCursor.Some? <==> after != [])
    requires storageCursor.Some? ==> |storageCursor.value| < MAX_LEN
    ensures done ==> want.entries == entries && want.last == last && decided == more
    ensures !done ==>
              && storageCursor.Some? && |entries| < max
              && State(q, after, false, max - |entries|, seen, entries, last, want, decided)
  {
    hide *;
    StateStep(q, all, skip, chunk, after, max - |taken|, seenBefore, taken, lastBefore, want, decided);
    var stop;
    entries, last, seen, stop, more := ListChunk(q, items, storageCursor, max, taken, lastBefore, seenBefore);
    more := more && stop == Full;
    done := stop != End || storageCursor.None?;
    if stop == End && storageCursor.None? {
      StateEnds(q, false, max - |entries|, seen, entries, last, want, decided);
    }
  }

  lemma StateHere(s: Store, q: Query, start: Bytes, end: Bytes, skip: Option<Bytes>, n: nat, seen: bool,
                  entries: seq<Entry>, last: Option<Bytes>, want: Outcome, decided: bool)
    requires StateAt(s, q, start, end, skip, n, seen, entries, last, want, decided)
    ensures n > 0
    ensures var all := Scan(s, start, Some(end));
            State(q, all, Skips(all, start, skip), n, seen, entries, last, want, decided)
  {
    hide Pass, More, Scan, Combine;
  }

  lemma StateAtNext(s: Store, q: Query, start: Bytes, end: Bytes, n: nat, seen: bool, entries: seq<Entry>,
                    last: Option<Bytes>, want: Outcome, decided: bool)
    requires State(q, Scan(s, start, Some(end)), false, n, seen, entries, last, want, decided)
    ensures StateAt(s, q, start, end, None, n, seen, entries, last, want, decided)
  {
    hide State, Scan;
  }

  /** Between chunks: what is still to be read gives, with what has been taken, the outcome
      and the decision of the whole call. */
  ghost predicate State(q: Query, all: seq<Pair>, skip: bool, n: nat, seen: bool, entries: seq<Entry>,
                        last: Option<Bytes>, want: Outcome, decided: bool) {
    && n > 0 && Short(all) && Short(Rest(all, skip))
    && want == Combine(entries, last, Pass(q, Rest(all, skip), n, seen))
    && decided == More(q, all, skip, n, seen)
  }

  lemma StateStarts(q: Query, all: seq<Pair>, skip: bool, n: nat)
    requires n > 0 && Short(all) && Short(Rest(all, skip))
    ensures State(q, all, skip, n, false, [], None, Pass(q, Rest(all, skip), n, false), More(q, all, skip, n, false))
  {
    hide Pass, More;
    CombineNothing(Pass(q, Rest(all, skip), n, false));
  }

  lemma StateEnds(q: Query, skip: bool, n: nat, seen: bool, entries: seq<Entry>, last: Option<Bytes>, want: Outcome,
                  decided: bool)
    requires State(q, [], skip, n, seen, entries, last, want, decided)
    ensures want.entries == entries && want.last == last && !decided
  {
    EmptyScan(q, skip, n, seen);
    CombineEnd(entries, last);
  }

  /** One chunk takes the state to the next one, or ends the call. */
  lemma StateStep(q: Query, all: seq<Pair>, skip: bool, chunk: seq<Pair>, after: seq<Pair>, n: nat, seen: bool,
                  entries: seq<Entry>, last: Option<Bytes>, want: Outcome, decided: bool)
    requires State(q, all, skip, n, seen, entries, last, want, decided)
    requires Short(chunk) && Short(after) && chunk != []
    requires all == chunk + after && |chunk| == Min(n + LIST_SCAN_SLACK, |all|)
    ensures Short(Rest(chunk, skip))
    ensures var o := Pass(q, Rest(chunk, skip), n, seen);
            var r := Combine(entries, last, o);
            && |r.entries| == |entries| + |o.entries|
            && (r.stop == End ==>
                  && |o.entries| < n
                  && State(q, after, false, n - |o.entries|, SeenAfter(q, Rest(chunk, skip), seen), r.entries, r.last, want, decided))
            && (r.stop != End ==>
                  && want.entries == r.entries && want.last == r.last && Short(o.rest)
                  && decided == (r.stop == Full && MoreAvailable(q, FirstKey(o.rest), FirstKey(after))))
  {
    assert n > 0 && Short(all) by { hide Pass, More, Combine; }
    hide *;
    RestSplits(chunk, after, skip);
    StateIs(q, all, skip, n, seen, entries, last, want, decided);
    ChunkStep(q, all, skip, chunk, after, n, seen, entries, last);
    var o := Pass(q, Rest(chunk, skip), n, seen);
    var r := Combine(entries, last, o);
    if o.stop == End {
      RestNone(after);
      StateIs(q, after, false, n - |o.entries|, SeenAfter(q, Rest(chunk, skip), seen), r.entries, r.last, want, decided);
    }
  }

  lemma StateIs(q: Query, all: seq<Pair>, skip: bool, n: nat, seen: bool, entries: seq<Entry>, last: Option<Bytes>,
                want: Outcome, decided: bool)
    requires n > 0 && Short(all) && Short(Rest(all, skip))
    ensures State(q, all, skip, n, seen, entries, last, want, decided)
       <==> && want == Combine(entries, last, Pass(q, Rest(all, skip), n, seen))
            && decided == More(q, all, skip, n, seen)
  {
    hide Pass, More, Combine;
  }

  lemma PageSizePositive(limit: nat)
    requires limit > 0
    ensures PageSize(limit) > 0
  {
  }

  lemma TodoIsSkip(s: Store, id: Bytes, cursor: Option<Bytes>)
    requires cursor.Some? ==> |cursor.value| < MAX_LEN
    ensures Todo(s, id, cursor) == Skip(Scan(s, StartKey(id, cursor), Some(BlockEnd(id))), StartKey(id, cursor), cursor)
  {
  }

  /** A page is the head of the scan; what it leaves starts at its cursor and is
      the scan from there. */
  lemma NextChunk(s: Store, start: Bytes, end: Bytes, n: nat) returns (after: seq<Pair>)
    requires n > 0 && Short(Scan(s, start, Some(end)))
    ensures var (chunk, next) := Paging.Page(s, start, end, Some(n));
            && Scan(s, start, Some(end)) == chunk + after && Short(chunk) && Short(after)
            && |chunk| == Min(n, |Scan(s, start, Some(end))|)
            && next == FirstKey(after) && (next.Some? <==> after != []) && (chunk == [] ==> after == [])
            && (next.Some? ==> |next.value| < MAX_LEN && chunk != [] && after == Scan(s, next.value, Some(end)))
            && (chunk != [] ==> |after| < |Scan(s, start, Some(end))|)
  {
    hide Scan, Less;
    var all := Scan(s, start, Some(end));
    var (chunk, next) := Paging.Page(s, start, end, Some(n));
    after := all[|chunk|..];
    CutsInTwo(all, |chunk|);
    if next.Some? {
      Paging.ScanTail(s, start, end, n);
    }
  }

  lemma CutsInTwo(all: seq<Pair>, n: nat)
    requires n <= |all| && Short(all)
    ensures all == all[..n] + all[n..] && Short(all[..n]) && Short(all[n..])
  {
  }

  function Rest(all: seq<Pair>, skip: bool): (todo: seq<Pair>) {
    if skip && all != [] then all[1..] else all
  }

  lemma SkipRest(all: seq<Pair>, start: Bytes, cursor: Option<Bytes>)
    ensures Skip(all, start, cursor) == Rest(all, Skips(all, start, cursor))
    ensures Skips(all, start, cursor) ==> all != []
    ensures Short(all) ==> Short(Rest(all, Skips(all, start, cursor)))
    ensures cursor.None? ==> !Skips(all, start, cursor) && Rest(all, false) == all
  {
  }

  lemma SkipsChunk(chunk: seq<Pair>, after: seq<Pair>, start: Bytes, cursor: Option<Bytes>)
    requires chunk != []
    ensures Skips(chunk + after, start, cursor) == Skips(chunk, start, cursor)
  {
  }

  lemma EmptyScan(q: Query, skip: bool, n: nat, seen: bool)
    requires n > 0
    ensures Pass(q, Rest([], skip), n, seen) == Outcome([], None, [], End)
    ensures !More(q, [], skip, n, seen)
  {
  }

  /** What one chunk does to a listing: it goes on beyond the chunk, or ends in it. */
  lemma ChunkStep(q: Query, all: seq<Pair>, skip: bool, chunk: seq<Pair>, after: seq<Pair>, n: nat, seen: bool,
                  xs: seq<Entry>, last: Option<Bytes>)
    requires n > 0 && Short(all) && Short(chunk) && Short(after) && chunk != []
    requires all == chunk + after && |chunk| == Min(n + LIST_SCAN_SLACK, |all|)
    ensures Short(Rest(all, skip)) && Short(Rest(chunk, skip))
    ensures var o := Pass(q, Rest(chunk, skip), n, seen);
            var r := Combine(xs, last, o);
            var whole := Combine(xs, last, Pass(q, Rest(all, skip), n, seen));
            && |r.entries| == |xs| + |o.entries| && Short(o.rest) && r.rest == o.rest && r.stop == o.stop
            && (o.stop == End ==>
                  && |o.entries| < n
                  && whole == Combine(r.entries, r.last, Pass(q, after, n - |o.entries|, SeenAfter(q, Rest(chunk, skip), seen)))
                  && More(q, all, skip, n, seen)
                     == More(q, after, false, n - |o.entries|, SeenAfter(q, Rest(chunk, skip), seen)))
            && (o.stop != End ==>
                  && whole.entries == r.entries && whole.last == r.last
                  && More(q, all, skip, n, seen)
                     == (o.stop == Full && MoreAvailable(q, FirstKey(o.rest), FirstKey(after))))
  {
    hide *;
    var items := Rest(chunk, skip);
    RestSplits(chunk, after, skip);
    MoreStep(q, all, skip, chunk, after, n, seen);
    MoreFromStep(q, items, after, n, seen);
    PassSplit(q, items, after, n, seen);
    var o := Pass(q, items, n, seen);
    CombineParts(xs, last, o);
    if o.stop == End {
      CombineLater(xs, last, o.entries, o.last, Pass(q, after, n - |o.entries|, SeenAfter(q, items, seen)));
    } else {
      CombineParts(xs, last, Outcome(o.entries, o.last, o.rest + after, o.stop));
    }
  }

  lemma CombineParts(xs: seq<Entry>, last: Option<Bytes>, o: Outcome)
    ensures Combine(xs, last, o) == Outcome(xs + o.entries, if o.last.Some? then o.last else last, o.rest, o.stop)
  {
  }

  lemma CombineLater(xs: seq<Entry>, last: Option<Bytes>, ys: seq<Entry>, last': Option<Bytes>, o: Outcome)
    ensures Combine(xs, last, Combine(ys, last', o)) == Combine(xs + ys, if last'.Some? then last' else last, o)
  {
    assert xs + (ys + o.entries) == xs + ys + o.entries;
  }

  lemma CombineEnd(entries: seq<Entry>, last: Option<Bytes>)
    ensures Combine(entries, last, Outcome([], None, [], End)) == Outcome(entries, last, [], End)
  {
    assert entries + [] == entries;
  }

  lemma ListedIntro(s: Store, q: Query, limit: nat, cursor: Option<Bytes>, o: Outcome,
                    entries: seq<Entry>, last: Option<Bytes>, more: bool)
    requires limit > 0 && (cursor.Some? ==> |cursor.value| < MAX_LEN) && Short(Todo(s, q.id, cursor))
    requires Short(Scan(s, StartKey(q.id, cursor), Some(BlockEnd(q.id))))
    requires o == Pass(q, Todo(s, q.id, cursor), PageSize(limit), false)
    requires entries == o.entries && last == o.last
    requires var start := StartKey(q.id, cursor);
             var all := Scan(s, start, Some(BlockEnd(q.id)));
             more == More(q, all, Skips(all, start, cursor), PageSize(limit), false)
    ensures Listed(s, q, limit, cursor, entries, if more then last else None)
  {
    hide Pass, Todo, More, Scan;
  }

  lemma {:induction false} FullHasLast(q: Query, todo: seq<Pair>, n: nat, seen: bool)
    requires n > 0 && Short(todo)
    ensures Pass(q, todo, n, seen).stop == Full ==> Pass(q, todo, n, seen).last.Some?
    decreases |todo|
  {
    hide Miss, Hit, KeyOf;
    if todo != [] {
      FullHasLast(q, todo[1..], n, seen);
      FullHasLast(q, todo[1..], n, true);
      FullHasLast(q, todo[1..], n, false);
      if n > 1 {
        FullHasLast(q, todo[1..], n - 1, true);
      }
    }
  }

  lemma CombineNothing(o: Outcome)
    ensures Combine([], None, o) == o
  {
    assert [] + o.entries == o.entries;
  }

  lemma PassNothing(q: Query, n: nat, seen: bool)
    requires n > 0
    ensures Pass(q, [], n, seen) == Outcome([], None, [], End)
  {
  }

  lemma ScanShort(s: Store, lo: Bytes, hi: Bytes)
    requires Parseable(s)
    ensures Short(Scan(s, lo, Some(hi)))
  {
    hide Parse;
  }

  lemma SkipShort(all: seq<Pair>, start: Bytes, cursor: Option<Bytes>)
    requires Short(all)
    ensures Short(Skip(all, start, cursor))
  {
  }
}
