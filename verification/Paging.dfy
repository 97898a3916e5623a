/** Reading a key range page by page, resuming each time from the cursor that
    the previous page returned. */
module Paging {
  import opened Bytes
  import opened Collections
  import opened OrderedStore

  /** One page: at most `limit` pairs, and the first key that did not fit. */
  function Page(m: Store, start: Bytes, end: Bytes, limit: Option<nat>): (r: (seq<Pair>, Option<Bytes>)) {
    var all := Scan(m, start, Some(end));
    if limit.Some? && |all| > limit.value
    then (all[..limit.value], Some(all[limit.value].0))
    else (all, None)
  }

  /** What a reader has after fetching a page from each store in turn: the pairs
      of all pages, and the cursor still to be followed. `ms` gives, for every
      page, the store as it is then and the page's limit. */
  function Run(ms: seq<(Store, nat)>, start: Bytes, end: Bytes): (r: (seq<Pair>, Option<Bytes>)) {
    if ms == [] then ([], Some(start))
    else
      var (page, next) := Page(ms[0].0, start, end, Some(ms[0].1));
      if next.None? then (page, None)
      else
        var (rest, cursor) := Run(ms[1..], next.value, end);
        (page + rest, cursor)
  }

  /** Up to where a run has read. */
  function ReadUpTo(cursor: Option<Bytes>, end: Bytes): (hi: Bytes) {
    if cursor.Some? then cursor.value else end
  }

  /** The page is the listing of the store up to the returned cursor. */
  lemma PageLists(m: Store, start: Bytes, end: Bytes, limit: nat)
    requires limit >= 1
    ensures var (page, next) := Page(m, start, end, Some(limit));
            && Lists(page, m, start, Some(ReadUpTo(next, end)))
            && (next.Some? ==> Less(start, next.value) && Less(next.value, end))
            && |page| == Min(limit, |Scan(m, start, Some(end))|)
  {
    var all := Scan(m, start, Some(end));
    if |all| > limit {
      var cut := all[limit].0;
      forall k | k in m && Within(k, start, Some(cut)) ensures (k, m[k]) in all[..limit] {
        LessTransitive(k, cut, end);
        var i :| 0 <= i < |all| && all[i] == (k, m[k]);
        if i > limit {
          LessAsymmetric(k, cut);
        } else if i == limit {
          LessIrreflexive(k);
        }
        assert all[..limit][i] == (k, m[k]);
      }
      assert all[..limit][0] == all[0];
      if start != all[0].0 {
        LessTransitive(start, all[0].0, cut);
      }
    }
  }

  ghost predicate InEvery(k: Bytes, ms: seq<(Store, nat)>) {
    forall i :: 0 <= i < |ms| ==> k in ms[i].0
  }

  ghost predicate FromSome(p: Pair, ms: seq<(Store, nat)>) {
    exists i :: 0 <= i < |ms| && p.0 in ms[i].0 && ms[i].0[p.0] == p.1
  }

  ghost predicate ListsKey(s: seq<Pair>, k: Bytes) {
    exists i :: 0 <= i < |s| && s[i].0 == k
  }

  /** The outcome of a run over changing stores: the pages never repeat a key,
      hold only pairs that some store had, and miss no key that was there all
      along in the part read so far. */
  ghost predicate ReadsRange(r: (seq<Pair>, Option<Bytes>), ms: seq<(Store, nat)>, start: Bytes, end: Bytes) {
    && Ascending(r.0)
    && (forall i :: 0 <= i < |r.0| ==> Within(r.0[i].0, start, Some(ReadUpTo(r.1, end))) && FromSome(r.0[i], ms))
    && (forall k :: Within(k, start, Some(ReadUpTo(r.1, end))) && InEvery(k, ms) ==> ListsKey(r.0, k))
    && Leq(start, ReadUpTo(r.1, end))
  }

  lemma {:induction false} RunReadsRange(ms: seq<(Store, nat)>, start: Bytes, end: Bytes)
    requires forall i :: 0 <= i < |ms| ==> ms[i].1 >= 1
    requires Leq(start, end)
    ensures ReadsRange(Run(ms, start, end), ms, start, end)
    decreases |ms|
  {
    if ms == [] {
      forall k | Within(k, start, Some(start)) ensures false {
        LessAsymmetricLeq(start, k);
      }
    } else {
      var (page, next) := Page(ms[0].0, start, end, Some(ms[0].1));
      PageLists(ms[0].0, start, end, ms[0].1);
      if next.None? {
        FirstPageOnly(ms, page, start, end);
      } else {
        RunReadsRange(ms[1..], next.value, end);
        var r := Run(ms[1..], next.value, end);
        JoinPages(ms, page, next.value, r, start, end);
      }
    }
  }

  /** The pages of a run, one by one. */
  function Pages(ms: seq<(Store, nat)>, start: Bytes, end: Bytes): (pages: seq<seq<Pair>>)
    ensures |pages| <= |ms|
  {
    if ms == [] then []
    else
      var (page, next) := Page(ms[0].0, start, end, Some(ms[0].1));
      if next.None? then [page] else [page] + Pages(ms[1..], next.value, end)
  }

  function Concat(pages: seq<seq<Pair>>): (s: seq<Pair>) {
    if pages == [] then [] else pages[0] + Concat(pages[1..])
  }

  ghost predicate AllFrom(page: seq<Pair>, m: Store) {
    forall j | 0 <= j < |page| :: page[j].0 in m && m[page[j].0] == page[j].1
  }

  /** What a run has read is its pages one after the other, and every pair of a page is one
      that the store had when that page was read. */
  lemma {:induction false} PagesAreOwn(ms: seq<(Store, nat)>, start: Bytes, end: Bytes)
    ensures Concat(Pages(ms, start, end)) == Run(ms, start, end).0
    ensures forall i | 0 <= i < |Pages(ms, start, end)| :: AllFrom(Pages(ms, start, end)[i], ms[i].0)
    decreases |ms|
  {
    if ms != [] {
      var (page, next) := Page(ms[0].0, start, end, Some(ms[0].1));
      assert AllFrom(page, ms[0].0);
      if next.Some? {
        PagesAreOwn(ms[1..], next.value, end);
        var rest := Pages(ms[1..], next.value, end);
        assert Pages(ms, start, end)[1..] == rest;
        forall i | 0 <= i < |rest| + 1 ensures AllFrom(([page] + rest)[i], ms[i].0) {
          if i > 0 { assert ms[1..][i - 1] == ms[i]; }
        }
      } else {
        assert Concat([page]) == page + Concat([]);
      }
    }
  }

  lemma LessAsymmetricLeq(a: Bytes, b: Bytes)
    requires Leq(a, b)
    ensures !Less(b, a)
  {
    if Less(b, a) {
      LessAsymmetric(b, a);
    }
  }

  lemma FirstPageOnly(ms: seq<(Store, nat)>, page: seq<Pair>, start: Bytes, end: Bytes)
    requires ms != [] && Lists(page, ms[0].0, start, Some(end)) && Leq(start, end)
    ensures ReadsRange((page, None), ms, start, end)
  {
    forall k | Within(k, start, Some(end)) && InEvery(k, ms) ensures ListsKey(page, k) {
      assert k in ms[0].0;
      assert (k, ms[0].0[k]) in page;
    }
  }

  lemma JoinPages(ms: seq<(Store, nat)>, page: seq<Pair>, mid: Bytes, r: (seq<Pair>, Option<Bytes>), start: Bytes, end: Bytes)
    requires ms != [] && Lists(page, ms[0].0, start, Some(mid)) && Less(start, mid)
    requires ReadsRange(r, ms[1..], mid, end)
    ensures ReadsRange((page + r.0, r.1), ms, start, end)
  {
    var hi := ReadUpTo(r.1, end);
    var all := page + r.0;
    forall i, j | 0 <= i < |page| && 0 <= j < |r.0| ensures Less(page[i].0, r.0[j].0) {
      LessLeq(page[i].0, mid, r.0[j].0);
    }
    AscendingAppend(page, r.0);
    LessLeq(start, mid, hi);
    forall i | 0 <= i < |all| ensures Within(all[i].0, start, Some(hi)) && FromSome(all[i], ms) {
      if i < |page| {
        LessLeq(all[i].0, mid, hi);
        assert all[i].0 in ms[0].0 && ms[0].0[all[i].0] == all[i].1;
      } else {
        var p := r.0[i - |page|];
        assert all[i] == p && FromSome(p, ms[1..]);
        var n :| 0 <= n < |ms[1..]| && p.0 in ms[1..][n].0 && ms[1..][n].0[p.0] == p.1;
        assert ms[n + 1] == ms[1..][n];
        LessLeq(start, mid, p.0);
      }
    }
    forall k | Within(k, start, Some(hi)) && InEvery(k, ms) ensures ListsKey(all, k) {
      LessTotal(k, mid);
      if Less(k, mid) {
        assert k in ms[0].0;
        var i :| 0 <= i < |page| && page[i] == (k, ms[0].0[k]);
        assert all[i].0 == k;
      } else {
        assert InEvery(k, ms[1..]);
        var i :| 0 <= i < |r.0| && r.0[i].0 == k;
        assert all[|page| + i].0 == k;
      }
    }
  }

  lemma LessLeq(a: Bytes, b: Bytes, c: Bytes)
    requires Less(a, b) && Leq(b, c)
    ensures Less(a, c)
  {
    if b != c {
      LessTransitive(a, b, c);
    }
  }

  /** A finished run over changing stores: no key comes twice, and every key of
      the range that is present throughout comes exactly once. */
  lemma PagingIsExact(ms: seq<(Store, nat)>, start: Bytes, end: Bytes, k: Bytes)
    requires forall i :: 0 <= i < |ms| ==> ms[i].1 >= 1
    requires Leq(start, end) && Run(ms, start, end).1.None?
    requires Within(k, start, Some(end)) && InEvery(k, ms)
    ensures var r := Run(ms, start, end).0;
            exists i :: 0 <= i < |r| && r[i].0 == k && forall j :: 0 <= j < |r| && r[j].0 == k ==> j == i
  {
    RunReadsRange(ms, start, end);
    var r := Run(ms, start, end).0;
    assert ListsKey(r, k);
    var i :| 0 <= i < |r| && r[i].0 == k;
    forall j | 0 <= j < |r| && r[j].0 == k ensures j == i {
      ListedOnce(r, i, j);
    }
  }

  // ----- an unchanging store -----

  lemma ScanTail(m: Store, start: Bytes, end: Bytes, n: nat)
    requires n < |Scan(m, start, Some(end))|
    ensures Scan(m, Scan(m, start, Some(end))[n].0, Some(end)) == Scan(m, start, Some(end))[n..]
  {
    var all := Scan(m, start, Some(end));
    var tail, cut := all[n..], all[n].0;
    forall k | k in m && Within(k, cut, Some(end)) ensures (k, m[k]) in tail {
      if start != cut && cut != k {
        LessTransitive(start, cut, k);
      }
      var i :| 0 <= i < |all| && all[i] == (k, m[k]);
      if i < n {
        LessAsymmetricLeq(cut, k);
      }
      assert tail[i - n] == (k, m[k]);
    }
    ListsUnique(tail, Scan(m, cut, Some(end)), m, cut, Some(end));
  }

  /** Without changes the pages are the scan cut into pieces, and reading ends
      after at most one page more than there are keys. */
  lemma {:induction false} ConstantRun(ms: seq<(Store, nat)>, m: Store, start: Bytes, end: Bytes)
    requires forall i :: 0 <= i < |ms| ==> ms[i].0 == m && ms[i].1 >= 1
    ensures var (pairs, cursor) := Run(ms, start, end);
            && (cursor.None? ==> pairs == Scan(m, start, Some(end)))
            && (cursor.Some? ==> pairs + Scan(m, cursor.value, Some(end)) == Scan(m, start, Some(end)))
            && (|ms| > |Scan(m, start, Some(end))| ==> cursor.None?)
    decreases |ms|
  {
    hide Scan, Lists;
    if ms != [] {
      var all := Scan(m, start, Some(end));
      var n := ms[0].1;
      assert Page(ms[0].0, start, end, Some(n)) == if |all| > n then (all[..n], Some(all[n].0)) else (all, None);
      if |all| > n {
        ScanTail(m, start, end, n);
        ConstantRun(ms[1..], m, all[n].0, end);
        var (rest, cursor) := Run(ms[1..], all[n].0, end);
        assert all == all[..n] + all[n..];
        if cursor.Some? {
          var left := Scan(m, cursor.value, Some(end));
          assert all[..n] + (rest + left) == all[..n] + rest + left;
        }
      }
    } else {
      assert [] + Scan(m, start, Some(end)) == Scan(m, start, Some(end));
    }
  }

  /** With limit 0 and anything left to read, the first page is empty and its
      cursor is a fixed point: resuming never gets past it. */
  lemma LimitZeroIsStuck(m: Store, start: Bytes, end: Bytes)
    requires Scan(m, start, Some(end)) != []
    ensures var (page, next) := Page(m, start, end, Some(0));
            page == [] && next.Some? && Page(m, next.value, end, Some(0)) == (page, next)
  {
    ScanTail(m, start, end, 0);
  }
}
