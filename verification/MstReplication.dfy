/** Replication by exchanging pages of entries: replicas merge what they fetch from each
    other, in any order, late and more than once. */
module MstReplication {
  import opened Bytes
  import opened Collections

  type Key = Bytes

  /** A stored entry: its extracted timestamp, and everything else. */
  datatype Entry = Entry(time: nat, data: Bytes)

  type Store = map<Key, Entry>

  /** Last writer wins, or the shard's default of always taking the remote entry. */
  datatype Policy = LastWriterWins | TakeRemote

  function Merge(p: Policy, local: Entry, remote: Entry, node: nat): (r: Entry) {
    if p.TakeRemote? then remote
    else if remote.time > local.time then remote
    else if remote.time < local.time then local
    else if node % 2 == 0 then remote
    else local
  }

  // ----- one replica -----

  /** Merging fetched items into a store. */
  function Merged(p: Policy, local: Store, items: Store, node: nat): (r: Store) {
    map k | k in local.Keys + items.Keys ::
      if k !in items then local[k]
      else if k !in local then items[k]
      else Merge(p, local[k], items[k], node)
  }

  /** An inclusive range of keys. */
  datatype Page = Page(first: Key, last: Key)

  predicate InPage(page: Page, k: Key) {
    !SliceLess(k, page.first) && !SliceLess(page.last, k)
  }

  predicate InPages(pages: seq<Page>, k: Key) {
    exists i | 0 <= i < |pages| :: InPage(pages[i], k)
  }

  function Selected(store: Store, pages: seq<Page>): (r: Store) {
    map k | k in store && InPages(pages, k) :: store[k]
  }

  /** The key is between the bounds of some page, bounds included. */
  ghost predicate Requested(pages: seq<Page>, k: Key) {
    exists i | 0 <= i < |pages| :: Leq(pages[i].first, k) && Leq(k, pages[i].last)
  }

  lemma RequestedIs(pages: seq<Page>, k: Key)
    ensures InPages(pages, k) <==> Requested(pages, k)
  {
    forall i | 0 <= i < |pages| ensures InPage(pages[i], k) <==> Leq(pages[i].first, k) && Leq(k, pages[i].last) {
      NotLess(k, pages[i].first);
      NotLess(pages[i].last, k);
    }
    hide InPage, Leq;
  }

  lemma NotLess(a: Key, b: Key)
    ensures !Less(a, b) <==> Leq(b, a)
  {
    LessTotal(a, b);
    if Less(b, a) { LessAsymmetric(b, a); }
    LessIrreflexive(a);
  }

  /** Answer a page request. */
  method HandleRequest(store: Store, pages: seq<Page>) returns (items: Store)
    ensures items == Selected(store, pages)
    ensures forall k :: k in items <==> k in store && Requested(pages, k)
    ensures forall k | k in items :: items[k] == store[k]
  {
    forall k ensures InPages(pages, k) <==> Requested(pages, k) {
      RequestedIs(pages, k);
    }
    hide InPage, Requested;
    items := map[];
    for i := 0 to |pages|
      invariant items == Selected(store, pages[..i])
    {
      ghost var before := items;
      items := AddPage(store, pages[i], items);
      forall k ensures InPages(pages[..i + 1], k) <==> InPages(pages[..i], k) || InPage(pages[i], k) {
        InPagesNext(pages, i, k);
      }
      hide InPages;
      assert items == Selected(store, pages[..i + 1]);
    }
    assert pages[..|pages|] == pages;
  }

  /** One page's pass over the whole store. */
  method AddPage(store: Store, page: Page, before: Store) returns (items: Store)
    requires forall k | k in before :: k in store && before[k] == store[k]
    ensures items == map k | k in store && (k in before || InPage(page, k)) :: store[k]
  {
    hide InPage;
    items := before;
    var todo := store.Keys;
    while todo != {}
      invariant todo <= store.Keys
      invariant items == map k | k in store && (k in before || (InPage(page, k) && k !in todo)) :: store[k]
      decreases |todo|
    {
      var k :| k in todo;
      if InPage(page, k) {
        items := items[k := store[k]];
      }
      todo := todo - {k};
    }
  }

  lemma InPagesNext(pages: seq<Page>, i: nat, k: Key)
    requires i < |pages|
    ensures InPages(pages[..i + 1], k) <==> InPages(pages[..i], k) || InPage(pages[i], k)
  {
    hide InPage;
    if InPages(pages[..i], k) {
      var j :| 0 <= j < i && InPage(pages[..i][j], k);
      assert InPage(pages[..i + 1][j], k);
    }
    if InPage(pages[i], k) {
      assert InPage(pages[..i + 1][i], k);
    }
  }

  class Replica {
    const policy: Policy
    const shard: nat
    const node: nat
    var store: Store

    /** A local write is merged as a fetched entry is, but with the shard's id for ties. */
    method SetRaw(k: Key, e: Entry)
      modifies this
      ensures store == Merged(policy, old(store), map[k := e], shard)
    {
      var final := e;
      if k in store {
        final := Merge(policy, store[k], e, shard);
      }
      store := store[k := final];
    }

    /** Only the store forgets the key. */
    method DeleteRaw(k: Key)
      modifies this
      ensures store == old(store) - {k}
    {
      store := store - {k};
    }

    /** The loop that merges a page response. */
    method MergeItems(items: Store)
      modifies this
      ensures store == Merged(policy, old(store), items, node)
    {
      store := MergeLoop(policy, store, items, node);
    }
  }

  lemma MergedAt(p: Policy, local: Store, items: Store, node: nat, k: Key)
    ensures k in Merged(p, local, items, node) <==> k in local || k in items
    ensures k in items ==>
              Merged(p, local, items, node)[k] == if k in local then Merge(p, local[k], items[k], node) else items[k]
    ensures k in local && k !in items ==> Merged(p, local, items, node)[k] == local[k]
  {
  }

  /** Where the loop stands: merged outside `todo`, untouched inside it. */
  ghost predicate Partly(local: Store, items: Store, goal: Store, todo: set<Key>, r: Store) {
    && (forall k | k in todo :: k in items && (k in r <==> k in local) && (k in local ==> r[k] == local[k]))
    && (forall k | k !in todo :: (k in r <==> k in goal) && (k in goal ==> r[k] == goal[k]))
  }

  method MergeLoop(p: Policy, local: Store, items: Store, node: nat) returns (r: Store)
    ensures r == Merged(p, local, items, node)
  {
    hide Merge, Merged;
    ghost var goal := Merged(p, local, items, node);
    r := local;
    var todo := items.Keys;
    assert Partly(local, items, goal, todo, r) by {
      forall k ensures k !in items ==> (k in local <==> k in goal) && (k in goal ==> local[k] == goal[k]) {
        MergedAt(p, local, items, node, k);
      }
    }
    while todo != {}
      invariant Partly(local, items, goal, todo, r)
      decreases |todo|
    {
      var k :| k in todo;
      MergedAt(p, local, items, node, k);
      var final := items[k];
      if k in r {
        final := Merge(p, r[k], items[k], node);
      }
      r := r[k := final];
      todo := todo - {k};
    }
  }

  // ----- what a set of writes amounts to -----

  datatype Write = Write(key: Key, entry: Entry)

  /** No two different entries for one key carry the same timestamp. */
  ghost predicate NoTies(w: set<Write>) {
    forall a, b | a in w && b in w && a.key == b.key && a.entry.time == b.entry.time :: a == b
  }

  /** The store holds, for each written key, an entry with the greatest timestamp. */
  ghost predicate Represents(w: set<Write>, s: Store) {
    && (forall k | k in s :: Write(k, s[k]) in w)
    && (forall a | a in w :: a.key in s && a.entry.time <= s[a.key].time)
  }

  lemma RepresentsUnique(w: set<Write>, s: Store, t: Store)
    requires NoTies(w) && Represents(w, s) && Represents(w, t)
    ensures s == t
  {
    forall k | k in s ensures k in t && s[k] == t[k] {
      assert Write(k, s[k]) in w;
      assert Write(k, t[k]) in w;
    }
    forall k | k in t ensures k in s {
      assert Write(k, t[k]) in w;
    }
  }

  /** Merging two stores gives the winners of all their writes. */
  lemma MergeRepresents(v: set<Write>, s: Store, w: set<Write>, t: Store, node: nat)
    requires Represents(v, s) && Represents(w, t)
    ensures Represents(v + w, Merged(LastWriterWins, s, t, node))
  {
    var r := Merged(LastWriterWins, s, t, node);
    forall k | k in r ensures Write(k, r[k]) in v + w {
      if k in s { assert Write(k, s[k]) in v; }
      if k in t { assert Write(k, t[k]) in w; }
    }
  }

  function Within(w: set<Write>, pages: seq<Page>): (r: set<Write>) {
    set a | a in w && InPages(pages, a.key)
  }

  lemma SelectRepresents(w: set<Write>, s: Store, pages: seq<Page>)
    requires Represents(w, s)
    ensures Represents(Within(w, pages), Selected(s, pages))
  {
    hide InPages;
  }

  function Without(w: set<Write>, k: Key): (r: set<Write>) {
    set a | a in w && a.key != k
  }

  lemma DeleteRepresents(w: set<Write>, s: Store, k: Key)
    requires Represents(w, s)
    ensures Represents(Without(w, k), s - {k})
  {
  }

  // ----- the cluster -----

  /** A client writes, under the shard id of the replica, or deletes at a node; a node answers
      a page request, its answer joining those under way; a node merges one of the answers,
      which is then used up. */
  datatype Op =
    | Put(node: nat, shard: nat, write: Write)
    | Delete(node: nat, key: Key)
    | Fetch(node: nat, pages: seq<Page>)
    | Pull(node: nat, answer: nat)

  datatype Cluster = Cluster(stores: map<nat, Store>, answers: seq<Store>)

  function StoreOf(c: Cluster, n: nat): (s: Store) {
    if n in c.stores then c.stores[n] else map[]
  }

  function Step(p: Policy, c: Cluster, op: Op): (r: Cluster) {
    match op
    case Put(n, shard, w) => c.(stores := c.stores[n := Merged(p, StoreOf(c, n), map[w.key := w.entry], shard)])
    case Delete(n, k) => c.(stores := c.stores[n := StoreOf(c, n) - {k}])
    case Fetch(n, pages) => c.(answers := c.answers + [Selected(StoreOf(c, n), pages)])
    case Pull(n, i) =>
      if i < |c.answers|
      then Cluster(c.stores[n := Merged(p, StoreOf(c, n), c.answers[i], n)], c.answers[i := map[]])
      else c
  }

  const START := Cluster(map[], [])

  function Run(p: Policy, ops: seq<Op>): (c: Cluster) {
    if ops == [] then START else Step(p, Run(p, ops[..|ops| - 1]), ops[|ops| - 1])
  }

  lemma RunNext(p: Policy, ops: seq<Op>, op: Op)
    ensures Run(p, ops + [op]) == Step(p, Run(p, ops), op)
  {
    assert (ops + [op])[..|ops|] == ops;
  }

  // ----- who has heard of what, with no merging at all -----

  datatype Account = Account(known: map<nat, set<Write>>, carried: seq<set<Write>>)

  function KnownTo(a: Account, n: nat): (w: set<Write>) {
    if n in a.known then a.known[n] else {}
  }

  function Tell(a: Account, op: Op): (r: Account) {
    match op
    case Put(n, _, w) => a.(known := a.known[n := KnownTo(a, n) + {w}])
    case Delete(n, k) => a.(known := a.known[n := Without(KnownTo(a, n), k)])
    case Fetch(n, pages) => a.(carried := a.carried + [Within(KnownTo(a, n), pages)])
    case Pull(n, i) =>
      if i < |a.carried| then Account(a.known[n := KnownTo(a, n) + a.carried[i]], a.carried[i := {}]) else a
  }

  function Heard(ops: seq<Op>): (a: Account) {
    if ops == [] then Account(map[], []) else Tell(Heard(ops[..|ops| - 1]), ops[|ops| - 1])
  }

  ghost predicate Agrees(c: Cluster, a: Account) {
    && (forall n :: Represents(KnownTo(a, n), StoreOf(c, n)))
    && |a.carried| == |c.answers|
    && (forall i | 0 <= i < |c.answers| :: Represents(a.carried[i], c.answers[i]))
  }

  lemma StepAgrees(c: Cluster, a: Account, op: Op)
    requires Agrees(c, a)
    ensures Agrees(Step(LastWriterWins, c, op), Tell(a, op))
  {
    hide Represents, Merged, Selected, Within, Without;
    assert Represents(KnownTo(a, op.node), StoreOf(c, op.node));
    match op
    case Put(n, shard, w) =>
      SingleRepresents(w);
      MergeRepresents(KnownTo(a, n), StoreOf(c, n), {w}, map[w.key := w.entry], shard);
      AgreesAt(c, a, n, Step(LastWriterWins, c, op), Tell(a, op));
    case Delete(n, k) =>
      DeleteRepresents(KnownTo(a, n), StoreOf(c, n), k);
      AgreesAt(c, a, n, Step(LastWriterWins, c, op), Tell(a, op));
    case Fetch(n, pages) =>
      SelectRepresents(KnownTo(a, n), StoreOf(c, n), pages);
      assert forall x :: StoreOf(Step(LastWriterWins, c, op), x) == StoreOf(c, x) && KnownTo(Tell(a, op), x) == KnownTo(a, x);
    case Pull(n, i) =>
      if i < |c.answers| {
        MergeRepresents(KnownTo(a, n), StoreOf(c, n), a.carried[i], c.answers[i], n);
        NothingRepresents();
        UsedUp(c, a, i);
        AgreesAt(c.(answers := c.answers[i := map[]]), a.(carried := a.carried[i := {}]), n,
                 Step(LastWriterWins, c, op), Tell(a, op));
      }
  }

  /** Only node `n` has changed. */
  lemma AgreesAt(c: Cluster, a: Account, n: nat, c': Cluster, a': Account)
    requires Agrees(c, a)
    requires c'.answers == c.answers && a'.carried == a.carried
    requires forall x | x != n :: StoreOf(c', x) == StoreOf(c, x) && KnownTo(a', x) == KnownTo(a, x)
    requires Represents(KnownTo(a', n), StoreOf(c', n))
    ensures Agrees(c', a')
  {
    hide Represents, StoreOf, KnownTo;
    forall x ensures Represents(KnownTo(a', x), StoreOf(c', x)) {
      assert Represents(KnownTo(a, x), StoreOf(c, x));
    }
  }

  lemma NothingRepresents()
    ensures Represents({}, map[])
  {
  }

  /** An answer that has been merged counts for nothing more. */
  lemma UsedUp(c: Cluster, a: Account, i: nat)
    requires Agrees(c, a) && i < |c.answers|
    ensures Agrees(c.(answers := c.answers[i := map[]]), a.(carried := a.carried[i := {}]))
  {
    NothingRepresents();
    hide Represents;
    var c', a' := c.(answers := c.answers[i := map[]]), a.(carried := a.carried[i := {}]);
    assert forall n :: StoreOf(c', n) == StoreOf(c, n) && KnownTo(a', n) == KnownTo(a, n);
  }

  lemma SingleRepresents(w: Write)
    ensures Represents({w}, map[w.key := w.entry])
  {
  }

  /** Under last writer wins, over every run of writes, deletes, fetches and merges, each
      replica holds winners of exactly the writes it has heard of and not deleted since. */
  lemma {:induction false} RunAgrees(ops: seq<Op>)
    ensures Agrees(Run(LastWriterWins, ops), Heard(ops))
  {
    if ops == [] {
      NothingRepresents();
    } else {
      RunAgrees(ops[..|ops| - 1]);
      StepAgrees(Run(LastWriterWins, ops[..|ops| - 1]), Heard(ops[..|ops| - 1]), ops[|ops| - 1]);
    }
  }

  /** Main result: replicas that have heard of the same writes hold the same entries,
      whatever the order, delay and repetition of the exchanges, unless timestamps tie. */
  lemma SameWritesSameStore(ops: seq<Op>, n: nat, m: nat)
    requires KnownTo(Heard(ops), n) == KnownTo(Heard(ops), m)
    requires NoTies(KnownTo(Heard(ops), n))
    ensures StoreOf(Run(LastWriterWins, ops), n) == StoreOf(Run(LastWriterWins, ops), m)
  {
    RunAgrees(ops);
    RepresentsUnique(KnownTo(Heard(ops), n), StoreOf(Run(LastWriterWins, ops), n), StoreOf(Run(LastWriterWins, ops), m));
  }

  /** Both sides of a full exchange have heard of everything either had. */
  lemma ExchangeTellsAll(a: Account, n: nat, m: nat, pages: seq<Page>)
    requires n != m
    requires forall w | w in KnownTo(a, n) + KnownTo(a, m) :: InPages(pages, w.key)
    ensures var i := |a.carried|;
            var b := Tell(Tell(Tell(Tell(a, Fetch(m, pages)), Pull(n, i)), Fetch(n, pages)), Pull(m, i + 1));
            KnownTo(b, n) == KnownTo(b, m) == KnownTo(a, n) + KnownTo(a, m)
  {
    hide InPages;
    var i := |a.carried|;
    var both := KnownTo(a, n) + KnownTo(a, m);
    assert Within(KnownTo(a, m), pages) == KnownTo(a, m);
    assert Within(both, pages) == both;
    hide Within;
    var a1 := Tell(a, Fetch(m, pages));
    assert KnownTo(a1, n) == KnownTo(a, n) && KnownTo(a1, m) == KnownTo(a, m);
    var a2 := Tell(a1, Pull(n, i));
    assert KnownTo(a2, n) == both && KnownTo(a2, m) == KnownTo(a, m);
    var a3 := Tell(a2, Fetch(n, pages));
    assert a3.carried[i + 1] == both;
    assert KnownTo(a, m) + both == both;
  }

  /** From any reachable state, one exchange of everything in both directions makes two
      replicas equal. */
  lemma ExchangeConverges(ops: seq<Op>, n: nat, m: nat, pages: seq<Page>)
    requires n != m
    requires forall w | w in KnownTo(Heard(ops), n) + KnownTo(Heard(ops), m) :: InPages(pages, w.key)
    requires NoTies(KnownTo(Heard(ops), n) + KnownTo(Heard(ops), m))
    ensures var i := |Run(LastWriterWins, ops).answers|;
            var c := Run(LastWriterWins, ops + [Fetch(m, pages)] + [Pull(n, i)] + [Fetch(n, pages)] + [Pull(m, i + 1)]);
            StoreOf(c, n) == StoreOf(c, m)
  {
    hide *;
    SameCount(ops);
    ExchangeTellsAll(Heard(ops), n, m, pages);
    var i := |Heard(ops).carried|;
    var o1, o2, o3, o4 := Fetch(m, pages), Pull(n, i), Fetch(n, pages), Pull(m, i + 1);
    HeardNext(ops, o1);
    HeardNext(ops + [o1], o2);
    HeardNext(ops + [o1] + [o2], o3);
    HeardNext(ops + [o1] + [o2] + [o3], o4);
    SameWritesSameStore(ops + [o1] + [o2] + [o3] + [o4], n, m);
  }

  lemma SameCount(ops: seq<Op>)
    ensures |Run(LastWriterWins, ops).answers| == |Heard(ops).carried|
  {
    RunAgrees(ops);
  }

  lemma HeardNext(ops: seq<Op>, op: Op)
    ensures Heard(ops + [op]) == Tell(Heard(ops), op)
  {
    assert (ops + [op])[..|ops|] == ops;
  }

  // ----- ties, and the default policy -----

  /** One replica fetches and merges, then the other: they agree on a key both hold exactly
      when the entries are equal, or their timestamps differ, or not both node ids are odd. */
  lemma ExchangeAgreesIff(x: Entry, y: Entry, n: nat, m: nat)
    ensures var x' := Merge(LastWriterWins, x, y, n);
            var y' := Merge(LastWriterWins, y, x', m);
            x' == y' <==> x == y || x.time != y.time || n % 2 == 0 || m % 2 == 0
  {
  }

  /** Both fetch before either merges: now the parities must differ. */
  lemma CrossingAgreesIff(x: Entry, y: Entry, n: nat, m: nat)
    ensures Merge(LastWriterWins, x, y, n) == Merge(LastWriterWins, y, x, m)
            <==> x == y || x.time != y.time || n % 2 != m % 2
  {
  }

  /** The entries of two replicas after `rounds` crossing exchanges. */
  function Crossing(p: Policy, x: Entry, y: Entry, n: nat, m: nat, rounds: nat): (r: (Entry, Entry)) {
    if rounds == 0 then (x, y)
    else
      var (a, b) := Crossing(p, x, y, n, m, rounds - 1);
      (Merge(p, a, b, n), Merge(p, b, a, m))
  }

  /** Under the default policy crossing exchanges swap the entries for ever; under last
      writer wins a tie does the same on even ids and stays put on odd ones. */
  lemma {:induction false} CrossingNeverSettles(p: Policy, x: Entry, y: Entry, n: nat, m: nat, rounds: nat)
    requires x != y
    requires p.TakeRemote? || (x.time == y.time && n % 2 == m % 2)
    ensures Crossing(p, x, y, n, m, rounds)
            == if rounds % 2 == 1 && (p.TakeRemote? || n % 2 == 0) then (y, x) else (x, y)
  {
    if rounds > 0 {
      CrossingNeverSettles(p, x, y, n, m, rounds - 1);
    }
  }

  // ----- deletes -----

  /** Another replica, or an answer under way, has the key. */
  ghost predicate HeldElsewhere(c: Cluster, n: nat, k: Key) {
    || (exists m: nat | m != n :: k in StoreOf(c, m))
    || (exists i | 0 <= i < |c.answers| :: k in c.answers[i])
  }

  predicate NeverPut(ops: seq<Op>, k: Key) {
    forall op | op in ops :: op.Put? ==> op.write.key != k
  }

  ghost predicate Gone(c: Cluster, k: Key) {
    && (forall m: nat :: k !in StoreOf(c, m))
    && (forall i | 0 <= i < |c.answers| :: k !in c.answers[i])
  }

  lemma StepStaysGone(p: Policy, c: Cluster, op: Op, k: Key)
    requires Gone(c, k) && (op.Put? ==> op.write.key != k)
    ensures Gone(Step(p, c, op), k)
  {
    hide Merged, InPages;
    var c' := Step(p, c, op);
    assert k !in StoreOf(c, op.node);
    assert forall m: nat | m != op.node :: StoreOf(c', m) == StoreOf(c, m);
    match op
    case Put(n, shard, w) => MergedAt(p, StoreOf(c, n), map[w.key := w.entry], shard, k);
    case Delete(_, _) =>
    case Fetch(n, pages) => SelectedAt(StoreOf(c, n), pages, k);
    case Pull(n, i) => if i < |c.answers| { MergedAt(p, StoreOf(c, n), c.answers[i], n, k); }
  }

  lemma {:induction false} RunStaysGone(p: Policy, ops: seq<Op>, more: seq<Op>, k: Key)
    requires Gone(Run(p, ops), k) && NeverPut(more, k)
    ensures Gone(Run(p, ops + more), k)
    decreases |more|
  {
    hide Gone, Step;
    if more == [] {
      assert ops + more == ops;
    } else {
      var n := |more| - 1;
      RunStaysGone(p, ops, more[..n], k);
      assert ops + more == ops + more[..n] + [more[n]];
      RunNext(p, ops + more[..n], more[n]);
      StepStaysGone(p, Run(p, ops + more[..n]), more[n], k);
    }
  }

  lemma DeleteLeavesGone(p: Policy, c: Cluster, n: nat, k: Key)
    requires !HeldElsewhere(c, n, k)
    ensures Gone(Step(p, c, Delete(n, k)), k)
  {
    var c' := Step(p, c, Delete(n, k));
    forall m: nat ensures k !in StoreOf(c', m) {
      if m != n { assert StoreOf(c', m) == StoreOf(c, m); }
    }
  }

  lemma OwnPage(k: Key)
    ensures InPages([Page(k, k)], k)
  {
    LessIrreflexive(k);
    assert InPage([Page(k, k)][0], k);
  }

  /** A fetch of the one key and a pull bring it back from a replica that has it. */
  lemma FetchedBack(p: Policy, ops: seq<Op>, n: nat, m: nat, k: Key)
    requires k in StoreOf(Run(p, ops), m)
    ensures var i := |Run(p, ops).answers|;
            k in StoreOf(Run(p, ops + [Fetch(m, [Page(k, k)])] + [Pull(n, i)]), n)
  {
    var c := Run(p, ops);
    var f, q := Fetch(m, [Page(k, k)]), Pull(n, |c.answers|);
    RunNext(p, ops, f);
    RunNext(p, ops + [f], q);
    OwnPage(k);
    hide InPages, Merged, Run;
    var c' := Step(p, c, f);
    assert k in c'.answers[|c.answers|];
    MergedAt(p, StoreOf(c', n), c'.answers[|c.answers|], n, k);
  }

  lemma PulledBack(p: Policy, ops: seq<Op>, n: nat, i: nat, k: Key)
    requires i < |Run(p, ops).answers| && k in Run(p, ops).answers[i]
    ensures k in StoreOf(Run(p, ops + [Pull(n, i)]), n)
  {
    var c := Run(p, ops);
    RunNext(p, ops, Pull(n, i));
    hide Merged, Run;
    MergedAt(p, StoreOf(c, n), c.answers[i], n, k);
  }

  /** A delete is final, that is, nothing but a new write of the key can bring it back to the
      node, if and only if no other replica and no answer under way has the key. */
  lemma DeleteIsFinalIff(p: Policy, ops: seq<Op>, n: nat, k: Key)
    ensures (forall more | NeverPut(more, k) :: k !in StoreOf(Run(p, ops + [Delete(n, k)] + more), n))
       <==> !HeldElsewhere(Run(p, ops), n, k)
  {
    var c := Run(p, ops);
    var gone := ops + [Delete(n, k)];
    RunNext(p, ops, Delete(n, k));
    var c' := Run(p, gone);
    if !HeldElsewhere(c, n, k) {
      DeleteLeavesGone(p, c, n, k);
      forall more | NeverPut(more, k) ensures k !in StoreOf(Run(p, gone + more), n) {
        RunStaysGone(p, gone, more, k);
      }
    } else if m: nat :| m != n && k in StoreOf(c, m) {
      assert StoreOf(c', m) == StoreOf(c, m);
      FetchedBack(p, gone, n, m, k);
      var more := [Fetch(m, [Page(k, k)]), Pull(n, |c'.answers|)];
      assert gone + [Fetch(m, [Page(k, k)])] + [Pull(n, |c'.answers|)] == gone + more;
      assert NeverPut(more, k);
    } else {
      var i :| 0 <= i < |c.answers| && k in c.answers[i];
      PulledBack(p, gone, n, i, k);
      assert NeverPut([Pull(n, i)], k);
    }
  }

  // ----- the default policy over whole runs -----

  function Fetches(ops: seq<Op>): (n: nat) {
    if ops == [] then 0 else Fetches(ops[..|ops| - 1]) + if ops[|ops| - 1].Fetch? then 1 else 0
  }

  /** What a node holds of a key, traced back through the run to the write it stems from:
      always what came last, whatever the timestamps. */
  function Held(ops: seq<Op>, n: nat, k: Key): (e: Option<Entry>)
    decreases |ops|
  {
    if ops == [] then None
    else
      var front := ops[..|ops| - 1];
      match ops[|ops| - 1]
      case Put(m, _, w) => if m == n && w.key == k then Some(w.entry) else Held(front, n, k)
      case Delete(m, l) => if m == n && l == k then None else Held(front, n, k)
      case Fetch(_, _) => Held(front, n, k)
      case Pull(m, i) => if m == n && Carried(front, i, k).Some? then Carried(front, i, k) else Held(front, n, k)
  }

  /** What the answer to the fetch number `i` of the run still holds of a key. */
  function Carried(ops: seq<Op>, i: nat, k: Key): (e: Option<Entry>)
    decreases |ops|
  {
    if ops == [] then None
    else
      var front, last := ops[..|ops| - 1], ops[|ops| - 1];
      if last.Fetch? && i == Fetches(front) then
        if InPages(last.pages, k) then Held(front, last.node, k) else None
      else if last.Pull? && last.answer == i then None
      else Carried(front, i, k)
  }

  lemma TakeRemoteAt(s: Store, items: Store, n: nat, k: Key)
    ensures Lookup(Merged(TakeRemote, s, items, n), k) == if k in items then Some(items[k]) else Lookup(s, k)
  {
  }

  lemma SelectedAt(s: Store, pages: seq<Page>, k: Key)
    ensures Lookup(Selected(s, pages), k) == if InPages(pages, k) then Lookup(s, k) else None
  {
    hide InPages;
  }

  /** Under the default policy every replica holds, after every run, the entry that the trace
      finds: the last to arrive wins. */
  lemma {:induction false} DefaultTakesLast(ops: seq<Op>, n: nat, i: nat, k: Key)
    ensures Lookup(StoreOf(Run(TakeRemote, ops), n), k) == Held(ops, n, k)
    ensures |Run(TakeRemote, ops).answers| == Fetches(ops)
    ensures i < Fetches(ops) ==> Lookup(Run(TakeRemote, ops).answers[i], k) == Carried(ops, i, k)
    ensures i >= Fetches(ops) ==> Carried(ops, i, k) == None
    decreases |ops|
  {
    hide Merged, Selected, InPages;
    if ops != [] {
      var front, last := ops[..|ops| - 1], ops[|ops| - 1];
      DefaultTakesLast(front, n, i, k);
      var c := Run(TakeRemote, front);
      match last
      case Put(m, shard, w) => TakeRemoteAt(StoreOf(c, m), map[w.key := w.entry], shard, k);
      case Delete(m, l) =>
      case Fetch(m, pages) =>
        DefaultTakesLast(front, m, i, k);
        SelectedAt(StoreOf(c, m), pages, k);
      case Pull(m, j) =>
        DefaultTakesLast(front, m, j, k);
        if j < |c.answers| { TakeRemoteAt(StoreOf(c, m), c.answers[j], m, k); }
    }
  }

  /** A late answer replaces whatever was written meanwhile: the fetch's entry is what the
      node holds after the pull, so the newer write is lost unless it is the same. */
  lemma LateAnswerReplaces(ops: seq<Op>, more: seq<Op>, n: nat, m: nat, pages: seq<Page>, shard: nat, w: Write)
    requires InPages(pages, w.key) && Held(ops, m, w.key).Some?
    requires NeverPulled(more, Fetches(ops))
    ensures var run := ops + [Fetch(m, pages)] + more + [Put(n, shard, w)] + [Pull(n, Fetches(ops))];
            && Lookup(StoreOf(Run(TakeRemote, run), n), w.key) == Held(ops, m, w.key)
            && (Lookup(StoreOf(Run(TakeRemote, run), n), w.key) == Some(w.entry)
                <==> Held(ops, m, w.key) == Some(w.entry))
  {
    hide InPages;
    var i, k := Fetches(ops), w.key;
    var fetched := ops + [Fetch(m, pages)];
    assert fetched[..|ops|] == ops;
    assert Carried(fetched, i, k) == Held(ops, m, k);
    CarriedStays(fetched, more, i, k);
    var put := fetched + more + [Put(n, shard, w)];
    assert put[..|fetched + more|] == fetched + more;
    assert Carried(put, i, k) == Held(ops, m, k);
    var run := put + [Pull(n, i)];
    assert run[..|put|] == put;
    assert Held(run, n, k) == Held(ops, m, k);
    DefaultTakesLast(run, n, i, k);
  }

  /** The answer has not been merged yet. */
  predicate NeverPulled(ops: seq<Op>, i: nat) {
    forall op | op in ops :: op.Pull? ==> op.answer != i
  }

  lemma {:induction false} CarriedStays(ops: seq<Op>, more: seq<Op>, i: nat, k: Key)
    requires i < Fetches(ops) && NeverPulled(more, i)
    ensures Carried(ops + more, i, k) == Carried(ops, i, k) && Fetches(ops + more) >= Fetches(ops)
    decreases |more|
  {
    hide InPages, Held;
    if more == [] {
      assert ops + more == ops;
    } else {
      var n := |more| - 1;
      CarriedStays(ops, more[..n], i, k);
      assert (ops + more)[..|ops + more| - 1] == ops + more[..n];
    }
  }

  /** Under the default policy one exchange of everything, one after the other, leaves both
      replicas with the entries of both, and with those of the replica fetched first where
      they differ, whatever the timestamps. */
  lemma DefaultExchange(c: Cluster, n: nat, m: nat, pages: seq<Page>)
    requires n != m
    requires forall k | k in StoreOf(c, n) || k in StoreOf(c, m) :: InPages(pages, k)
    ensures var i := |c.answers|;
            var c1 := Step(TakeRemote, Step(TakeRemote, c, Fetch(m, pages)), Pull(n, i));
            var c2 := Step(TakeRemote, Step(TakeRemote, c1, Fetch(n, pages)), Pull(m, i + 1));
            StoreOf(c2, n) == StoreOf(c2, m) == StoreOf(c, n) + StoreOf(c, m)
  {
    hide InPages;
    var i, s, t := |c.answers|, StoreOf(c, n), StoreOf(c, m);
    assert Selected(t, pages) == t;
    assert Selected(s + t, pages) == s + t;
    OverlayIs(s, t, n);
    OverlayIs(t, s + t, m);
    assert t + (s + t) == s + t;
    hide Selected, Merged;
    var a := Step(TakeRemote, c, Fetch(m, pages));
    assert StoreOf(a, n) == s && a.answers[i] == t;
    var c1 := Step(TakeRemote, a, Pull(n, i));
    assert StoreOf(c1, n) == s + t && StoreOf(c1, m) == t;
    var b := Step(TakeRemote, c1, Fetch(n, pages));
    assert StoreOf(b, m) == t && StoreOf(b, n) == s + t && b.answers[i + 1] == s + t;
  }

  lemma OverlayIs(s: Store, t: Store, n: nat)
    ensures Merged(TakeRemote, s, t, n) == s + t
  {
  }

  // ----- what one pull can lose -----

  /** A pull keeps the entry a node has if and only if the answer does not have the key, has
      the same entry, or, under last writer wins only, has an older one or ties with an odd
      node's. */
  lemma PullKeepsIff(p: Policy, c: Cluster, n: nat, i: nat, k: Key)
    requires i < |c.answers| && k in StoreOf(c, n)
    ensures var mine := StoreOf(c, n)[k];
            Lookup(StoreOf(Step(p, c, Pull(n, i)), n), k) == Some(mine)
            <==> || k !in c.answers[i]
                 || c.answers[i][k] == mine
                 || (&& p.LastWriterWins?
                     && (c.answers[i][k].time < mine.time || (c.answers[i][k].time == mine.time && n % 2 == 1)))
  {
    MergedAt(p, StoreOf(c, n), c.answers[i], n, k);
  }

  /** So under last writer wins no step but a delete ever makes an entry older. */
  lemma {:induction false} TimeNeverDrops(ops: seq<Op>, more: seq<Op>, n: nat, k: Key)
    requires k in StoreOf(Run(LastWriterWins, ops), n)
    requires forall op | op in more :: op != Delete(n, k)
    ensures k in StoreOf(Run(LastWriterWins, ops + more), n)
    ensures StoreOf(Run(LastWriterWins, ops + more), n)[k].time >= StoreOf(Run(LastWriterWins, ops), n)[k].time
    decreases |more|
  {
    hide Run, Step;
    if more == [] {
      assert ops + more == ops;
    } else {
      var j := |more| - 1;
      assert more[j] in more && forall op | op in more[..j] :: op in more;
      TimeNeverDrops(ops, more[..j], n, k);
      assert ops + more == ops + more[..j] + [more[j]];
      RunNext(LastWriterWins, ops + more[..j], more[j]);
      StepNeverDrops(Run(LastWriterWins, ops + more[..j]), more[j], n, k);
    }
  }

  lemma StepNeverDrops(c: Cluster, op: Op, n: nat, k: Key)
    requires k in StoreOf(c, n) && op != Delete(n, k)
    ensures k in StoreOf(Step(LastWriterWins, c, op), n)
    ensures StoreOf(Step(LastWriterWins, c, op), n)[k].time >= StoreOf(c, n)[k].time
  {
    hide Merged;
    match op
    case Put(m, shard, w) => MergedAt(LastWriterWins, StoreOf(c, m), map[w.key := w.entry], shard, k);
    case Delete(_, _) =>
    case Fetch(_, _) =>
    case Pull(m, i) => if i < |c.answers| { MergedAt(LastWriterWins, StoreOf(c, m), c.answers[i], m, k); }
  }
}
