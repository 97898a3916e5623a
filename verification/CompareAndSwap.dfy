/** Compare-and-swap as the generic layer performs it: a read step and, if the
    value matched, a separate write step, interleaved with other clients. */
module CompareAndSwap {
  import opened Bytes
  import opened Collections
  import opened OrderedStore

  type Client = nat

  datatype Cas = Cas(key: Bytes, expected: Option<Bytes>, value: Option<Bytes>)

  datatype Step =
    | Read(client: Client, cas: Cas)
    | Write(client: Client)
    | Put(key: Bytes, value: Bytes)
    | Delete(key: Bytes)

  /** `pending` holds the clients between their two steps; `results` the answers
      given so far, in order. */
  datatype World = World(store: Store, pending: map<Client, Cas>, results: seq<(Client, bool)>)

  function Update(m: Store, k: Bytes, v: Option<Bytes>): (r: Store) {
    match v
    case Some(x) => m[k := x]
    case None => m - {k}
  }

  predicate Matches(m: Store, cas: Cas) {
    Lookup(m, cas.key) == cas.expected
  }

  /** One step of the real system. A client between its steps does not start
      another swap, and only such a client writes. */
  function Next(w: World, s: Step): (r: World) {
    match s
    case Read(c, cas) =>
      if c in w.pending then w
      else if Matches(w.store, cas) then w.(pending := w.pending[c := cas])
      else w.(results := w.results + [(c, false)])
    case Write(c) =>
      if c !in w.pending then w
      else
        var cas := w.pending[c];
        World(Update(w.store, cas.key, cas.value), w.pending - {c}, w.results + [(c, true)])
    case Put(k, v) => w.(store := w.store[k := v])
    case Delete(k) => w.(store := w.store - {k})
  }

  function Run(w: World, steps: seq<Step>): (r: World)
    decreases |steps|
  {
    if steps == [] then w else Run(Next(w, steps[0]), steps[1..])
  }

  /** What one step does, key by key: a put and a delete take effect at once; a read step
      answers no, or leaves its client between the steps, by what the key holds; a write step
      stores the new value whatever the key holds by then, and answers yes. */
  lemma StepIs(w: World, s: Step, k: Bytes)
    ensures var r := Next(w, s);
            match s
            case Put(k', v) => r.pending == w.pending && r.results == w.results
                               && Lookup(r.store, k) == if k == k' then Some(v) else Lookup(w.store, k)
            case Delete(k') => r.pending == w.pending && r.results == w.results
                               && Lookup(r.store, k) == if k == k' then None else Lookup(w.store, k)
            case Read(c, cas) =>
              && r.store == w.store
              && (c !in w.pending ==>
                    if Lookup(w.store, cas.key) == cas.expected then r.pending == w.pending[c := cas] && r.results == w.results
                    else r.pending == w.pending && r.results == w.results + [(c, false)])
            case Write(c) =>
              c in w.pending ==>
                && var cas := w.pending[c];
                && Lookup(r.store, k) == (if k == cas.key then cas.value else Lookup(w.store, k))
                && r.pending == w.pending - {c} && r.results == w.results + [(c, true)]
  {
  }

  // ----- the atomic reference -----

  datatype Op = Swap(client: Client, cas: Cas) | Assign(key: Bytes, value: Option<Bytes>)

  datatype Atomic = Atomic(store: Store, results: seq<(Client, bool)>)

  function Apply(a: Atomic, op: Op): (r: Atomic) {
    match op
    case Assign(k, v) => a.(store := Update(a.store, k, v))
    case Swap(c, cas) =>
      if Matches(a.store, cas)
      then Atomic(Update(a.store, cas.key, cas.value), a.results + [(c, true)])
      else a.(results := a.results + [(c, false)])
  }

  function ApplyAll(a: Atomic, ops: seq<Op>): (r: Atomic)
    decreases |ops|
  {
    if ops == [] then a else ApplyAll(Apply(a, ops[0]), ops[1..])
  }

  /** The atomic operation a step stands for: a swap happens at its write step,
      or at its read step when it fails there. */
  function OpOf(w: World, s: Step): (ops: seq<Op>) {
    match s
    case Read(c, cas) => if c !in w.pending && !Matches(w.store, cas) then [Swap(c, cas)] else []
    case Write(c) => if c in w.pending then [Swap(c, w.pending[c])] else []
    case Put(k, v) => [Assign(k, Some(v))]
    case Delete(k) => [Assign(k, None)]
  }

  function Ops(w: World, steps: seq<Step>): (ops: seq<Op>)
    decreases |steps|
  {
    if steps == [] then [] else OpOf(w, steps[0]) + Ops(Next(w, steps[0]), steps[1..])
  }

  /** Every write step still finds the value that its read step matched. */
  predicate StillMatches(w: World, steps: seq<Step>)
    decreases |steps|
  {
    steps != [] ==>
      && (steps[0].Write? && steps[0].client in w.pending ==> Matches(w.store, w.pending[steps[0].client]))
      && StillMatches(Next(w, steps[0]), steps[1..])
  }

  function View(w: World): (a: Atomic) {
    Atomic(w.store, w.results)
  }

  // ----- results only grow -----

  lemma {:induction false} RunKeepsResults(w: World, steps: seq<Step>)
    ensures w.results <= Run(w, steps).results
    decreases |steps|
  {
    if steps != [] {
      RunKeepsResults(Next(w, steps[0]), steps[1..]);
    }
  }

  lemma {:induction false} ApplyKeepsResults(a: Atomic, ops: seq<Op>)
    ensures a.results <= ApplyAll(a, ops).results
    decreases |ops|
  {
    if ops != [] {
      ApplyKeepsResults(Apply(a, ops[0]), ops[1..]);
    }
  }

  lemma {:induction false} ApplyConcat(a: Atomic, x: seq<Op>, y: seq<Op>)
    ensures ApplyAll(a, x + y) == ApplyAll(ApplyAll(a, x), y)
    decreases |x|
  {
    if x == [] {
      assert x + y == y;
    } else {
      assert (x + y)[1..] == x[1..] + y;
      ApplyConcat(Apply(a, x[0]), x[1..], y);
    }
  }

  lemma StepAgrees(w: World, s: Step)
    requires s.Write? && s.client in w.pending ==> Matches(w.store, w.pending[s.client])
    ensures ApplyAll(View(w), OpOf(w, s)) == View(Next(w, s))
  {
    var ops := OpOf(w, s);
    if ops != [] {
      assert ApplyAll(View(w), ops) == ApplyAll(Apply(View(w), ops[0]), ops[1..]);
      assert ops[1..] == [];
    }
  }

  lemma WrongAnswer(w: World, s: Step)
    requires s.Write? && s.client in w.pending && !Matches(w.store, w.pending[s.client])
    ensures ApplyAll(View(w), OpOf(w, s)).results == w.results + [(s.client, false)]
    ensures Next(w, s).results == w.results + [(s.client, true)]
  {
    var ops := OpOf(w, s);
    assert ops[1..] == [];
    assert ApplyAll(View(w), ops) == Apply(View(w), ops[0]);
  }

  /** The two-step form gives the answers and the final store of the atomic one that has
      each swap at its write step, exactly when no value changed under a pending swap. */
  lemma {:induction false} AtomicIffStillMatches(w: World, steps: seq<Step>)
    ensures ApplyAll(View(w), Ops(w, steps)) == View(Run(w, steps)) <==> StillMatches(w, steps)
    decreases |steps|
  {
    if steps != [] {
      var s, rest := steps[0], steps[1..];
      var w' := Next(w, s);
      ApplyConcat(View(w), OpOf(w, s), Ops(w', rest));
      if s.Write? && s.client in w.pending && !Matches(w.store, w.pending[s.client]) {
        WrongAnswer(w, s);
        RunKeepsResults(w', rest);
        var a := ApplyAll(View(w), OpOf(w, s));
        ApplyKeepsResults(a, Ops(w', rest));
        var n := |w.results|;
        assert ApplyAll(a, Ops(w', rest)).results[n] == a.results[n] == (s.client, false);
        assert Run(w', rest).results[n] == w'.results[n] == (s.client, true);
      } else {
        StepAgrees(w, s);
        AtomicIffStillMatches(w', rest);
      }
    }
  }

  // ----- a sufficient discipline -----

  /** The key a step writes, if any. */
  function Written(w: World, s: Step): (k: Option<Bytes>) {
    match s
    case Read(_, _) => None
    case Write(c) => if c in w.pending then Some(w.pending[c].key) else None
    case Put(k, _) => Some(k)
    case Delete(k) => Some(k)
  }

  /** No step writes a key while another client is between its two steps on it. */
  ghost predicate Undisturbed(w: World, steps: seq<Step>)
    decreases |steps|
  {
    steps != [] ==>
      && (forall c :: c in w.pending && !(steps[0].Write? && steps[0].client == c) ==>
            Written(w, steps[0]) != Some(w.pending[c].key))
      && Undisturbed(Next(w, steps[0]), steps[1..])
  }

  ghost predicate PendingMatch(w: World) {
    forall c :: c in w.pending ==> Matches(w.store, w.pending[c])
  }

  lemma {:induction false} UndisturbedStillMatches(w: World, steps: seq<Step>)
    requires PendingMatch(w) && Undisturbed(w, steps)
    ensures StillMatches(w, steps)
    decreases |steps|
  {
    if steps != [] {
      UndisturbedStillMatches(Next(w, steps[0]), steps[1..]);
    }
  }

  /** From a world with nobody between steps, undisturbed swaps are atomic. */
  lemma UndisturbedIsAtomic(m: Store, steps: seq<Step>)
    requires Undisturbed(World(m, map[], []), steps)
    ensures var w := World(m, map[], []);
            ApplyAll(View(w), Ops(w, steps)) == View(Run(w, steps))
  {
    var w := World(m, map[], []);
    UndisturbedStillMatches(w, steps);
    AtomicIffStillMatches(w, steps);
  }

  // ----- one swap against any other writes, in every order -----

  predicate AllAssign(ops: seq<Op>) {
    forall op | op in ops :: op.Assign?
  }

  predicate Assigns(ops: seq<Op>, k: Bytes) {
    exists op | op in ops :: op.Assign? && op.key == k
  }

  /** Other writes after a write to one key: they hide it, or leave it as it was. */
  lemma {:induction false} AssignsOver(a: Atomic, ops: seq<Op>, k: Bytes, v: Option<Bytes>)
    requires AllAssign(ops)
    ensures var over := ApplyAll(Atomic(Update(a.store, k, v), a.results), ops);
            var plain := ApplyAll(a, ops);
            && over.results == plain.results == a.results
            && (Assigns(ops, k) ==> over.store == plain.store)
            && (!Assigns(ops, k) ==>
                  over.store == Update(plain.store, k, v) && Lookup(plain.store, k) == Lookup(a.store, k))
    decreases |ops|
  {
    if ops != [] {
      var op, rest := ops[0], ops[1..];
      assert op in ops && op.Assign?;
      assert ops == [op] + rest;
      assert AllAssign(rest);
      assert Assigns(ops, k) <==> op.key == k || Assigns(rest, k);
      var b := Apply(a, op);
      if op.key == k {
        assert Update(Update(a.store, k, v), k, op.value) == Update(a.store, k, op.value);
        AssignsOver(b, rest, k, op.value);
      } else {
        assert Update(Update(a.store, k, v), op.key, op.value) == Update(b.store, k, v);
        AssignsOver(b, rest, k, v);
      }
    }
  }

  /** What the two steps leave when `others` fall between them. */
  function TwoSteps(m: Store, c: Client, cas: Cas, others: seq<Op>): (a: Atomic) {
    Atomic(Update(ApplyAll(Atomic(m, []), others).store, cas.key, cas.value), [(c, true)])
  }

  /** The atomic order that has the swap after the first `j` of them. */
  function Placed(m: Store, c: Client, cas: Cas, others: seq<Op>, j: nat): (a: Atomic)
    requires j <= |others|
  {
    ApplyAll(Apply(ApplyAll(Atomic(m, []), others[..j]), Swap(c, cas)), others[j..])
  }

  lemma PlacedGives(m: Store, c: Client, cas: Cas, others: seq<Op>, j: nat)
    requires j <= |others| && AllAssign(others)
    ensures var before := ApplyAll(Atomic(m, []), others[..j]);
            var plain := ApplyAll(Atomic(m, []), others);
            && Placed(m, c, cas, others, j).results == [(c, Matches(before.store, cas))]
            && (Matches(before.store, cas) ==>
                  Placed(m, c, cas, others, j).store
                  == if Assigns(others[j..], cas.key) then plain.store else Update(plain.store, cas.key, cas.value))
            && (!Assigns(others[j..], cas.key) ==> Lookup(plain.store, cas.key) == Lookup(before.store, cas.key))
  {
    var front, back := others[..j], others[j..];
    assert others == front + back;
    assert AllAssign(front) && AllAssign(back);
    ApplyConcat(Atomic(m, []), front, back);
    KeepsNone(m, front);
    var before := ApplyAll(Atomic(m, []), front);
    var done := Apply(before, Swap(c, cas));
    ResultsAside(before.store, before.results, done.results, back);
    ResultsAside(done.store, before.results, done.results, back);
    AssignsOver(before, back, cas.key, cas.value);
  }

  lemma KeepsNone(m: Store, ops: seq<Op>)
    requires AllAssign(ops)
    ensures ApplyAll(Atomic(m, []), ops).results == []
  {
    AssignsOver(Atomic(m, []), ops, [], None);
  }

  /** Writes do not look at the answers given so far. */
  lemma {:induction false} ResultsAside(m: Store, x: seq<(Client, bool)>, y: seq<(Client, bool)>, ops: seq<Op>)
    requires AllAssign(ops)
    ensures ApplyAll(Atomic(m, x), ops).store == ApplyAll(Atomic(m, y), ops).store
    ensures ApplyAll(Atomic(m, y), ops).results == y
    decreases |ops|
  {
    if ops != [] {
      assert ops[0] in ops && ops[0].Assign?;
      assert AllAssign(ops[1..]) by { assert ops == [ops[0]] + ops[1..]; }
      ResultsAside(Update(m, ops[0].key, ops[0].value), x, y, ops[1..]);
    }
  }

  /** Over all places for the swap among the writes that fall between its two steps: some
      place gives the answer and the store of the two steps if and only if the key, just
      before the write step, holds the expected value or already the new one. */
  lemma SomePlaceIff(m: Store, c: Client, cas: Cas, others: seq<Op>)
    requires AllAssign(others) && Matches(m, cas)
    ensures (exists j: nat | j <= |others| :: Placed(m, c, cas, others, j) == TwoSteps(m, c, cas, others))
       <==> var now := Lookup(ApplyAll(Atomic(m, []), others).store, cas.key);
            now == cas.expected || now == cas.value
  {
    var plain := ApplyAll(Atomic(m, []), others);
    var n := |others|;
    hide ApplyAll, Placed;
    if Lookup(plain.store, cas.key) == cas.expected {
      PlacedGives(m, c, cas, others, n);
      assert others[..n] == others && others[n..] == [];
      assert Placed(m, c, cas, others, n) == TwoSteps(m, c, cas, others);
    } else if Lookup(plain.store, cas.key) == cas.value {
      PlacedGives(m, c, cas, others, 0);
      EmptyRun(m, others);
      assert Update(plain.store, cas.key, cas.value) == plain.store;
      assert Placed(m, c, cas, others, 0) == TwoSteps(m, c, cas, others);
    }
    if j: nat :| j <= n && Placed(m, c, cas, others, j) == TwoSteps(m, c, cas, others) {
      PlacedGives(m, c, cas, others, j);
      assert Lookup(Update(plain.store, cas.key, cas.value), cas.key) == cas.value;
    }
  }

  lemma EmptyRun(m: Store, others: seq<Op>)
    ensures others[..0] == [] && ApplyAll(Atomic(m, []), others[..0]) == Atomic(m, [])
  {
  }

  // ----- many clients that create one key -----

  function Create(k: Bytes, v: Bytes): (cas: Cas) {
    Cas(k, None, Some(v))
  }

  /** Swaps that create `k`, by any clients with any values, and nothing else. */
  predicate AllCreate(ops: seq<Op>, k: Bytes) {
    forall op | op in ops :: op.Swap? && op.cas.key == k && op.cas.expected.None? && op.cas.value.Some?
  }

  function Successes(results: seq<(Client, bool)>): (n: nat) {
    if results == [] then 0
    else Successes(results[..|results| - 1]) + if results[|results| - 1].1 then 1 else 0
  }

  lemma SuccessesNext(results: seq<(Client, bool)>, r: (Client, bool))
    ensures Successes(results + [r]) == Successes(results) + if r.1 then 1 else 0
  {
    assert (results + [r])[..|results|] == results;
  }

  /** In every atomic order of any number of creations exactly one succeeds, or none if the
      key is there already. */
  lemma {:induction false} OneCreates(a: Atomic, ops: seq<Op>, k: Bytes)
    requires AllCreate(ops, k)
    ensures var b := ApplyAll(a, ops);
            Successes(b.results) == Successes(a.results) + if k !in a.store && ops != [] then 1 else 0
    decreases |ops|
  {
    if ops != [] {
      var op := ops[0];
      assert op in ops;
      var b := Apply(a, op);
      SuccessesNext(a.results, (op.client, Matches(a.store, op.cas)));
      assert AllCreate(ops[1..], k) by { assert ops == [op] + ops[1..]; }
      OneCreates(b, ops[1..], k);
    }
  }

  /** First every client reads, then every client writes. */
  function Reads(k: Bytes, vs: seq<Bytes>): (steps: seq<Step>) {
    if vs == [] then [] else Reads(k, vs[..|vs| - 1]) + [Read(|vs| - 1, Create(k, vs[|vs| - 1]))]
  }

  function Writes(n: nat): (steps: seq<Step>) {
    if n == 0 then [] else Writes(n - 1) + [Write(n - 1)]
  }

  lemma {:induction false} RunConcat(w: World, x: seq<Step>, y: seq<Step>)
    ensures Run(w, x + y) == Run(Run(w, x), y)
    decreases |x|
  {
    if x == [] {
      assert x + y == y;
    } else {
      assert (x + y)[1..] == x[1..] + y;
      RunConcat(Next(w, x[0]), x[1..], y);
    }
  }

  lemma RunOne(w: World, x: seq<Step>, s: Step)
    ensures Run(w, x + [s]) == Next(Run(w, x), s)
  {
    RunConcat(w, x, [s]);
    assert [s][1..] == [];
  }

  lemma {:induction false} AllRead(m: Store, k: Bytes, vs: seq<Bytes>)
    requires k !in m
    ensures var w := Run(World(m, map[], []), Reads(k, vs));
            && w.store == m && w.results == []
            && (forall c: nat :: c in w.pending <==> c < |vs|)
            && (forall c: nat | c < |vs| :: w.pending[c] == Create(k, vs[c]))
    decreases |vs|
  {
    if vs != [] {
      var n := |vs| - 1;
      AllRead(m, k, vs[..n]);
      RunOne(World(m, map[], []), Reads(k, vs[..n]), Read(n, Create(k, vs[n])));
      var w := Run(World(m, map[], []), Reads(k, vs[..n]));
      assert n !in w.pending && Matches(w.store, Create(k, vs[n]));
      assert Run(World(m, map[], []), Reads(k, vs)) == w.(pending := w.pending[n := Create(k, vs[n])]);
    } else {
      assert Run(World(m, map[], []), []) == World(m, map[], []);
    }
  }

  lemma {:induction false} AllWrite(w: World, n: nat)
    requires w.results == [] && forall c: nat | c < n :: c in w.pending
    ensures var r := Run(w, Writes(n));
            && Successes(r.results) == n
            && (forall c: nat :: c in w.pending && c >= n ==> c in r.pending && r.pending[c] == w.pending[c])
    decreases n
  {
    if n > 0 {
      AllWrite(w, n - 1);
      var r := Run(w, Writes(n - 1));
      RunOne(w, Writes(n - 1), Write(n - 1));
      assert n - 1 in r.pending;
      assert Run(w, Writes(n)) == Next(r, Write(n - 1));
      SuccessesNext(r.results, (n - 1, true));
    }
  }

  /** However many clients create one missing key, if all read before any writes then all are
      told that they created it, while every atomic order of their swaps tells exactly one. */
  lemma AllToldTheyCreated(m: Store, k: Bytes, vs: seq<Bytes>, order: seq<Op>)
    requires k !in m && |vs| > 0
    requires AllCreate(order, k) && |order| == |vs|
    ensures Successes(Run(World(m, map[], []), Reads(k, vs) + Writes(|vs|)).results) == |vs|
    ensures Successes(ApplyAll(Atomic(m, []), order).results) == 1
  {
    var w := World(m, map[], []);
    RunConcat(w, Reads(k, vs), Writes(|vs|));
    AllRead(m, k, vs);
    AllWrite(Run(w, Reads(k, vs)), |vs|);
    OneCreates(Atomic(m, []), order, k);
  }
}
