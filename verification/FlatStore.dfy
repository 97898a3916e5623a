/** One flat, prefixed key space behaves like the typed maps of the in-memory store. */
module FlatStore {
  import opened Bytes
  import opened Collections
  import opened ControlPlane

  predicate SlashFree(s: string) { '/' !in s }

  /** The part of a path before its first slash. */
  function Before(s: string): (r: string)
    ensures SlashFree(r)
  {
    if s == [] || s[0] == '/' then [] else [s[0]] + Before(s[1..])
  }

  lemma {:induction false} BeforeSlash(k: string, t: string)
    requires SlashFree(k)
    ensures Before(k + "/" + t) == k
    ensures Before(k) == k
  {
    if k != [] {
      assert (k + "/" + t)[1..] == k[1..] + "/" + t;
      BeforeSlash(k[1..], t);
    }
  }

  lemma AreasApart(e: Etcd, x: string)
    ensures !(e.PackageBase() <= x && e.DeploymentBase() <= x)
  {
    assert e.PackageBase()[|e.prefix| + 1] == 'p';
    assert e.DeploymentBase()[|e.prefix| + 1] == 'd';
  }

  lemma PackageKeyFacts(e: Etcd, n: string, n': string, x: string)
    ensures e.PackageBase() <= e.PackageKey(n) && e.PackageKey(n)[|e.PackageBase()|..] == n
    ensures e.PackageKey(n) == e.PackageKey(n') ==> n == n'
    ensures e.DeploymentBase() <= x ==> e.PackageKey(n) != x
  {
    AreasApart(e, x);
    assert e.PackageKey(n)[|e.PackageBase()|..] == n;
    assert e.PackageKey(n')[|e.PackageBase()|..] == n';
  }

  lemma DeploymentKeyFacts(e: Etcd, k: string)
    ensures e.DeploymentBase() <= e.DeploymentKey(k) && e.DeploymentKey(k)[|e.DeploymentBase()|..] == k
    ensures e.IsTopLevel(e.DeploymentKey(k)) <==> SlashFree(k)
  {
  }

  lemma MappingKeyFacts(e: Etcd, k: string, c: string)
    ensures e.DeploymentBase() <= e.MappingKey(k, c)
    ensures e.MappingKey(k, c)[|e.DeploymentBase()|..] == k + "/clusters/" + c
    ensures e.MappingPrefix(k) <= e.MappingKey(k, c) && e.MappingKey(k, c)[|e.MappingPrefix(k)|..] == c
    ensures !e.IsTopLevel(e.MappingKey(k, c))
    ensures e.MappingKey(k, c) == e.DeploymentKey(k + "/clusters/" + c)
  {
    assert e.MappingKey(k, c) == e.DeploymentBase() + (k + "/clusters/" + c);
    assert (k + "/clusters/" + c)[|k|] == '/';
  }

  /** Below a slash-free key's mapping prefix the first path segment is that key. */
  lemma PrefixOwner(e: Etcd, k: string, x: string)
    requires SlashFree(k)
    requires e.MappingPrefix(k) <= x
    ensures e.DeploymentBase() <= x && Before(x[|e.DeploymentBase()|..]) == k
    ensures !e.IsTopLevel(x) && x == e.MappingKey(k, x[|e.MappingPrefix(k)|..])
  {
    var c := x[|e.MappingPrefix(k)|..];
    assert x == e.MappingKey(k, c);
    MappingKeyFacts(e, k, c);
    assert k + "/clusters/" + c == k + "/" + ("clusters/" + c);
    BeforeSlash(k, "clusters/" + c);
  }

  lemma OwnerUnique(e: Etcd, k: string, c: string, k': string, c': string)
    requires SlashFree(k) && SlashFree(k')
    ensures e.MappingPrefix(k) <= e.MappingKey(k', c') <==> k == k'
    ensures e.MappingKey(k, c) == e.MappingKey(k', c') <==> k == k' && c == c'
  {
    hide *;
    MappingKeyFacts(e, k, c);
    MappingKeyFacts(e, k', c');
    PrefixOwner(e, k, e.MappingKey(k, c));
    PrefixOwner(e, k', e.MappingKey(k', c'));
    if e.MappingPrefix(k) <= e.MappingKey(k', c') {
      PrefixOwner(e, k, e.MappingKey(k', c'));
    }
  }

  // ----- what the flat map stands for -----

  function EncodedPackage(e: Etcd, m: Memory, n: string): (v: Option<string>) {
    if n in m.packages then Some(e.packageCodec.encode(m.packages[n])) else None
  }

  function EncodedDeployment(e: Etcd, m: Memory, k: string): (v: Option<string>) {
    if k in m.deployments then Some(e.deploymentCodec.encode(m.deployments[k])) else None
  }

  ghost predicate Packed(e: Etcd, kv: map<string, string>, m: Memory) {
    forall n :: Lookup(kv, e.PackageKey(n)) == EncodedPackage(e, m, n)
  }

  ghost predicate Deployed(e: Etcd, kv: map<string, string>, m: Memory) {
    forall k | SlashFree(k) :: Lookup(kv, e.DeploymentKey(k)) == EncodedDeployment(e, m, k)
  }

  ghost predicate Mapped(e: Etcd, kv: map<string, string>, m: Memory) {
    forall k, c | SlashFree(k) :: Lookup(kv, e.MappingKey(k, c)) == Lookup(MappingsOf(m, k), c)
  }

  /** Records sit under their own names, and deployments under slash-free ones. */
  ghost predicate Coherent(m: Memory) {
    && (forall n | n in m.packages :: m.packages[n].name == n)
    && (forall k | k in m.deployments :: m.deployments[k].key == k && SlashFree(k))
  }

  ghost predicate Represents(e: Etcd, kv: map<string, string>, m: Memory) {
    && RoundTrips(e.packageCodec)
    && RoundTrips(e.deploymentCodec)
    && Coherent(m)
    && Packed(e, kv, m)
    && Deployed(e, kv, m)
    && Mapped(e, kv, m)
  }

  predicate SlashFreeOp(op: Op) {
    match op
    case StoreDeployment(d) => SlashFree(d.key)
    case GetDeployment(k) => SlashFree(k)
    case DeleteDeployment(k) => SlashFree(k)
    case DeploymentExists(k) => SlashFree(k)
    case SaveMapping(k, _, _) => SlashFree(k)
    case GetMappings(k) => SlashFree(k)
    case RemoveMappings(k) => SlashFree(k)
    case _ => true
  }

  /** A package listing whose filter turns nothing away. */
  predicate FilterPassesAll(m: Memory, op: Op) {
    op.ListPackages? ==> forall n | n in m.packages :: PackagePasses(op.packageFilter, m.packages[n])
  }

  // ----- one step: the states stay related -----

  /** What an operation puts under a key of the flat map, if it touches it: a value or nothing. */
  function Touched(e: Etcd, op: Op, x: string): (v: Option<Option<string>>) {
    match op
    case StorePackage(p) => if x == e.PackageKey(p.name) then Some(Some(e.packageCodec.encode(p))) else None
    case DeletePackage(n) => if x == e.PackageKey(n) then Some(None) else None
    case StoreDeployment(d) => if x == e.DeploymentKey(d.key) then Some(Some(e.deploymentCodec.encode(d))) else None
    case DeleteDeployment(k) => if x == e.DeploymentKey(k) then Some(None) else None
    case SaveMapping(k, c, id) => if x == e.MappingKey(k, c) then Some(Some(id)) else None
    case RemoveMappings(k) => if e.MappingPrefix(k) <= x then Some(None) else None
    case _ => None
  }

  lemma StepAt(e: Etcd, kv: map<string, string>, op: Op, x: string)
    ensures Lookup(e.Step(kv, op).0, x) == if Touched(e, op, x).Some? then Touched(e, op, x).value else Lookup(kv, x)
  {
    hide PackagePasses, Passes, e.MappingKey, e.MappingPrefix, e.DeploymentKey, e.PackageKey;
  }

  lemma PackedAt(e: Etcd, kv: map<string, string>, m: Memory, op: Op, n: string)
    requires SlashFreeOp(op)
    requires Lookup(kv, e.PackageKey(n)) == EncodedPackage(e, m, n)
    ensures Lookup(e.Step(kv, op).0, e.PackageKey(n)) == EncodedPackage(e, MemoryStep(m, op).0, n)
  {
    hide PackagePasses, Passes, SlashFree;
    hide e.MappingKey, e.MappingPrefix, e.DeploymentKey, e.PackageKey, e.Step;
    StepAt(e, kv, op, e.PackageKey(n));
    match op
    case StorePackage(p) => PackageKeyFacts(e, n, p.name, e.PackageKey(n));
    case DeletePackage(n') => PackageKeyFacts(e, n, n', e.PackageKey(n));
    case StoreDeployment(d) =>
      DeploymentKeyFacts(e, d.key);
      PackageKeyFacts(e, n, n, e.DeploymentKey(d.key));
    case DeleteDeployment(k) =>
      DeploymentKeyFacts(e, k);
      PackageKeyFacts(e, n, n, e.DeploymentKey(k));
    case SaveMapping(k, c, _) =>
      MappingKeyFacts(e, k, c);
      PackageKeyFacts(e, n, n, e.MappingKey(k, c));
    case RemoveMappings(k) => OutsidePrefix(e, k, n);
    case _ =>
  }

  lemma OutsidePrefix(e: Etcd, k: string, n: string)
    ensures !(e.MappingPrefix(k) <= e.PackageKey(n))
  {
    AreasApart(e, e.PackageKey(n));
    assert e.DeploymentBase() <= e.MappingPrefix(k);
  }

  lemma PackedStep(e: Etcd, kv: map<string, string>, m: Memory, op: Op)
    requires Represents(e, kv, m) && SlashFreeOp(op)
    ensures Packed(e, e.Step(kv, op).0, MemoryStep(m, op).0)
  {
    hide MemoryStep, e.Step, SlashFreeOp;
    forall n
      ensures Lookup(e.Step(kv, op).0, e.PackageKey(n)) == EncodedPackage(e, MemoryStep(m, op).0, n)
    {
      assert Lookup(kv, e.PackageKey(n)) == EncodedPackage(e, m, n);
      PackedAt(e, kv, m, op, n);
    }
  }

  lemma DeployedAt(e: Etcd, kv: map<string, string>, m: Memory, op: Op, k: string)
    requires SlashFreeOp(op) && SlashFree(k)
    requires Lookup(kv, e.DeploymentKey(k)) == EncodedDeployment(e, m, k)
    ensures Lookup(e.Step(kv, op).0, e.DeploymentKey(k)) == EncodedDeployment(e, MemoryStep(m, op).0, k)
  {
    hide PackagePasses, Passes, SlashFree;
    hide e.MappingKey, e.MappingPrefix, e.DeploymentKey, e.PackageKey, e.Step, e.IsTopLevel;
    var x := e.DeploymentKey(k);
    StepAt(e, kv, op, x);
    DeploymentKeyFacts(e, k);
    match op
    case StorePackage(p) => PackageKeyFacts(e, p.name, p.name, x);
    case DeletePackage(n) => PackageKeyFacts(e, n, n, x);
    case StoreDeployment(d) => DeploymentKeyFacts(e, d.key);
    case DeleteDeployment(k') => DeploymentKeyFacts(e, k');
    case SaveMapping(k', c, _) => MappingKeyFacts(e, k', c);
    case RemoveMappings(k') => if e.MappingPrefix(k') <= x { PrefixOwner(e, k', x); }
    case _ =>
  }

  lemma DeployedStep(e: Etcd, kv: map<string, string>, m: Memory, op: Op)
    requires Represents(e, kv, m) && SlashFreeOp(op)
    ensures Deployed(e, e.Step(kv, op).0, MemoryStep(m, op).0)
  {
    hide MemoryStep, e.Step, SlashFreeOp;
    forall k | SlashFree(k)
      ensures Lookup(e.Step(kv, op).0, e.DeploymentKey(k)) == EncodedDeployment(e, MemoryStep(m, op).0, k)
    {
      assert Lookup(kv, e.DeploymentKey(k)) == EncodedDeployment(e, m, k);
      DeployedAt(e, kv, m, op, k);
    }
  }

  lemma MappedAt(e: Etcd, kv: map<string, string>, m: Memory, op: Op, k: string, c: string)
    requires SlashFreeOp(op) && SlashFree(k)
    requires Lookup(kv, e.MappingKey(k, c)) == Lookup(MappingsOf(m, k), c)
    ensures Lookup(e.Step(kv, op).0, e.MappingKey(k, c)) == Lookup(MappingsOf(MemoryStep(m, op).0, k), c)
  {
    hide PackagePasses, Passes, SlashFree;
    hide e.MappingKey, e.MappingPrefix, e.DeploymentKey, e.PackageKey, e.Step, e.IsTopLevel;
    StepAt(e, kv, op, e.MappingKey(k, c));
    MappingKeyFacts(e, k, c);
    match op
    case StorePackage(p) => PackageKeyFacts(e, p.name, p.name, e.MappingKey(k, c));
    case DeletePackage(n) => PackageKeyFacts(e, n, n, e.MappingKey(k, c));
    case StoreDeployment(d) => DeploymentKeyFacts(e, d.key);
    case DeleteDeployment(k') => DeploymentKeyFacts(e, k');
    case SaveMapping(k', c', _) => OwnerUnique(e, k', c', k, c);
    case RemoveMappings(k') => OwnerUnique(e, k', c, k, c);
    case _ =>
  }

  lemma MappedStep(e: Etcd, kv: map<string, string>, m: Memory, op: Op)
    requires Represents(e, kv, m) && SlashFreeOp(op)
    ensures Mapped(e, e.Step(kv, op).0, MemoryStep(m, op).0)
  {
    hide MemoryStep, e.Step, SlashFreeOp;
    forall k, c | SlashFree(k)
      ensures Lookup(e.Step(kv, op).0, e.MappingKey(k, c)) == Lookup(MappingsOf(MemoryStep(m, op).0, k), c)
    {
      assert Lookup(kv, e.MappingKey(k, c)) == Lookup(MappingsOf(m, k), c);
      MappedAt(e, kv, m, op, k, c);
    }
  }

  /** Every operation keeps the two stores related. */
  lemma StepKeeps(e: Etcd, kv: map<string, string>, m: Memory, op: Op)
    requires Represents(e, kv, m) && SlashFreeOp(op)
    ensures Represents(e, e.Step(kv, op).0, MemoryStep(m, op).0)
  {
    PackedStep(e, kv, m, op);
    DeployedStep(e, kv, m, op);
    MappedStep(e, kv, m, op);
  }

  // ----- one step: the answers agree -----

  lemma PackageListing(e: Etcd, kv: map<string, string>, m: Memory, f: PackageFilter)
    requires Represents(e, kv, m)
    ensures e.Step(kv, ListPackages(f)).1 == Packages(set n | n in m.packages :: m.packages[n])
  {
    hide SlashFree, PackagePasses, Mapped, Deployed;
    forall x | x in kv && e.PackageBase() <= x
      ensures x[|e.PackageBase()|..] in m.packages
      ensures e.packageCodec.decode(kv[x]) == Some(m.packages[x[|e.PackageBase()|..]])
    {
      assert x == e.PackageKey(x[|e.PackageBase()|..]);
      assert Lookup(kv, x) == EncodedPackage(e, m, x[|e.PackageBase()|..]);
    }
    forall n | n in m.packages
      ensures e.PackageKey(n) in kv && e.PackageBase() <= e.PackageKey(n)
      ensures e.packageCodec.decode(kv[e.PackageKey(n)]) == Some(m.packages[n])
    {
      assert Lookup(kv, e.PackageKey(n)) == EncodedPackage(e, m, n);
    }
    var listed := set x | x in kv && e.PackageBase() <= x :: e.packageCodec.decode(kv[x]).value;
    var stored := set n | n in m.packages :: m.packages[n];
    forall p | p in stored ensures p in listed {
      var n :| n in m.packages && m.packages[n] == p;
      assert e.packageCodec.decode(kv[e.PackageKey(n)]).value == p;
    }
    assert listed == stored;
  }

  lemma DeploymentListing(e: Etcd, kv: map<string, string>, m: Memory, f: DeploymentFilter)
    requires Represents(e, kv, m)
    ensures e.Step(kv, ListDeployments(f)).1 == MemoryStep(m, ListDeployments(f)).1
  {
    hide Passes, Mapped, Packed;
    var listed := set x | x in kv && e.Selects(kv, x, f) :: e.deploymentCodec.decode(kv[x]).value;
    var stored := set k | k in m.deployments && Passes(f, m.deployments[k]) :: m.deployments[k];
    forall d | d in listed ensures d in stored {
      var x :| x in kv && e.Selects(kv, x, f) && e.deploymentCodec.decode(kv[x]).value == d;
      var k := x[|e.DeploymentBase()|..];
      assert x == e.DeploymentKey(k);
      assert Lookup(kv, x) == EncodedDeployment(e, m, k);
    }
    forall d | d in stored ensures d in listed {
      var k :| k in m.deployments && Passes(f, m.deployments[k]) && m.deployments[k] == d;
      assert Lookup(kv, e.DeploymentKey(k)) == EncodedDeployment(e, m, k);
      DeploymentKeyFacts(e, k);
      assert e.Selects(kv, e.DeploymentKey(k), f);
    }
    assert listed == stored;
  }

  lemma MappingListing(e: Etcd, kv: map<string, string>, m: Memory, k: string)
    requires Represents(e, kv, m) && SlashFree(k)
    ensures e.Below(kv, e.MappingPrefix(k)) == MappingsOf(m, k)
  {
    hide Packed, Deployed;
    var got := e.Below(kv, e.MappingPrefix(k));
    forall c ensures Lookup(got, c) == Lookup(MappingsOf(m, k), c) {
      assert Lookup(kv, e.MappingKey(k, c)) == Lookup(MappingsOf(m, k), c);
      MappingKeyFacts(e, k, c);
      if e.MappingKey(k, c) in kv {
        assert e.MappingKey(k, c)[|e.MappingPrefix(k)|..] == c;
      }
    }
    SameLookups(got, MappingsOf(m, k));
  }

  lemma SameLookups(a: map<string, string>, b: map<string, string>)
    requires forall c :: Lookup(a, c) == Lookup(b, c)
    ensures a == b
  {
    forall c ensures c in a <==> c in b { assert Lookup(a, c) == Lookup(b, c); }
    forall c | c in a ensures a[c] == b[c] { assert Lookup(a, c) == Lookup(b, c); }
  }

  /** The answers are the same, except that a package listing agrees exactly when its
      filter would have passed every stored package. */
  lemma StepAnswers(e: Etcd, kv: map<string, string>, m: Memory, op: Op)
    requires Represents(e, kv, m) && SlashFreeOp(op)
    ensures e.Step(kv, op).1 == MemoryStep(m, op).1 <==> FilterPassesAll(m, op)
  {
    hide PackagePasses, Passes, SlashFree;
    match op
    case ListPackages(f) =>
      PackageListing(e, kv, m, f);
      PassingPackages(m, f);
    case GetPackage(n) => assert Lookup(kv, e.PackageKey(n)) == EncodedPackage(e, m, n);
    case PackageExists(n) => assert Lookup(kv, e.PackageKey(n)) == EncodedPackage(e, m, n);
    case GetDeployment(k) => assert Lookup(kv, e.DeploymentKey(k)) == EncodedDeployment(e, m, k);
    case DeploymentExists(k) => assert Lookup(kv, e.DeploymentKey(k)) == EncodedDeployment(e, m, k);
    case ListDeployments(f) => DeploymentListing(e, kv, m, f);
    case GetMappings(k) => MappingListing(e, kv, m, k);
    case _ =>
  }

  lemma PassingPackages(m: Memory, f: PackageFilter)
    requires Coherent(m)
    ensures (set n | n in m.packages :: m.packages[n])
            == (set n | n in m.packages && PackagePasses(f, m.packages[n]) :: m.packages[n])
            <==> forall n | n in m.packages :: PackagePasses(f, m.packages[n])
  {
    hide PackagePasses;
    var every := set n | n in m.packages :: m.packages[n];
    var passing := set n | n in m.packages && PackagePasses(f, m.packages[n]) :: m.packages[n];
    if every == passing {
      forall n | n in m.packages ensures PackagePasses(f, m.packages[n]) {
        assert m.packages[n] in every;
      }
    }
  }

  // ----- whole runs -----

  function EtcdRun(e: Etcd, kv: map<string, string>, ops: seq<Op>): (r: (map<string, string>, seq<Answer>))
    decreases |ops|
  {
    if ops == [] then (kv, [])
    else
      var (kv', a) := e.Step(kv, ops[0]);
      var (last, rest) := EtcdRun(e, kv', ops[1..]);
      (last, [a] + rest)
  }

  function MemoryRun(m: Memory, ops: seq<Op>): (r: (Memory, seq<Answer>))
    decreases |ops|
  {
    if ops == [] then (m, [])
    else
      var (m', a) := MemoryStep(m, ops[0]);
      var (last, rest) := MemoryRun(m', ops[1..]);
      (last, [a] + rest)
  }

  /** Every package listing of the run, at the moment it is made, turns nothing away. */
  predicate FiltersPassAll(m: Memory, ops: seq<Op>)
    decreases |ops|
  {
    ops != [] ==> FilterPassesAll(m, ops[0]) && FiltersPassAll(MemoryStep(m, ops[0]).0, ops[1..])
  }

  lemma HeadAndTail<T>(a: T, s: seq<T>, b: T, t: seq<T>)
    ensures [a] + s == [b] + t <==> a == b && s == t
  {
    assert ([a] + s)[0] == a && ([b] + t)[0] == b;
    assert ([a] + s)[1..] == s && ([b] + t)[1..] == t;
  }

  /** Main result: over any run with slash-free deployment keys the flat store ends up
      standing for the in-memory one, and gives the same answers exactly when the
      package filters, which it ignores, would have passed everything. */
  lemma {:induction false} RunSimulates(e: Etcd, kv: map<string, string>, m: Memory, ops: seq<Op>)
    requires Represents(e, kv, m)
    requires forall op | op in ops :: SlashFreeOp(op)
    ensures Represents(e, EtcdRun(e, kv, ops).0, MemoryRun(m, ops).0)
    ensures EtcdRun(e, kv, ops).1 == MemoryRun(m, ops).1 <==> FiltersPassAll(m, ops)
    decreases |ops|
  {
    hide Represents, SlashFreeOp, FilterPassesAll, MemoryStep, e.Step;
    if ops != [] {
      var op := ops[0];
      assert op in ops;
      StepKeeps(e, kv, m, op);
      StepAnswers(e, kv, m, op);
      var (kv', a) := e.Step(kv, op);
      var (m', b) := MemoryStep(m, op);
      RunSimulates(e, kv', m', ops[1..]);
      HeadAndTail(a, EtcdRun(e, kv', ops[1..]).1, b, MemoryRun(m', ops[1..]).1);
    }
  }

  /** An empty pair of stores is related, so runs from scratch are covered. */
  lemma EmptyRepresents(e: Etcd)
    requires RoundTrips(e.packageCodec) && RoundTrips(e.deploymentCodec)
    ensures Represents(e, map[], Memory(map[], map[], map[]))
  {
  }

  /** Whatever else lives in the same etcd is untouched, slashes or not. */
  lemma {:induction false} RunKeepsForeign(e: Etcd, kv: map<string, string>, ops: seq<Op>, x: string)
    requires e.Foreign(x)
    ensures Lookup(EtcdRun(e, kv, ops).0, x) == Lookup(kv, x)
    decreases |ops|
  {
    if ops != [] {
      StepKeepsForeign(e, kv, ops[0], x);
      hide e.Step;
      RunKeepsForeign(e, e.Step(kv, ops[0]).0, ops[1..], x);
    }
  }

  lemma StepKeepsForeign(e: Etcd, kv: map<string, string>, op: Op, x: string)
    requires e.Foreign(x)
    ensures Lookup(e.Step(kv, op).0, x) == Lookup(kv, x)
  {
    hide PackagePasses, Passes;
    match op
    case StorePackage(p) => PackageKeyFacts(e, p.name, p.name, x);
    case DeletePackage(n) => PackageKeyFacts(e, n, n, x);
    case StoreDeployment(d) => DeploymentKeyFacts(e, d.key);
    case DeleteDeployment(k) => DeploymentKeyFacts(e, k);
    case SaveMapping(k, c, _) => MappingKeyFacts(e, k, c);
    case RemoveMappings(k) => assert e.DeploymentBase() <= e.MappingPrefix(k);
    case _ =>
  }

  // ----- why the keys must be free of slashes -----

  lemma NestedIsInvisible(e: Etcd, kv: map<string, string>, d: Deployment, f: DeploymentFilter)
    requires !SlashFree(d.key)
    ensures e.Step(e.Step(kv, StoreDeployment(d)).0, ListDeployments(f)).1 == e.Step(kv, ListDeployments(f)).1
  {
    var x := e.DeploymentKey(d.key);
    DeploymentKeyFacts(e, d.key);
    var kv' := kv[x := e.deploymentCodec.encode(d)];
    assert e.Step(kv, StoreDeployment(d)).0 == kv';
    hide Passes, e.DeploymentKey, SlashFree, e.IsTopLevel;
    var was := set y | y in kv && e.Selects(kv, y, f) :: e.deploymentCodec.decode(kv[y]).value;
    var now := set y | y in kv' && e.Selects(kv', y, f) :: e.deploymentCodec.decode(kv'[y]).value;
    forall y ensures y in kv' && e.Selects(kv', y, f) <==> y in kv && e.Selects(kv, y, f) {
      if y == x { assert !e.IsTopLevel(y); }
    }
    assert was == now;
  }

  /** In any reachable state a deployment just stored is listed if and only if its key is
      slash-free; the in-memory store always lists it. */
  lemma ListedIffSlashFree(e: Etcd, kv: map<string, string>, m: Memory, d: Deployment)
    requires Represents(e, kv, m)
    ensures var all := DeploymentFilter(None, None, None);
            && (d in e.Step(e.Step(kv, StoreDeployment(d)).0, ListDeployments(all)).1.deployments <==> SlashFree(d.key))
            && d in MemoryStep(MemoryStep(m, StoreDeployment(d)).0, ListDeployments(all)).1.deployments
  {
    var all := DeploymentFilter(None, None, None);
    var m' := MemoryStep(m, StoreDeployment(d)).0;
    assert d.key in m'.deployments && m'.deployments[d.key] == d;
    if SlashFree(d.key) {
      StepKeeps(e, kv, m, StoreDeployment(d));
      DeploymentListing(e, e.Step(kv, StoreDeployment(d)).0, m', all);
    } else {
      NestedIsInvisible(e, kv, d, all);
      DeploymentListing(e, kv, m, all);
    }
  }

  /** A deployment whose key runs through another's mapping area shows up as one of its
      clusters, with its JSON as the cluster deployment id. */
  lemma SlashKeyLeaks(e: Etcd, kv: map<string, string>, d: Deployment, k: string, c: string)
    requires d.key == k + "/clusters/" + c
    ensures var r := e.Step(e.Step(kv, StoreDeployment(d)).0, GetMappings(k)).1.mappings;
            c in r && r[c] == e.deploymentCodec.encode(d)
  {
    MappingKeyFacts(e, k, c);
    BelowHas(e, kv[e.DeploymentKey(d.key) := e.deploymentCodec.encode(d)], e.MappingPrefix(k), c);
    assert e.MappingKey(k, c) == e.MappingPrefix(k) + c;
    hide e.MappingPrefix, e.MappingKey, e.DeploymentKey, e.DeploymentBase, e.Below;
  }

  lemma BelowHas(e: Etcd, kv: map<string, string>, p: string, c: string)
    requires p + c in kv
    ensures c in e.Below(kv, p) && e.Below(kv, p)[c] == kv[p + c]
  {
    assert (p + c)[|p|..] == c;
  }
}
