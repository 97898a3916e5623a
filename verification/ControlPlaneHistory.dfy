/** What the control-plane stores answer, told from the operations that went before. */
module ControlPlaneHistory {
  import opened Bytes
  import opened Collections
  import opened ControlPlane
  import opened FlatStore

  const EMPTY := Memory(map[], map[], map[])

  // ----- the last word on a record -----

  function LastPackage(ops: seq<Op>, n: string): (p: Option<Package>) {
    if ops == [] then None
    else
      match ops[|ops| - 1]
      case StorePackage(p) => if p.name == n then Some(p) else LastPackage(ops[..|ops| - 1], n)
      case DeletePackage(n') => if n' == n then None else LastPackage(ops[..|ops| - 1], n)
      case _ => LastPackage(ops[..|ops| - 1], n)
  }

  function LastDeployment(ops: seq<Op>, k: string): (d: Option<Deployment>) {
    if ops == [] then None
    else
      match ops[|ops| - 1]
      case StoreDeployment(d) => if d.key == k then Some(d) else LastDeployment(ops[..|ops| - 1], k)
      case DeleteDeployment(k') => if k' == k then None else LastDeployment(ops[..|ops| - 1], k)
      case _ => LastDeployment(ops[..|ops| - 1], k)
  }

  function LastMapping(ops: seq<Op>, k: string, c: string): (id: Option<string>) {
    if ops == [] then None
    else
      match ops[|ops| - 1]
      case SaveMapping(k', c', id) => if k' == k && c' == c then Some(id) else LastMapping(ops[..|ops| - 1], k, c)
      case RemoveMappings(k') => if k' == k then None else LastMapping(ops[..|ops| - 1], k, c)
      case _ => LastMapping(ops[..|ops| - 1], k, c)
  }

  /** The memory holds exactly the last words. */
  ghost predicate Remembers(m: Memory, ops: seq<Op>) {
    && (forall n :: Lookup(m.packages, n) == LastPackage(ops, n))
    && (forall k :: Lookup(m.deployments, k) == LastDeployment(ops, k))
    && (forall k, c :: Lookup(MappingsOf(m, k), c) == LastMapping(ops, k, c))
  }

  lemma StepRemembers(m: Memory, ops: seq<Op>, op: Op)
    requires Remembers(m, ops)
    ensures Remembers(MemoryStep(m, op).0, ops + [op])
  {
    hide PackagePasses, Passes;
    var all := ops + [op];
    assert all[..|all| - 1] == ops && all[|all| - 1] == op;
    var m' := MemoryStep(m, op).0;
    forall n ensures Lookup(m'.packages, n) == LastPackage(all, n) {
      assert Lookup(m.packages, n) == LastPackage(ops, n);
    }
    forall k ensures Lookup(m'.deployments, k) == LastDeployment(all, k) {
      assert Lookup(m.deployments, k) == LastDeployment(ops, k);
    }
    forall k, c ensures Lookup(MappingsOf(m', k), c) == LastMapping(all, k, c) {
      assert Lookup(MappingsOf(m, k), c) == LastMapping(ops, k, c);
    }
  }

  lemma {:induction false} MemoryRunNext(m: Memory, ops: seq<Op>, op: Op)
    ensures MemoryRun(m, ops + [op]).0 == MemoryStep(MemoryRun(m, ops).0, op).0
    decreases |ops|
  {
    hide MemoryStep;
    if ops == [] {
      assert (ops + [op])[1..] == [];
    } else {
      assert (ops + [op])[1..] == ops[1..] + [op];
      MemoryRunNext(MemoryStep(m, ops[0]).0, ops[1..], op);
    }
  }

  lemma {:induction false} RunRemembers(ops: seq<Op>)
    ensures Remembers(MemoryRun(EMPTY, ops).0, ops)
    decreases |ops|
  {
    if ops != [] {
      var front, op := ops[..|ops| - 1], ops[|ops| - 1];
      RunRemembers(front);
      hide Remembers, MemoryRun, MemoryStep;
      MemoryRunNext(EMPTY, front, op);
      StepRemembers(MemoryRun(EMPTY, front).0, front, op);
      assert front + [op] == ops;
    }
  }

  // ----- answers -----

  /** The wanted name part occurs in the name. */
  ghost predicate Within(part: string, name: string) {
    exists a: string, b: string :: a + part + b == name
  }

  lemma ContainsIsWithin(name: string, part: string)
    ensures Contains(name, part) <==> Within(part, name)
  {
    if i: nat :| i <= |name| && OccursAt(name, part, i) {
      var a, b := name[..i], name[i + |part|..];
      assert a + part + b == name;
    }
    if a: string, b: string :| a + part + b == name {
      assert name[|a|..|a| + |part|] == part;
      assert OccursAt(name, part, |a|);
    }
  }

  /** What the memory answers after a history: single records are the last words; a listing
      has every record whose last word it is and whose own fields agree with each part of
      the filter that is given. */
  ghost predicate AnswersFrom(ops: seq<Op>, op: Op, a: Answer) {
    match op
    case GetPackage(n) => a == OnePackage(LastPackage(ops, n))
    case PackageExists(n) => a == Truth(LastPackage(ops, n).Some?)
    case ListPackages(f) =>
      a.Packages? && forall p :: p in a.packages <==>
        && LastPackage(ops, p.name) == Some(p)
        && (f.namePattern.Some? ==> Within(f.namePattern.value, p.name))
        && (f.author.Some? ==> p.author == f.author)
        && (f.tags == [] || exists i | 0 <= i < |f.tags| :: f.tags[i] in p.tags)
    case GetDeployment(k) => a == OneDeployment(LastDeployment(ops, k))
    case DeploymentExists(k) => a == Truth(LastDeployment(ops, k).Some?)
    case ListDeployments(f) =>
      a.Deployments? && forall d :: d in a.deployments <==>
        && LastDeployment(ops, d.key) == Some(d)
        && (f.packageName.Some? ==> f.packageName.value == d.packageName)
        && (f.classKey.Some? ==> f.classKey.value == d.classKey)
        && (f.targetEnv.Some? ==> exists i | 0 <= i < |d.targetEnvs| :: d.targetEnvs[i] == f.targetEnv.value)
    case GetMappings(k) => a.Mappings? && forall c :: Lookup(a.mappings, c) == LastMapping(ops, k, c)
    case _ => a == Done
  }

  lemma {:induction false} OwnNames(ops: seq<Op>, n: string)
    ensures LastPackage(ops, n).Some? ==> LastPackage(ops, n).value.name == n
    ensures LastDeployment(ops, n).Some? ==> LastDeployment(ops, n).value.key == n
  {
    if ops != [] {
      OwnNames(ops[..|ops| - 1], n);
    }
  }

  lemma PackageAnswer(m: Memory, ops: seq<Op>, f: PackageFilter)
    requires Remembers(m, ops)
    ensures AnswersFrom(ops, ListPackages(f), MemoryStep(m, ListPackages(f)).1)
  {
    var ps := MemoryStep(m, ListPackages(f)).1.packages;
    forall p
      ensures p in ps <==>
        && LastPackage(ops, p.name) == Some(p)
        && (f.namePattern.Some? ==> Within(f.namePattern.value, p.name))
        && (f.author.Some? ==> p.author == f.author)
        && (f.tags == [] || exists i | 0 <= i < |f.tags| :: f.tags[i] in p.tags)
    {
      if f.namePattern.Some? { ContainsIsWithin(p.name, f.namePattern.value); }
      hide Contains, Within;
      TagsAgree(f, p);
      if n :| n in m.packages && m.packages[n] == p {
        assert Lookup(m.packages, n) == LastPackage(ops, n);
        OwnNames(ops, n);
      }
      assert Lookup(m.packages, p.name) == LastPackage(ops, p.name);
    }
  }

  lemma TagsAgree(f: PackageFilter, p: Package)
    ensures (exists t :: t in f.tags && t in p.tags) <==> exists i | 0 <= i < |f.tags| :: f.tags[i] in p.tags
  {
    if t :| t in f.tags && t in p.tags {
      var i :| 0 <= i < |f.tags| && f.tags[i] == t;
      assert f.tags[i] in p.tags;
    }
    if i :| 0 <= i < |f.tags| && f.tags[i] in p.tags {
      assert f.tags[i] in f.tags;
    }
  }

  lemma DeploymentAnswer(m: Memory, ops: seq<Op>, f: DeploymentFilter)
    requires Remembers(m, ops)
    ensures AnswersFrom(ops, ListDeployments(f), MemoryStep(m, ListDeployments(f)).1)
  {
    var ds := MemoryStep(m, ListDeployments(f)).1.deployments;
    forall d
      ensures d in ds <==>
        && LastDeployment(ops, d.key) == Some(d)
        && (f.packageName.Some? ==> f.packageName.value == d.packageName)
        && (f.classKey.Some? ==> f.classKey.value == d.classKey)
        && (f.targetEnv.Some? ==> exists i | 0 <= i < |d.targetEnvs| :: d.targetEnvs[i] == f.targetEnv.value)
    {
      if k :| k in m.deployments && m.deployments[k] == d {
        assert Lookup(m.deployments, k) == LastDeployment(ops, k);
        OwnNames(ops, k);
      }
      assert Lookup(m.deployments, d.key) == LastDeployment(ops, d.key);
    }
  }

  /** Every answer of the in-memory store, after every run. */
  lemma MemoryAnswers(ops: seq<Op>, op: Op)
    ensures AnswersFrom(ops, op, MemoryStep(MemoryRun(EMPTY, ops).0, op).1)
  {
    RunRemembers(ops);
    var m := MemoryRun(EMPTY, ops).0;
    hide PackagePasses, Passes, MemoryRun, LastPackage, LastDeployment, LastMapping;
    match op
    case ListPackages(f) => PackageAnswer(m, ops, f);
    case ListDeployments(f) => DeploymentAnswer(m, ops, f);
    case GetPackage(n) => assert Lookup(m.packages, n) == LastPackage(ops, n);
    case PackageExists(n) => assert Lookup(m.packages, n) == LastPackage(ops, n);
    case GetDeployment(k) => assert Lookup(m.deployments, k) == LastDeployment(ops, k);
    case DeploymentExists(k) => assert Lookup(m.deployments, k) == LastDeployment(ops, k);
    case GetMappings(k) => assert forall c :: Lookup(MappingsOf(m, k), c) == LastMapping(ops, k, c);
    case _ =>
  }

  /** Every answer of the etcd store, after every run with slash-free deployment keys: the
      same, but a package listing has every package. */
  lemma EtcdAnswers(e: Etcd, ops: seq<Op>, op: Op)
    requires RoundTrips(e.packageCodec) && RoundTrips(e.deploymentCodec)
    requires SlashFreeOp(op) && forall o | o in ops :: SlashFreeOp(o)
    ensures var asked := if op.ListPackages? then ListPackages(PackageFilter(None, None, [])) else op;
            AnswersFrom(ops, asked, e.Step(EtcdRun(e, map[], ops).0, op).1)
  {
    EmptyRepresents(e);
    RunSimulates(e, map[], EMPTY, ops);
    var kv, m := EtcdRun(e, map[], ops).0, MemoryRun(EMPTY, ops).0;
    if op.ListPackages? {
      var every := PackageFilter(None, None, []);
      PackageListing(e, kv, m, op.packageFilter);
      PassingPackages(m, every);
      MemoryAnswers(ops, ListPackages(every));
    } else {
      StepAnswers(e, kv, m, op);
      MemoryAnswers(ops, op);
    }
  }

  // ----- the flat keys, and records that do not decode -----

  /** Where records are kept, and that reading a record that does not decode is an error
      while a listing of deployments passes over it. */
  lemma EtcdReads(e: Etcd, kv: map<string, string>, n: string, c: string, f: DeploymentFilter)
    ensures e.PackageKey(n) == e.prefix + "/packages/" + n
    ensures e.DeploymentKey(n) == e.prefix + "/deployments/" + n
    ensures e.MappingKey(n, c) == e.prefix + "/deployments/" + n + "/clusters/" + c
    ensures e.Step(kv, GetPackage(n)).1 == Invalid <==>
              e.PackageKey(n) in kv && e.packageCodec.decode(kv[e.PackageKey(n)]).None?
    ensures e.Step(kv, GetDeployment(n)).1 == Invalid <==>
              e.DeploymentKey(n) in kv && e.deploymentCodec.decode(kv[e.DeploymentKey(n)]).None?
    ensures e.Step(kv, ListDeployments(f)).1.Deployments?
    ensures e.DeploymentKey(n) in kv && e.deploymentCodec.decode(kv[e.DeploymentKey(n)]).None? ==>
              e.Step(kv, ListDeployments(f)).1 == e.Step(kv - {e.DeploymentKey(n)}, ListDeployments(f)).1
  {
    var x := e.DeploymentKey(n);
    assert e.MappingKey(n, c) == e.prefix + "/deployments/" + n + "/clusters/" + c;
    if x in kv && e.deploymentCodec.decode(kv[x]).None? {
      PassedOver(e, kv, x, f);
    }
  }

  lemma PassedOver(e: Etcd, kv: map<string, string>, x: string, f: DeploymentFilter)
    requires x in kv && e.deploymentCodec.decode(kv[x]).None?
    ensures e.Step(kv, ListDeployments(f)).1 == e.Step(kv - {x}, ListDeployments(f)).1
  {
    hide Passes, e.IsTopLevel;
    var kv' := kv - {x};
    var all := set y | y in kv && e.Selects(kv, y, f) :: e.deploymentCodec.decode(kv[y]).value;
    var rest := set y | y in kv' && e.Selects(kv', y, f) :: e.deploymentCodec.decode(kv'[y]).value;
    forall d | d in all ensures d in rest {
      var y :| y in kv && e.Selects(kv, y, f) && e.deploymentCodec.decode(kv[y]).value == d;
      assert y in kv' && e.Selects(kv', y, f);
    }
    forall d | d in rest ensures d in all {
      var y :| y in kv' && e.Selects(kv', y, f) && e.deploymentCodec.decode(kv'[y]).value == d;
      assert y in kv && e.Selects(kv, y, f);
    }
    assert all == rest;
  }
}
