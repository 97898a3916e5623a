/** The two control-plane stores as objects, each method proved against the step
    functions that the simulation relates. Etcd is the map it serves. */
module ControlPlaneStores {
  import opened Bytes
  import opened ControlPlane
  import FlatStore

  /** Adding a new element to a list adds it to the set the list enumerates. */
  lemma Enumerates<T>(r: seq<T>, got: set<T>, x: T)
    requires multiset(r) == multiset(got)
    requires x !in got
    ensures multiset(r + [x]) == multiset(got + {x})
  {
  }

  /** The filter tests of a deployment listing, in turn. */
  method DeploymentMatches(f: DeploymentFilter, d: Deployment) returns (ok: bool)
    ensures ok == Passes(f, d)
    ensures ok <==> && (f.packageName.Some? ==> d.packageName == f.packageName.value)
                    && (f.classKey.Some? ==> d.classKey == f.classKey.value)
                    && (f.targetEnv.Some? ==> f.targetEnv.value in d.targetEnvs)
  {
    if f.packageName.Some? && d.packageName != f.packageName.value {
      return false;
    }
    if f.classKey.Some? && d.classKey != f.classKey.value {
      return false;
    }
    if f.targetEnv.Some? && f.targetEnv.value !in d.targetEnvs {
      return false;
    }
    return true;
  }

  /** The filter tests of a package listing: any one of the wanted tags will do. */
  method PackageMatches(f: PackageFilter, p: Package) returns (ok: bool)
    ensures ok == PackagePasses(f, p)
  {
    if f.namePattern.Some? && !Contains(p.name, f.namePattern.value) {
      return false;
    }
    if f.author.Some? && (p.author.None? || p.author.value != f.author.value) {
      return false;
    }
    if |f.tags| == 0 {
      return true;
    }
    for i := 0 to |f.tags|
      invariant forall t | t in f.tags[..i] :: t !in p.tags
    {
      if f.tags[i] in p.tags {
        return true;
      }
      assert f.tags[..i + 1] == f.tags[..i] + [f.tags[i]];
    }
    assert f.tags[..|f.tags|] == f.tags;
    return false;
  }

  class EtcdStorage {
    const etcd: Etcd
    var kv: map<string, string>

    constructor (etcd: Etcd)
      requires RoundTrips(etcd.packageCodec) && RoundTrips(etcd.deploymentCodec)
      ensures this.etcd == etcd && kv == map[] && Keyed()
    {
      this.etcd := etcd;
      kv := map[];
    }

    /** Every record that a listing decodes sits under its own key. */
    ghost predicate Keyed()
      reads this
    {
      && RoundTrips(etcd.packageCodec)
      && RoundTrips(etcd.deploymentCodec)
      && (forall k | k in kv :: Fits(k, kv[k]))
    }

    /** A value no listing reads as a record, or a record under its own key. */
    ghost predicate Fits(k: string, v: string)
      reads this
    {
      && (etcd.PackageBase() <= k && etcd.packageCodec.decode(v).Some?
          ==> etcd.PackageKey(etcd.packageCodec.decode(v).value.name) == k)
      && (etcd.IsTopLevel(k) && etcd.deploymentCodec.decode(v).Some?
          ==> etcd.DeploymentKey(etcd.deploymentCodec.decode(v).value.key) == k)
    }

    method Put(k: string, v: string)
      requires Keyed() && Fits(k, v)
      modifies this
      ensures Keyed() && kv == old(kv)[k := v]
    {
      kv := kv[k := v];
    }

    method Delete(k: string)
      requires Keyed()
      modifies this
      ensures Keyed() && kv == old(kv) - {k}
    {
      kv := kv - {k};
    }

    method StorePackage(p: Package)
      requires Keyed()
      modifies this
      ensures Keyed() && kv == etcd.Step(old(kv), Op.StorePackage(p)).0
    {
      FlatStore.PackageKeyFacts(etcd, p.name, p.name, etcd.PackageKey(p.name));
      Put(etcd.PackageKey(p.name), etcd.packageCodec.encode(p));
    }

    method DeletePackage(n: string)
      requires Keyed()
      modifies this
      ensures Keyed() && kv == etcd.Step(old(kv), Op.DeletePackage(n)).0
    {
      Delete(etcd.PackageKey(n));
    }

    /** The listing, or nothing when some record does not decode; the filter is ignored. */
    method ListPackages(f: PackageFilter) returns (r: Option<seq<Package>>)
      requires Keyed()
      ensures var a := etcd.Step(kv, Op.ListPackages(f)).1;
              if r.None? then a == Invalid else a.Packages? && multiset(r.value) == multiset(a.packages)
    {
      var base := etcd.PackageBase();
      var todo := set k | k in kv && base <= k;
      ghost var every := todo;
      var ps := [];
      ghost var got: set<Package> := {};
      while todo != {}
        invariant todo <= every
        invariant forall k | k in every - todo :: etcd.packageCodec.decode(kv[k]).Some?
        invariant got == set k | k in every - todo :: etcd.packageCodec.decode(kv[k]).value
        invariant multiset(ps) == multiset(got)
        decreases |todo|
      {
        var k :| k in todo;
        var p := etcd.packageCodec.decode(kv[k]);
        if p.None? {
          return None;
        }
        assert Fits(k, kv[k]);
        Enumerates(ps, got, p.value);
        ps := ps + [p.value];
        got := got + {p.value};
        todo := todo - {k};
      }
      assert got == set k | k in kv && base <= k :: etcd.packageCodec.decode(kv[k]).value;
      return Some(ps);
    }

    method StoreDeployment(d: Deployment)
      requires Keyed()
      modifies this
      ensures Keyed() && kv == etcd.Step(old(kv), Op.StoreDeployment(d)).0
    {
      FlatStore.DeploymentKeyFacts(etcd, d.key);
      FlatStore.AreasApart(etcd, etcd.DeploymentKey(d.key));
      Put(etcd.DeploymentKey(d.key), etcd.deploymentCodec.encode(d));
    }

    method DeleteDeployment(k: string)
      requires Keyed()
      modifies this
      ensures Keyed() && kv == etcd.Step(old(kv), Op.DeleteDeployment(k)).0
    {
      Delete(etcd.DeploymentKey(k));
    }

    /** What the listing takes of the given keys. */
    ghost function Taken(ks: set<string>, f: DeploymentFilter): (ds: set<Deployment>)
      requires ks <= kv.Keys
      reads this
    {
      set k | k in ks && etcd.Selects(kv, k, f) :: etcd.deploymentCodec.decode(kv[k]).value
    }

    lemma TakenNext(ks: set<string>, k: string, f: DeploymentFilter)
      requires Keyed()
      requires ks <= kv.Keys && k in kv && k !in ks
      ensures !etcd.Selects(kv, k, f) ==> Taken(ks + {k}, f) == Taken(ks, f)
      ensures etcd.Selects(kv, k, f) ==>
                && etcd.deploymentCodec.decode(kv[k]).value !in Taken(ks, f)
                && Taken(ks + {k}, f) == Taken(ks, f) + {etcd.deploymentCodec.decode(kv[k]).value}
    {
      hide Passes;
      assert Fits(k, kv[k]);
      assert forall k' | k' in ks :: Fits(k', kv[k']);
    }

    /** One pass of the listing loop: the record to push, if any. */
    method Decide(k: string, f: DeploymentFilter) returns (d: Option<Deployment>)
      requires k in kv && etcd.DeploymentBase() <= k
      ensures d.Some? <==> etcd.Selects(kv, k, f)
      ensures d.Some? ==> d == etcd.deploymentCodec.decode(kv[k])
      ensures d.Some? <==> && '/' !in k[|etcd.DeploymentBase()|..] && etcd.deploymentCodec.decode(kv[k]).Some?
                           && var x := etcd.deploymentCodec.decode(kv[k]).value;
                           && (f.packageName.Some? ==> x.packageName == f.packageName.value)
                           && (f.classKey.Some? ==> x.classKey == f.classKey.value)
                           && (f.targetEnv.Some? ==> f.targetEnv.value in x.targetEnvs)
    {
      if '/' in k[|etcd.DeploymentBase()|..] {
        return None;
      }
      d := etcd.deploymentCodec.decode(kv[k]);
      if d.None? {
        return None;
      }
      var ok := DeploymentMatches(f, d.value);
      if !ok {
        return None;
      }
    }

    method ListDeployments(f: DeploymentFilter) returns (r: seq<Deployment>)
      requires Keyed()
      ensures multiset(r) == multiset(etcd.Step(kv, Op.ListDeployments(f)).1.deployments)
    {
      var base := etcd.DeploymentBase();
      var todo := set k | k in kv && base <= k;
      ghost var every := todo;
      assert Taken(every, f) == etcd.Step(kv, Op.ListDeployments(f)).1.deployments;
      hide Passes, etcd.Selects, etcd.Step, etcd.IsTopLevel, Fits;
      r := [];
      assert Taken({}, f) == {} && every - todo == {};
      hide Taken;
      while todo != {}
        invariant todo <= every
        invariant multiset(r) == multiset(Taken(every - todo, f))
        decreases |todo|
      {
        var k :| k in todo;
        var d := Decide(k, f);
        TakenNext(every - todo, k, f);
        assert every - (todo - {k}) == every - todo + {k};
        if d.Some? {
          Enumerates(r, Taken(every - todo, f), d.value);
          r := r + [d.value];
        }
        todo := todo - {k};
      }
      assert every - todo == every;
    }

    method SaveClusterMapping(k: string, cluster: string, id: string)
      requires Keyed()
      modifies this
      ensures Keyed() && kv == etcd.Step(old(kv), SaveMapping(k, cluster, id)).0
    {
      FlatStore.MappingKeyFacts(etcd, k, cluster);
      FlatStore.AreasApart(etcd, etcd.MappingKey(k, cluster));
      Put(etcd.MappingKey(k, cluster), id);
    }

    method GetClusterMappings(k: string) returns (r: map<string, string>)
      ensures Mappings(r) == etcd.Step(kv, GetMappings(k)).1
    {
      var p := etcd.MappingPrefix(k);
      var todo := set x | x in kv && p <= x;
      ghost var every := todo;
      r := map[];
      while todo != {}
        invariant todo <= every
        invariant forall c :: c in r <==> p + c in every - todo
        invariant forall c | c in r :: r[c] == kv[p + c]
        decreases |todo|
      {
        var x :| x in todo;
        assert x == p + x[|p|..];
        assert forall c :: p + c == x ==> c == x[|p|..];
        r := r[x[|p|..] := kv[x]];
        todo := todo - {x};
      }
      forall c ensures c in r <==> c in etcd.Below(kv, p) {
        if p + c in kv { assert (p + c)[|p|..] == c; }
      }
    }

    method RemoveClusterMappings(k: string)
      requires Keyed()
      modifies this
      ensures Keyed() && kv == etcd.Step(old(kv), RemoveMappings(k)).0
    {
      var p := etcd.MappingPrefix(k);
      kv := map x | x in kv && !(p <= x) :: kv[x];
    }
  }

  ghost function PackagesIn(all: map<string, Package>, names: set<string>, f: PackageFilter): (r: set<Package>)
    requires names <= all.Keys
  {
    set n | n in names && PackagePasses(f, all[n]) :: all[n]
  }

  lemma NextPackage(all: map<string, Package>, seen: set<string>, n: string, f: PackageFilter)
    requires seen + {n} <= all.Keys && n !in seen && forall n | n in all :: all[n].name == n
    ensures all[n] !in PackagesIn(all, seen, f)
    ensures PackagesIn(all, seen + {n}, f)
            == PackagesIn(all, seen, f) + if PackagePasses(f, all[n]) then {all[n]} else {}
  {
    hide PackagePasses;
  }

  ghost function DeploymentsIn(all: map<string, Deployment>, keys: set<string>, f: DeploymentFilter): (r: set<Deployment>)
    requires keys <= all.Keys
  {
    set k | k in keys && Passes(f, all[k]) :: all[k]
  }

  lemma NextDeployment(all: map<string, Deployment>, seen: set<string>, k: string, f: DeploymentFilter)
    requires seen + {k} <= all.Keys && k !in seen && forall k | k in all :: all[k].key == k
    ensures all[k] !in DeploymentsIn(all, seen, f)
    ensures DeploymentsIn(all, seen + {k}, f)
            == DeploymentsIn(all, seen, f) + if Passes(f, all[k]) then {all[k]} else {}
  {
    hide Passes;
  }

  /** The in-memory package and deployment stores together. */
  class MemoryStores {
    var packages: map<string, Package>
    var deployments: map<string, Deployment>
    var clusterMappings: map<string, map<string, string>>

    constructor ()
      ensures View() == Memory(map[], map[], map[]) && Keyed()
    {
      packages, deployments, clusterMappings := map[], map[], map[];
    }

    ghost function View(): (m: Memory)
      reads this
    {
      Memory(packages, deployments, clusterMappings)
    }

    ghost predicate Keyed()
      reads this
    {
      && (forall n | n in packages :: packages[n].name == n)
      && (forall k | k in deployments :: deployments[k].key == k)
    }

    method StorePackage(p: Package)
      requires Keyed()
      modifies this
      ensures Keyed() && View() == MemoryStep(old(View()), Op.StorePackage(p)).0
    {
      packages := packages[p.name := p];
    }

    method DeletePackage(n: string)
      requires Keyed()
      modifies this
      ensures Keyed() && View() == MemoryStep(old(View()), Op.DeletePackage(n)).0
    {
      packages := packages - {n};
    }

    method ListPackages(f: PackageFilter) returns (r: seq<Package>)
      requires Keyed()
      ensures multiset(r) == multiset(MemoryStep(View(), Op.ListPackages(f)).1.packages)
    {
      r := [];
      var todo := packages.Keys;
      assert packages.Keys - todo == {} && PackagesIn(packages, {}, f) == {};
      assert MemoryStep(View(), Op.ListPackages(f)).1.packages == PackagesIn(packages, packages.Keys, f);
      assert forall n | n in packages :: packages[n].name == n;
      hide *;
      while todo != {}
        invariant todo <= packages.Keys
        invariant multiset(r) == multiset(PackagesIn(packages, packages.Keys - todo, f))
        decreases |todo|
      {
        var n :| n in todo;
        ghost var seen := packages.Keys - todo;
        todo := todo - {n};
        assert packages.Keys - todo == seen + {n};
        NextPackage(packages, seen, n, f);
        var ok := PackageMatches(f, packages[n]);
        if ok {
          Enumerates(r, PackagesIn(packages, seen, f), packages[n]);
          r := r + [packages[n]];
        }
      }
      assert packages.Keys - todo == packages.Keys;
    }

    method StoreDeployment(d: Deployment)
      requires Keyed()
      modifies this
      ensures Keyed() && View() == MemoryStep(old(View()), Op.StoreDeployment(d)).0
    {
      deployments := deployments[d.key := d];
    }

    method DeleteDeployment(k: string)
      requires Keyed()
      modifies this
      ensures Keyed() && View() == MemoryStep(old(View()), Op.DeleteDeployment(k)).0
    {
      deployments := deployments - {k};
    }

    method ListDeployments(f: DeploymentFilter) returns (r: seq<Deployment>)
      requires Keyed()
      ensures multiset(r) == multiset(MemoryStep(View(), Op.ListDeployments(f)).1.deployments)
    {
      r := [];
      var todo := deployments.Keys;
      assert deployments.Keys - todo == {} && DeploymentsIn(deployments, {}, f) == {};
      assert MemoryStep(View(), Op.ListDeployments(f)).1.deployments
             == DeploymentsIn(deployments, deployments.Keys, f);
      assert forall k | k in deployments :: deployments[k].key == k;
      hide *;
      while todo != {}
        invariant todo <= deployments.Keys
        invariant multiset(r) == multiset(DeploymentsIn(deployments, deployments.Keys - todo, f))
        decreases |todo|
      {
        var k :| k in todo;
        ghost var seen := deployments.Keys - todo;
        todo := todo - {k};
        assert deployments.Keys - todo == seen + {k};
        NextDeployment(deployments, seen, k, f);
        var ok := DeploymentMatches(f, deployments[k]);
        if ok {
          Enumerates(r, DeploymentsIn(deployments, seen, f), deployments[k]);
          r := r + [deployments[k]];
        }
      }
      assert deployments.Keys - todo == deployments.Keys;
    }

    method SaveClusterMapping(k: string, cluster: string, id: string)
      requires Keyed()
      modifies this
      ensures Keyed() && View() == MemoryStep(old(View()), SaveMapping(k, cluster, id)).0
    {
      if k !in clusterMappings {
        clusterMappings := clusterMappings[k := map[]];
      }
      clusterMappings := clusterMappings[k := clusterMappings[k][cluster := id]];
    }

    method GetClusterMappings(k: string) returns (r: map<string, string>)
      ensures Mappings(r) == MemoryStep(View(), GetMappings(k)).1
    {
      r := if k in clusterMappings then clusterMappings[k] else map[];
    }

    method RemoveClusterMappings(k: string)
      requires Keyed()
      modifies this
      ensures Keyed() && View() == MemoryStep(old(View()), RemoveMappings(k)).0
    {
      clusterMappings := clusterMappings - {k};
    }
  }
}
