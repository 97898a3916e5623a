/** The control-plane store: typed in-memory maps, and the one flat key space of
    etcd that has to behave like them. */
module ControlPlane {
  import opened Bytes
  import opened Collections

  datatype Package = Package(name: string, author: Option<string>, tags: seq<string>, body: string)

  datatype Deployment = Deployment(key: string, packageName: string, classKey: string, targetEnvs: seq<string>,
                                   body: string)

  datatype PackageFilter = PackageFilter(namePattern: Option<string>, author: Option<string>, tags: seq<string>)

  datatype DeploymentFilter = DeploymentFilter(packageName: Option<string>, classKey: Option<string>,
                                               targetEnv: Option<string>)

  predicate OccursAt(s: string, t: string, i: nat) {
    i + |t| <= |s| && s[i..i + |t|] == t
  }

  predicate Contains(s: string, t: string) {
    exists i: nat | i <= |s| :: OccursAt(s, t, i)
  }

  predicate PackagePasses(f: PackageFilter, p: Package) {
    && (f.namePattern.Some? ==> Contains(p.name, f.namePattern.value))
    && (f.author.Some? ==> p.author == f.author)
    && (f.tags != [] ==> exists t :: t in f.tags && t in p.tags)
  }

  predicate Passes(f: DeploymentFilter, d: Deployment) {
    && (f.packageName.Some? ==> d.packageName == f.packageName.value)
    && (f.classKey.Some? ==> d.classKey == f.classKey.value)
    && (f.targetEnv.Some? ==> f.targetEnv.value in d.targetEnvs)
  }

  datatype Op =
    | StorePackage(package: Package)
    | GetPackage(name: string)
    | ListPackages(packageFilter: PackageFilter)
    | DeletePackage(name: string)
    | PackageExists(name: string)
    | StoreDeployment(deployment: Deployment)
    | GetDeployment(key: string)
    | ListDeployments(filter: DeploymentFilter)
    | DeleteDeployment(key: string)
    | DeploymentExists(key: string)
    | SaveMapping(key: string, cluster: string, id: string)
    | GetMappings(key: string)
    | RemoveMappings(key: string)

  datatype Answer =
    | Done
    | Truth(b: bool)
    | OnePackage(package: Option<Package>)
    | Packages(packages: set<Package>)
    | OneDeployment(deployment: Option<Deployment>)
    | Deployments(deployments: set<Deployment>)
    | Mappings(mappings: map<string, string>)
    | Invalid

  // ----- in memory -----

  datatype Memory = Memory(packages: map<string, Package>, deployments: map<string, Deployment>,
                           mappings: map<string, map<string, string>>)

  function MappingsOf(m: Memory, k: string): (r: map<string, string>) {
    if k in m.mappings then m.mappings[k] else map[]
  }

  function MemoryStep(m: Memory, op: Op): (r: (Memory, Answer)) {
    match op
    case StorePackage(p) => (m.(packages := m.packages[p.name := p]), Done)
    case GetPackage(n) => (m, OnePackage(Lookup(m.packages, n)))
    case ListPackages(f) => (m, Packages(set n | n in m.packages && PackagePasses(f, m.packages[n]) :: m.packages[n]))
    case DeletePackage(n) => (m.(packages := m.packages - {n}), Done)
    case PackageExists(n) => (m, Truth(n in m.packages))
    case StoreDeployment(d) => (m.(deployments := m.deployments[d.key := d]), Done)
    case GetDeployment(k) => (m, OneDeployment(Lookup(m.deployments, k)))
    case ListDeployments(f) =>
      (m, Deployments(set k | k in m.deployments && Passes(f, m.deployments[k]) :: m.deployments[k]))
    case DeleteDeployment(k) => (m.(deployments := m.deployments - {k}), Done)
    case DeploymentExists(k) => (m, Truth(k in m.deployments))
    case SaveMapping(k, c, id) => (m.(mappings := m.mappings[k := MappingsOf(m, k)[c := id]]), Done)
    case GetMappings(k) => (m, Mappings(MappingsOf(m, k)))
    case RemoveMappings(k) => (m.(mappings := m.mappings - {k}), Done)
  }

  // ----- in etcd -----

  /** JSON, kept abstract: an encoder, and a decoder that may fail. */
  datatype Codec<!T> = Codec(encode: T -> string, decode: string -> Option<T>)

  ghost predicate RoundTrips<T(!new)>(c: Codec<T>) {
    forall x :: c.decode(c.encode(x)) == Some(x)
  }

  datatype Etcd = Etcd(prefix: string, packageCodec: Codec<Package>, deploymentCodec: Codec<Deployment>) {

    function PackageBase(): (s: string) { prefix + "/packages/" }

    function DeploymentBase(): (s: string) { prefix + "/deployments/" }

    function PackageKey(name: string): (s: string) { PackageBase() + name }

    function DeploymentKey(key: string): (s: string) { DeploymentBase() + key }

    function MappingPrefix(key: string): (s: string) { DeploymentBase() + key + "/clusters/" }

    function MappingKey(key: string, cluster: string): (s: string) { MappingPrefix(key) + cluster }

    /** A listed key that is a deployment record: nothing nested below it. */
    predicate IsTopLevel(k: string) {
      DeploymentBase() <= k && '/' !in k[|DeploymentBase()|..]
    }

    predicate Selects(kv: map<string, string>, k: string, f: DeploymentFilter)
      requires k in kv
    {
      IsTopLevel(k) && deploymentCodec.decode(kv[k]).Some? && Passes(f, deploymentCodec.decode(kv[k]).value)
    }

    /** The clusters stored below a mapping prefix. */
    function Below(kv: map<string, string>, p: string): (m: map<string, string>) {
      var clusters := set k | k in kv && p <= k :: k[|p|..];
      map c | c in clusters && p + c in kv :: kv[p + c]
    }

    function Step(kv: map<string, string>, op: Op): (r: (map<string, string>, Answer)) {
      match op
      case StorePackage(p) => (kv[PackageKey(p.name) := packageCodec.encode(p)], Done)
      case GetPackage(n) =>
        var v := Lookup(kv, PackageKey(n));
        (kv, if v.None? then OnePackage(None)
             else if packageCodec.decode(v.value).None? then Invalid
             else OnePackage(packageCodec.decode(v.value)))
      case ListPackages(_) =>
        (kv, if exists k :: k in kv && PackageBase() <= k && packageCodec.decode(kv[k]).None? then Invalid
             else Packages(set k | k in kv && PackageBase() <= k :: packageCodec.decode(kv[k]).value))
      case DeletePackage(n) => (kv - {PackageKey(n)}, Done)
      case PackageExists(n) => (kv, Truth(PackageKey(n) in kv))
      case StoreDeployment(d) => (kv[DeploymentKey(d.key) := deploymentCodec.encode(d)], Done)
      case GetDeployment(k) =>
        var v := Lookup(kv, DeploymentKey(k));
        (kv, if v.None? then OneDeployment(None)
             else if deploymentCodec.decode(v.value).None? then Invalid
             else OneDeployment(deploymentCodec.decode(v.value)))
      case ListDeployments(f) =>
        (kv, Deployments(set k | k in kv && Selects(kv, k, f) :: deploymentCodec.decode(kv[k]).value))
      case DeleteDeployment(k) => (kv - {DeploymentKey(k)}, Done)
      case DeploymentExists(k) => (kv, Truth(DeploymentKey(k) in kv))
      case SaveMapping(k, c, id) => (kv[MappingKey(k, c) := id], Done)
      case GetMappings(k) => (kv, Mappings(Below(kv, MappingPrefix(k))))
      case RemoveMappings(k) => (map x | x in kv && !(MappingPrefix(k) <= x) :: kv[x], Done)
    }

    /** Keys outside the two areas this store uses. */
    predicate Foreign(k: string) {
      !(PackageBase() <= k) && !(DeploymentBase() <= k)
    }
  }
}
