/** Simulated network links between environments: one link per unordered pair, and
    commands that partition, heal or slow down one link, one environment or everything. */
module NetSim {
  import opened Bytes
  import opened Collections

  type Name = Bytes

  type Key = (Name, Name)

  datatype Link = Link(envA: Name, envB: Name, connected: bool, latency: nat)

  type Links = map<Key, Link>

  predicate NameLeq(a: Name, b: Name) { a == b || SliceLess(a, b) }

  function LinkKey(a: Name, b: Name): (k: Key) {
    if NameLeq(a, b) then (a, b) else (b, a)
  }

  lemma LinkKeySymmetric(a: Name, b: Name)
    ensures LinkKey(a, b) == LinkKey(b, a)
  {
    LessTotal(a, b);
    if Less(a, b) { LessAsymmetric(a, b); }
    if Less(b, a) { LessAsymmetric(b, a); }
  }

  lemma LinkKeyPair(a: Name, b: Name, c: Name, d: Name)
    ensures LinkKey(a, b) == LinkKey(c, d) <==> (a == c && b == d) || (a == d && b == c)
  {
    LinkKeySymmetric(a, b);
  }

  // ----- reading -----

  function IsActive(links: Links, a: Name, b: Name): (r: bool) {
    a == b || (LinkKey(a, b) in links && links[LinkKey(a, b)].connected)
  }

  function LatencyMs(links: Links, a: Name, b: Name): (ms: nat) {
    if a == b || LinkKey(a, b) !in links || !links[LinkKey(a, b)].connected then 0
    else links[LinkKey(a, b)].latency
  }

  // ----- commands -----

  datatype Command =
    | PartitionLink(a: Name, b: Name, body: Option<Option<nat>>)
    | HealLink(a: Name, b: Name)
    | SetLatency(a: Name, b: Name, ms: nat)
    | PartitionEnv(env: Name)
    | HealEnv(env: Name)
    | PartitionAll
    | HealAll

  function Partitioned(l: Link): (r: Link) { l.(connected := false) }

  function Healed(l: Link): (r: Link) { l.(connected := true, latency := 0) }

  predicate Touches(l: Link, env: Name) { l.envA == env || l.envB == env }

  /** What a command makes of a link it reaches. */
  function Effect(c: Command, l: Link): (r: Link) {
    match c
    case PartitionLink(_, _, body) =>
      if body.None? then Partitioned(l)
      else Partitioned(l).(latency := if body.value.Some? then body.value.value else 0)
    case HealLink(_, _) => Healed(l)
    case SetLatency(_, _, ms) => l.(latency := ms)
    case PartitionEnv(env) => if Touches(l, env) then Partitioned(l) else l
    case HealEnv(env) => if Touches(l, env) then Healed(l) else l
    case PartitionAll => Partitioned(l)
    case HealAll => Healed(l)
  }

  /** The command's own pair, if it is about one link. */
  function Target(c: Command): (k: Option<Key>) {
    match c
    case PartitionLink(a, b, _) => Some(LinkKey(a, b))
    case HealLink(a, b) => Some(LinkKey(a, b))
    case SetLatency(a, b, _) => Some(LinkKey(a, b))
    case _ => None
  }

  function Env(c: Command): (e: Option<Name>) {
    match c
    case PartitionEnv(env) => Some(env)
    case HealEnv(env) => Some(env)
    case _ => None
  }

  /** A command is refused, and changes nothing, when its link or environment is unknown. */
  predicate Found(envs: seq<Name>, links: Links, c: Command) {
    && (Target(c).Some? ==> Target(c).value in links)
    && (Env(c).Some? ==> Env(c).value in envs)
  }

  function Apply(envs: seq<Name>, links: Links, c: Command): (r: Links) {
    if !Found(envs, links, c) then links
    else if Target(c).Some? then links[Target(c).value := Effect(c, links[Target(c).value])]
    else map k | k in links :: Effect(c, links[k])
  }

  function ApplyAll(envs: seq<Name>, links: Links, cs: seq<Command>): (r: Links) {
    if cs == [] then links else Apply(envs, ApplyAll(envs, links, cs[..|cs| - 1]), cs[|cs| - 1])
  }

  // ----- the matrix -----

  /** The entry under a key is about that key's two environments. */
  ghost predicate OwnEntry(k: Key, l: Link) {
    && Less(k.0, k.1)
    && ((l.envA == k.0 && l.envB == k.1) || (l.envA == k.1 && l.envB == k.0))
  }

  /** Exactly one entry per unordered pair of different environments, each under its own
      ordered key. */
  ghost predicate WellFormed(envs: seq<Name>, links: Links) {
    && (forall k | k in links :: k.0 in envs && k.1 in envs && OwnEntry(k, links[k]))
    && (forall a, b | a in envs && b in envs && Less(a, b) :: (a, b) in links)
  }

  /** The matrix before any command: a live, undelayed link for every two environments. */
  ghost predicate Fresh(envs: seq<Name>, links: Links) {
    && (forall k | k in links :: NewEntry(envs, k, links[k]))
    && (forall a, b | a in envs && b in envs && a != b :: LinkKey(a, b) in links)
  }

  ghost predicate NewEntry(envs: seq<Name>, k: Key, l: Link) {
    && l.connected && l.latency == 0
    && k == LinkKey(l.envA, l.envB)
    && l.envA in envs && l.envB in envs
    && (Distinct(envs) ==> l.envA != l.envB)
  }

  lemma NewEntryOwned(envs: seq<Name>, k: Key, l: Link)
    requires Distinct(envs) && NewEntry(envs, k, l)
    ensures k.0 in envs && k.1 in envs && OwnEntry(k, l)
  {
    LessTotal(l.envA, l.envB);
  }

  lemma FreshIsWellFormed(envs: seq<Name>, links: Links)
    requires Distinct(envs) && Fresh(envs, links)
    ensures WellFormed(envs, links)
  {
    forall k | k in links ensures k.0 in envs && k.1 in envs && OwnEntry(k, links[k]) {
      NewEntryOwned(envs, k, links[k]);
    }
    forall a, b | a in envs && b in envs && Less(a, b) ensures (a, b) in links {
      LessIrreflexive(a);
      assert LinkKey(a, b) in links;
    }
  }

  lemma FreshAtPair(envs: seq<Name>, links: Links, a: Name, b: Name)
    requires Fresh(envs, links)
    requires a in envs && b in envs && a != b
    ensures LinkKey(a, b) in links
    ensures links[LinkKey(a, b)].connected && links[LinkKey(a, b)].latency == 0
  {
    hide LinkKey;
    assert LinkKey(a, b) in links;
    assert NewEntry(envs, LinkKey(a, b), links[LinkKey(a, b)]);
  }

  lemma EffectKeepsOwner(c: Command, l: Link)
    ensures Effect(c, l).envA == l.envA && Effect(c, l).envB == l.envB
  {
  }

  /** Every command, found or refused, keeps the matrix well-formed. */
  lemma ApplyKeepsForm(envs: seq<Name>, links: Links, c: Command)
    requires WellFormed(envs, links)
    ensures WellFormed(envs, Apply(envs, links, c))
  {
    ApplyKeys(envs, links, c);
    hide Apply, Effect, Less, LinkKey, OwnEntry, Found, Target;
    forall k | k in links ensures OwnEntry(k, Apply(envs, links, c)[k]) {
      ApplyAt(envs, links, c, k);
      EffectKeepsOwner(c, links[k]);
      SameOwner(k, links[k], Effect(c, links[k]));
    }
  }

  lemma SameOwner(k: Key, l: Link, r: Link)
    requires OwnEntry(k, l) && r.envA == l.envA && r.envB == l.envB
    ensures OwnEntry(k, r)
  {
  }

  // ----- what a run of commands means for one pair -----

  /** The command reaches the link between `a` and `b`. */
  predicate Covers(c: Command, a: Name, b: Name) {
    match c
    case PartitionLink(x, y, _) => (x == a && y == b) || (x == b && y == a)
    case HealLink(x, y) => (x == a && y == b) || (x == b && y == a)
    case SetLatency(x, y, _) => (x == a && y == b) || (x == b && y == a)
    case PartitionEnv(env) => env == a || env == b
    case HealEnv(env) => env == a || env == b
    case PartitionAll => true
    case HealAll => true
  }

  predicate Partitions(c: Command) { c.PartitionLink? || c.PartitionEnv? || c.PartitionAll? }

  predicate Heals(c: Command) { c.HealLink? || c.HealEnv? || c.HealAll? }

  /** No partition covering the pair since the last heal that covers it. */
  predicate Up(cs: seq<Command>, a: Name, b: Name) {
    if cs == [] then true
    else
      var c := cs[|cs| - 1];
      if Covers(c, a, b) && Partitions(c) then false
      else if Covers(c, a, b) && Heals(c) then true
      else Up(cs[..|cs| - 1], a, b)
  }

  /** The delay a command gives to the links it reaches, if it gives one. */
  function Given(c: Command): (ms: Option<nat>) {
    match c
    case SetLatency(_, _, ms) => Some(ms)
    case PartitionLink(_, _, Some(ms)) => if ms.Some? then ms else Some(0)
    case _ => if Heals(c) then Some(0) else None
  }

  /** The delay last given to the pair. */
  function Delay(cs: seq<Command>, a: Name, b: Name): (ms: nat) {
    if cs == [] then 0
    else
      var c := cs[|cs| - 1];
      if Covers(c, a, b) && Given(c).Some? then Given(c).value else Delay(cs[..|cs| - 1], a, b)
  }

  /** The link's two ends, in either order. */
  predicate Joins(l: Link, a: Name, b: Name) {
    (l.envA == a && l.envB == b) || (l.envA == b && l.envB == a)
  }

  lemma PairHasLink(envs: seq<Name>, links: Links, a: Name, b: Name)
    requires WellFormed(envs, links)
    requires a in envs && b in envs && a != b
    ensures LinkKey(a, b) in links && Joins(links[LinkKey(a, b)], a, b)
  {
    LessTotal(a, b);
    var k := LinkKey(a, b);
    assert k in links && OwnEntry(k, links[k]);
  }

  /** There is a link between two names exactly when they are two environments. */
  lemma KnownIff(envs: seq<Name>, links: Links, a: Name, b: Name)
    requires WellFormed(envs, links)
    ensures LinkKey(a, b) in links <==> a in envs && b in envs && a != b
  {
    if a in envs && b in envs && a != b {
      PairHasLink(envs, links, a, b);
    }
    if LinkKey(a, b) in links {
      assert OwnEntry(LinkKey(a, b), links[LinkKey(a, b)]);
      LessIrreflexive(a);
    }
  }

  lemma TargetCovers(c: Command, a: Name, b: Name)
    requires Target(c).Some?
    ensures Covers(c, a, b) <==> Target(c).value == LinkKey(a, b)
  {
    hide LinkKey;
    match c
    case PartitionLink(x, y, _) => LinkKeyPair(x, y, a, b);
    case HealLink(x, y) => LinkKeyPair(x, y, a, b);
    case SetLatency(x, y, _) => LinkKeyPair(x, y, a, b);
  }

  lemma EnvCovers(envs: seq<Name>, links: Links, c: Command, a: Name, b: Name, l: Link)
    requires Target(c).None? && Joins(l, a, b) && a in envs && b in envs
    ensures Covers(c, a, b) ==> Found(envs, links, c)
    ensures !Covers(c, a, b) ==> Effect(c, l) == l
  {
  }

  lemma ApplyKeys(envs: seq<Name>, links: Links, c: Command)
    ensures Apply(envs, links, c).Keys == links.Keys
  {
    hide Effect, Target, Env;
  }

  lemma ApplyAt(envs: seq<Name>, links: Links, c: Command, k: Key)
    requires k in links
    ensures k in Apply(envs, links, c)
    ensures Apply(envs, links, c)[k]
            == if Found(envs, links, c) && (Target(c).Some? ==> Target(c).value == k) then Effect(c, links[k]) else links[k]
  {
    hide Effect, Target, Env, Found;
  }

  lemma TargetFound(envs: seq<Name>, links: Links, c: Command)
    ensures Target(c).Some? ==> (Found(envs, links, c) <==> Target(c).value in links)
  {
    hide LinkKey;
  }

  lemma ApplyAtPair(envs: seq<Name>, links: Links, c: Command, a: Name, b: Name)
    requires WellFormed(envs, links)
    requires a in envs && b in envs && a != b
    ensures LinkKey(a, b) in links && LinkKey(a, b) in Apply(envs, links, c)
    ensures Apply(envs, links, c)[LinkKey(a, b)]
            == if Covers(c, a, b) then Effect(c, links[LinkKey(a, b)]) else links[LinkKey(a, b)]
  {
    hide *;
    PairHasLink(envs, links, a, b);
    ApplyAt(envs, links, c, LinkKey(a, b));
    TargetFound(envs, links, c);
    if Target(c).Some? {
      TargetCovers(c, a, b);
    } else {
      EnvCovers(envs, links, c, a, b, links[LinkKey(a, b)]);
    }
  }

  lemma EffectMeaning(c: Command, l: Link, a: Name, b: Name)
    requires Joins(l, a, b) && Covers(c, a, b)
    ensures Effect(c, l).connected == (if Partitions(c) then false else if Heals(c) then true else l.connected)
    ensures Effect(c, l).latency == (if Given(c).Some? then Given(c).value else l.latency)
  {
  }

  lemma StepMeaning(envs: seq<Name>, links: Links, c: Command, a: Name, b: Name)
    requires WellFormed(envs, links)
    requires a in envs && b in envs && a != b
    ensures LinkKey(a, b) in links && LinkKey(a, b) in Apply(envs, links, c)
    ensures var l := links[LinkKey(a, b)];
            var r := Apply(envs, links, c)[LinkKey(a, b)];
            && r.connected
               == (if Covers(c, a, b) && Partitions(c) then false
                   else if Covers(c, a, b) && Heals(c) then true
                   else l.connected)
            && r.latency == (if Covers(c, a, b) && Given(c).Some? then Given(c).value else l.latency)
  {
    hide *;
    PairHasLink(envs, links, a, b);
    ApplyAtPair(envs, links, c, a, b);
    if Covers(c, a, b) {
      EffectMeaning(c, links[LinkKey(a, b)], a, b);
    }
  }

  /** Main result: after any run of commands from fresh links, the matrix is well-formed,
      and each pair is up exactly when no partition has covered it since the last heal that
      did, with the delay last given to it. */
  lemma {:induction false} RunMeaning(envs: seq<Name>, links: Links, cs: seq<Command>, a: Name, b: Name)
    requires Distinct(envs) && Fresh(envs, links)
    requires a in envs && b in envs && a != b
    ensures var now := ApplyAll(envs, links, cs);
            && WellFormed(envs, now)
            && LinkKey(a, b) in now
            && now[LinkKey(a, b)].connected == Up(cs, a, b)
            && now[LinkKey(a, b)].latency == Delay(cs, a, b)
    decreases |cs|
  {
    hide LinkKey, Distinct, WellFormed, Fresh, Apply, Covers, Partitions, Heals, Given;
    if cs == [] {
      FreshIsWellFormed(envs, links);
      FreshAtPair(envs, links, a, b);
    } else {
      var n := |cs| - 1;
      RunMeaning(envs, links, cs[..n], a, b);
      var before := ApplyAll(envs, links, cs[..n]);
      ApplyKeepsForm(envs, before, cs[n]);
      StepMeaning(envs, before, cs[n], a, b);
    }
  }

  /** What the link checker answers after a run: symmetric, always up to oneself, and never
      up to an unknown environment. */
  lemma CheckerMeaning(envs: seq<Name>, links: Links, cs: seq<Command>, a: Name, b: Name)
    requires Distinct(envs) && Fresh(envs, links)
    ensures var now := ApplyAll(envs, links, cs);
            && IsActive(now, a, b) == (a == b || (a in envs && b in envs && Up(cs, a, b)))
            && LatencyMs(now, a, b)
               == (if a != b && a in envs && b in envs && Up(cs, a, b) then Delay(cs, a, b) else 0)
            && IsActive(now, b, a) == IsActive(now, a, b)
            && LatencyMs(now, b, a) == LatencyMs(now, a, b)
  {
    LinkKeySymmetric(a, b);
    var now := ApplyAll(envs, links, cs);
    if a != b {
      if a in envs && b in envs {
        RunMeaning(envs, links, cs, a, b);
      } else {
        RunKeepsForm(envs, links, cs);
        assert LinkKey(a, b) !in now;
      }
    }
  }

  lemma {:induction false} RunKeepsForm(envs: seq<Name>, links: Links, cs: seq<Command>)
    requires Distinct(envs) && Fresh(envs, links)
    ensures WellFormed(envs, ApplyAll(envs, links, cs))
    decreases |cs|
  {
    hide Fresh, Distinct, WellFormed, Apply;
    if cs == [] {
      FreshIsWellFormed(envs, links);
    } else {
      RunKeepsForm(envs, links, cs[..|cs| - 1]);
      ApplyKeepsForm(envs, ApplyAll(envs, links, cs[..|cs| - 1]), cs[|cs| - 1]);
    }
  }

  // ----- the shared state -----

  class NetworkSimState {
    const envNames: seq<Name>
    var links: Links

    constructor (envNames: seq<Name>)
      ensures this.envNames == envNames && Fresh(envNames, links)
    {
      hide LinkKey;
      var built: Links := map[];
      for i := 0 to |envNames|
        invariant forall k | k in built :: NewEntry(envNames, k, built[k])
        invariant forall a, b | a in envNames[..i] && b in envNames && a != b :: LinkKey(a, b) in built
      {
        forall b | b in envNames[..i] && b != envNames[i] ensures LinkKey(envNames[i], b) in built {
          LinkKeySymmetric(b, envNames[i]);
        }
        for j := i + 1 to |envNames|
          invariant forall k | k in built :: NewEntry(envNames, k, built[k])
          invariant forall a, b | a in envNames[..i] && b in envNames && a != b :: LinkKey(a, b) in built
          invariant forall b | b in envNames[..j] && b != envNames[i] :: LinkKey(envNames[i], b) in built
        {
          var key := LinkKey(envNames[i], envNames[j]);
          built := built[key := Link(envNames[i], envNames[j], true, 0)];
        }
        assert envNames[..|envNames|] == envNames;
        assert envNames[..i + 1] == envNames[..i] + [envNames[i]];
      }
      assert envNames[..|envNames|] == envNames;
      this.envNames := envNames;
      links := built;
    }

    method Partition(a: Name, b: Name, body: Option<Option<nat>>) returns (found: bool)
      modifies this
      ensures found == Found(envNames, old(links), PartitionLink(a, b, body))
      ensures links == Apply(envNames, old(links), PartitionLink(a, b, body))
      ensures WellFormed(envNames, old(links)) ==> (found <==> a in envNames && b in envNames && a != b)
    {
      if WellFormed(envNames, links) { KnownIff(envNames, links, a, b); }
      hide WellFormed;
      var key := LinkKey(a, b);
      if key !in links {
        return false;
      }
      links := links[key := links[key].(connected := false)];
      if body.Some? {
        links := links[key := links[key].(latency := if body.value.Some? then body.value.value else 0)];
      }
      return true;
    }

    method Heal(a: Name, b: Name) returns (found: bool)
      modifies this
      ensures found == Found(envNames, old(links), HealLink(a, b))
      ensures links == Apply(envNames, old(links), HealLink(a, b))
      ensures WellFormed(envNames, old(links)) ==> (found <==> a in envNames && b in envNames && a != b)
    {
      if WellFormed(envNames, links) { KnownIff(envNames, links, a, b); }
      hide WellFormed;
      var key := LinkKey(a, b);
      if key !in links {
        return false;
      }
      links := links[key := links[key].(connected := true)];
      links := links[key := links[key].(latency := 0)];
      return true;
    }

    method SetLinkLatency(a: Name, b: Name, ms: nat) returns (found: bool)
      modifies this
      ensures found == Found(envNames, old(links), SetLatency(a, b, ms))
      ensures links == Apply(envNames, old(links), SetLatency(a, b, ms))
      ensures WellFormed(envNames, old(links)) ==> (found <==> a in envNames && b in envNames && a != b)
    {
      if WellFormed(envNames, links) { KnownIff(envNames, links, a, b); }
      hide WellFormed;
      var key := LinkKey(a, b);
      if key !in links {
        return false;
      }
      links := links[key := links[key].(latency := ms)];
      return true;
    }

    /** Partition or heal one environment; the other ends of the links it changed. */
    method SwitchEnv(env: Name, up: bool) returns (affected: Option<set<Name>>)
      modifies this
      ensures var c := if up then HealEnv(env) else PartitionEnv(env);
              && affected.Some? == Found(envNames, old(links), c)
              && affected.Some? == (env in envNames)
              && links == Apply(envNames, old(links), c)
      ensures affected.Some? && WellFormed(envNames, old(links)) ==>
                forall x :: x in affected.value <==> x in envNames && x != env
    {
      if env !in envNames {
        return None;
      }
      var others: set<Name>;
      links, others := SwitchTouching(links, env, up);
      if WellFormed(envNames, old(links)) {
        forall x ensures x in others <==> x in envNames && x != env {
          OtherEnds(envNames, old(links), env, x);
        }
      }
      return Some(others);
    }

    method SwitchAll(up: bool)
      modifies this
      ensures links == Apply(envNames, old(links), if up then HealAll else PartitionAll)
    {
      links := SwitchEvery(links, up);
    }
  }

  function Switched(l: Link, up: bool): (r: Link) {
    if up then Healed(l) else Partitioned(l)
  }

  /** The loop over all links of one environment's command. */
  method SwitchTouching(links: Links, env: Name, up: bool) returns (r: Links, others: set<Name>)
    ensures r == map k | k in links :: if Touches(links[k], env) then Switched(links[k], up) else links[k]
    ensures forall x :: x in others <==> exists k :: k in links && Other(links[k], env, x)
  {
    r, others := links, {};
    var todo := links.Keys;
    while todo != {}
      invariant todo <= links.Keys == r.Keys
      invariant forall k | k in todo :: r[k] == links[k]
      invariant forall k | k in links && k !in todo ::
                  r[k] == if Touches(links[k], env) then Switched(links[k], up) else links[k]
      invariant forall x :: x in others <==> exists k :: k in links && k !in todo && Other(links[k], env, x)
      decreases |todo|
    {
      var k :| k in todo;
      todo := todo - {k};
      if r[k].envA == env || r[k].envB == env {
        others := others + {if r[k].envA == env then r[k].envB else r[k].envA};
        r := r[k := Switched(r[k], up)];
      }
    }
  }

  /** The loop over all links of a global command. */
  method SwitchEvery(links: Links, up: bool) returns (r: Links)
    ensures r == map k | k in links :: Switched(links[k], up)
  {
    r := links;
    var todo := links.Keys;
    while todo != {}
      invariant todo <= links.Keys == r.Keys
      invariant forall k | k in links :: r[k] == if k in todo then links[k] else Switched(links[k], up)
      decreases |todo|
    {
      var k :| k in todo;
      todo := todo - {k};
      r := r[k := Switched(r[k], up)];
    }
  }

  /** The link joins `env` to `x`. */
  predicate Other(l: Link, env: Name, x: Name) {
    if l.envA == env then x == l.envB else l.envB == env && x == l.envA
  }

  lemma OtherEnds(envs: seq<Name>, links: Links, env: Name, x: Name)
    requires WellFormed(envs, links) && env in envs
    ensures (exists k :: k in links && Other(links[k], env, x)) <==> x in envs && x != env
  {
    if k :| k in links && Other(links[k], env, x) {
      assert OwnEntry(k, links[k]);
      LessIrreflexive(k.0);
    }
    if x in envs && x != env {
      LessTotal(env, x);
      var k := LinkKey(env, x);
      assert k in links && OwnEntry(k, links[k]);
      assert Other(links[k], env, x);
    }
  }
}
