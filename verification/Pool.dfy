/** A pool that opens sessions up to a maximum and hands them out in rotation. */
module Pool {
  import opened Collections

  /** A session is its place in the pool; `ports[i]` is the port session `i` listens on. */
  datatype Pool = Pool(next: nat, ports: seq<nat>)

  datatype Config = Config(maxSessions: nat, basePort: nat)

  /** Opening failed; the pool may hold no session, where the code divides by zero and panics;
      or the session handed out. */
  datatype Reply = OpenFailed | Empty | Session(index: nat)

  /** The base port plus the index cut to sixteen bits, saturating; 0 lets the system choose. */
  function ListenPort(c: Config, index: nat): (p: nat) {
    if c.basePort == 0 then 0
    else if c.basePort + index % 0x1_0000 <= 0xFFFF then c.basePort + index % 0x1_0000
    else 0xFFFF
  }

  /** One call; `opens` says whether opening a session would succeed. */
  function Get(c: Config, p: Pool, opens: bool): (r: (Pool, Reply)) {
    var next := p.next + 1;
    if |p.ports| < c.maxSessions && !opens then (Pool(next, p.ports), OpenFailed)
    else
      var ports := if |p.ports| < c.maxSessions then p.ports + [ListenPort(c, |p.ports|)] else p.ports;
      (Pool(next, ports), if ports == [] then Empty else Session(next % |ports|))
  }

  const NEW := Pool(0, [])

  function Run(c: Config, opens: seq<bool>): (p: Pool) {
    if opens == [] then NEW else Get(c, Run(c, opens[..|opens| - 1]), opens[|opens| - 1]).0
  }

  /** The reply to call number `k` of the run, counted from 0. */
  function Answer(c: Config, opens: seq<bool>, k: nat): (r: Reply)
    requires k < |opens|
  {
    Get(c, Run(c, opens[..k]), opens[k]).1
  }

  function Count(opens: seq<bool>): (n: nat) {
    if opens == [] then 0 else Count(opens[..|opens| - 1]) + if opens[|opens| - 1] then 1 else 0
  }

  /** After any run the pool has counted every call, holds as many sessions as could be
      opened up to the maximum, and each listens on the port of its own index. */
  lemma {:induction false} RunHolds(c: Config, opens: seq<bool>)
    ensures var p := Run(c, opens);
            && p.next == |opens|
            && |p.ports| == Min(Count(opens), c.maxSessions)
            && (forall i | 0 <= i < |p.ports| :: p.ports[i] == ListenPort(c, i))
  {
    if opens != [] {
      RunHolds(c, opens[..|opens| - 1]);
    }
  }

  lemma {:induction false} AllOpen(opens: seq<bool>)
    requires forall i | 0 <= i < |opens| :: opens[i]
    ensures Count(opens) == |opens|
  {
    if opens != [] {
      AllOpen(opens[..|opens| - 1]);
    }
  }

  /** While the pool grows without failures every call gets the first session, and the
      maximum then starts the rotation. */
  lemma GrowingGivesFirst(c: Config, opens: seq<bool>, k: nat)
    requires k < |opens| && k < c.maxSessions
    requires forall i | 0 <= i <= k :: opens[i]
    ensures Answer(c, opens, k) == Session(0)
  {
    RunHolds(c, opens[..k]);
    AllOpen(opens[..k]);
    assert (k + 1) % (k + 1) == 0;
  }

  /** The ports themselves: none chosen without a base port, and else counted up from it to
      the largest there is. */
  lemma PortsAre(c: Config, opens: seq<bool>, i: nat)
    requires i < |Run(c, opens).ports|
    ensures c.basePort == 0 ==> Run(c, opens).ports[i] == 0
    ensures c.basePort != 0 ==> Run(c, opens).ports[i] == Min(c.basePort + i % 0x1_0000, 0xFFFF)
  {
    RunHolds(c, opens);
    hide Run;
  }

  /** What each call answers, from the calls before it: a failure when a session is wanted and
      does not open; nothing when none may be open; and else, counting this one, the call's
      number modulo the sessions there are by then. */
  lemma AnswerIs(c: Config, opens: seq<bool>, k: nat)
    requires k < |opens|
    ensures var before := Count(opens[..k]);
            Answer(c, opens, k)
            == if c.maxSessions == 0 then Empty
               else if before < c.maxSessions && !opens[k] then OpenFailed
               else Session((k + 1) % Min(before + 1, c.maxSessions))
  {
    RunHolds(c, opens[..k]);
  }

  // ----- rotation -----

  lemma FullAnswers(c: Config, opens: seq<bool>, k: nat)
    requires k < |opens| && c.maxSessions > 0
    requires |Run(c, opens[..k]).ports| == c.maxSessions
    ensures Answer(c, opens, k) == Session((k + 1) % c.maxSessions)
  {
    RunHolds(c, opens[..k]);
  }

  lemma {:induction false} StaysFull(c: Config, opens: seq<bool>, m: nat, k: nat)
    requires m <= k <= |opens|
    requires |Run(c, opens[..m]).ports| == c.maxSessions
    ensures |Run(c, opens[..k]).ports| == c.maxSessions
    decreases k
  {
    if m < k {
      StaysFull(c, opens, m, k - 1);
      assert opens[..k][..k - 1] == opens[..k - 1];
    }
  }

  /** The one place in a window of `n` consecutive numbers with remainder `r`. */
  function Place(m: nat, n: nat, r: nat): (k: nat)
    requires r < n
  {
    var d := (r + n - (m + 1) % n) % n;
    m + d
  }

  lemma Multiples(e: int, n: nat)
    ensures e >= 1 ==> e * n >= n
    ensures e <= -1 ==> e * n <= 0 - n
  {
  }

  lemma ModUnique(a: nat, q: nat, r: nat, n: nat)
    requires n > 0 && r < n && a == q * n + r
    ensures a % n == r
  {
    Multiples(a / n - q, n);
    assert (a / n - q) * n == r - a % n;
  }

  lemma ModShift(a: nat, d: nat, n: nat)
    requires n > 0
    ensures (a + d) % n == (a % n + d) % n
  {
    var b := a % n + d;
    assert (a / n + b / n) * n == a / n * n + b / n * n;
    ModUnique(a + d, a / n + b / n, b % n, n);
  }

  lemma ModAdd(a: nat, n: nat)
    requires n > 0
    ensures (a + n) % n == a % n
  {
    assert (a / n + 1) * n == a / n * n + n;
    ModUnique(a + n, a / n + 1, a % n, n);
  }

  lemma SmallMod(a: nat, n: nat)
    requires n > 0 && a < 2 * n
    ensures a % n == if a < n then a else a - n
  {
    if a >= n { ModAdd(a - n, n); }
  }

  lemma PlaceIs(m: nat, n: nat, r: nat, k: nat)
    requires r < n && m <= k < m + n
    ensures m <= Place(m, n, r) < m + n
    ensures (k + 1) % n == r <==> k == Place(m, n, r)
  {
    var a := (m + 1) % n;
    SmallMod(r + n - a, n);
    ModShift(m + 1, k - m, n);
    SmallMod(a + (k - m), n);
  }

  /** Main result: once the pool is full, any `maxSessions` consecutive calls return each
      session exactly once. */
  lemma RotationIsFair(c: Config, opens: seq<bool>, m: nat, r: nat)
    requires m + c.maxSessions <= |opens|
    requires |Run(c, opens[..m]).ports| == c.maxSessions
    requires r < c.maxSessions
    ensures exists k :: m <= k < m + c.maxSessions && Answer(c, opens, k) == Session(r)
    ensures forall k, k' | m <= k < m + c.maxSessions && m <= k' < m + c.maxSessions
              && Answer(c, opens, k) == Session(r) && Answer(c, opens, k') == Session(r) :: k == k'
  {
    forall k | m <= k < m + c.maxSessions
      ensures Answer(c, opens, k) == Session(r) <==> k == Place(m, c.maxSessions, r)
    {
      StaysFull(c, opens, m, k);
      FullAnswers(c, opens, k);
      PlaceIs(m, c.maxSessions, r, k);
    }
    PlaceIs(m, c.maxSessions, r, m);
    assert Answer(c, opens, Place(m, c.maxSessions, r)) == Session(r);
  }

  /** In particular after as many successful calls as there are sessions. */
  lemma FullAfterMax(c: Config, opens: seq<bool>)
    requires c.maxSessions <= |opens|
    requires forall i | 0 <= i < c.maxSessions :: opens[i]
    ensures |Run(c, opens[..c.maxSessions]).ports| == c.maxSessions
  {
    RunHolds(c, opens[..c.maxSessions]);
    AllOpen(opens[..c.maxSessions]);
  }

  // ----- ports -----

  /** Listen ports differ exactly when there is at most one session, or a base port from
      which all of them stay within sixteen bits. */
  lemma PortsDistinctIff(c: Config, opens: seq<bool>)
    requires c.basePort <= 0xFFFF
    ensures var n := |Run(c, opens).ports|;
            Distinct(Run(c, opens).ports) <==> n <= 1 || (c.basePort != 0 && c.basePort + n - 1 <= 0xFFFF)
  {
    RunHolds(c, opens);
    var ports := Run(c, opens).ports;
    var n := |ports|;
    hide Run;
    if n > 1 {
      if c.basePort == 0 {
        assert ports[0] == ports[1];
      } else if c.basePort + n - 1 > 0xFFFF {
        var last := 0x1_0000 - c.basePort;
        assert last <= n - 1;
        assert ports[last - 1] == 0xFFFF;
        assert ports[last] == 0xFFFF;
      }
    }
  }

  // ----- the pool itself -----

  class SessionPool {
    const config: Config
    var nextIdx: nat
    var sessions: seq<nat>

    constructor (config: Config)
      ensures this.config == config && View() == NEW
    {
      this.config := config;
      nextIdx, sessions := 0, [];
    }

    ghost function View(): (p: Pool)
      reads this
    {
      Pool.Pool(nextIdx, sessions)
    }

    method GetSession(opens: bool) returns (r: Reply)
      modifies this
      ensures (View(), r) == Get(config, old(View()), opens)
    {
      nextIdx := nextIdx + 1;
      if |sessions| < config.maxSessions {
        var port := 0;
        if config.basePort != 0 {
          port := config.basePort + |sessions| % 0x1_0000;
          if port > 0xFFFF {
            port := 0xFFFF;
          }
        }
        if !opens {
          return OpenFailed;
        }
        sessions := sessions + [port];
      }
      if |sessions| == 0 {
        return Empty;
      }
      return Session(nextIdx % |sessions|);
    }
  }
}
