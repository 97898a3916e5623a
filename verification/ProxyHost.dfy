/** The host side of object proxies: handles, their locality, and the guard on re-entrant
    invocation depth. */
module ProxyHost {
  import opened Bytes
  import opened Collections
  import opened ObjectRef

  /** A live handle: the object, and whether it was found to be on this shard. */
  datatype Proxy = Proxy(objectRef: Ref, isLocal: bool)

  datatype Shard = Shard(cls: string, partition: nat, hasRemote: bool, maxDepth: nat)

  datatype Host = Host(table: map<nat, Proxy>, depth: nat)

  predicate IsLocal(s: Shard, r: Ref) {
    r.cls == s.cls && r.partition == s.partition
  }

  /** `Create` carries the handle the resource table picks. */
  datatype Op = Create(objectRef: Ref, handle: nat) | Drop(handle: nat) | Invoke(handle: nat)

  datatype Reply = Created | Dropped | BadHandle | TooDeep | NoRemote | Called

  function Step(s: Shard, h: Host, op: Op): (r: (Host, Reply)) {
    match op
    case Create(ref, n) => (h.(table := h.table[n := Proxy(ref, IsLocal(s, ref))]), Created)
    case Drop(n) => if n in h.table then (h.(table := h.table - {n}), Dropped) else (h, BadHandle)
    case Invoke(n) =>
      if n !in h.table then (h, BadHandle)
      else if h.depth >= s.maxDepth then (h, TooDeep)
      else if !h.table[n].isLocal && !s.hasRemote then (h.(depth := h.depth + 1), NoRemote)
      else (h, Called)
  }

  function Run(s: Shard, h: Host, ops: seq<Op>): (r: Host) {
    if ops == [] then h else Step(s, Run(s, h, ops[..|ops| - 1]), ops[|ops| - 1]).0
  }

  const EMPTY := Host(map[], 0)

  // ----- an account of a run that looks at the operations only -----

  /** The reference a handle stands for after the run, if it is live. */
  function Target(ops: seq<Op>, n: nat): (r: Option<Ref>) {
    if ops == [] then None
    else
      match ops[|ops| - 1]
      case Create(ref, m) => if m == n then Some(ref) else Target(ops[..|ops| - 1], n)
      case Drop(m) => if m == n then None else Target(ops[..|ops| - 1], n)
      case Invoke(_) => Target(ops[..|ops| - 1], n)
  }

  /** The invocations of live handles to other shards, when there is no way to reach them. */
  function Stranded(s: Shard, ops: seq<Op>): (n: nat) {
    if ops == [] then 0
    else
      var op := ops[|ops| - 1];
      var target := if op.Invoke? then Target(ops[..|ops| - 1], op.handle) else None;
      var hit := target.Some? && !IsLocal(s, target.value) && !s.hasRemote;
      Stranded(s, ops[..|ops| - 1]) + if hit then 1 else 0
  }

  /** Main result: at rest, every live handle stands for the reference it was created for
      with the right locality, and the depth is the number of stranded invocations, up to
      the maximum; every other invocation restores it. */
  lemma {:induction false} RunInvariant(s: Shard, ops: seq<Op>)
    ensures var h := Run(s, EMPTY, ops);
            && (forall n :: n in h.table <==> Target(ops, n).Some?)
            && (forall n | n in h.table :: h.table[n] == Proxy(Target(ops, n).value, IsLocal(s, Target(ops, n).value)))
            && h.depth == Min(s.maxDepth, Stranded(s, ops))
  {
    if ops != [] {
      RunInvariant(s, ops[..|ops| - 1]);
    }
  }

  /** Whether a handle is local, and what invoking or dropping it answers, from the operations
      alone: its target is compared with the shard by class and partition. */
  lemma InvokeAnswers(s: Shard, ops: seq<Op>, n: nat)
    ensures var h := Run(s, EMPTY, ops);
            var reply := Step(s, h, Invoke(n)).1;
            var dropped := Step(s, h, Drop(n)).1;
            match Target(ops, n)
            case None => n !in h.table && reply == BadHandle && dropped == BadHandle
            case Some(r) =>
              && n in h.table && dropped == Dropped
              && (h.table[n].isLocal <==> r.cls == s.cls && r.partition == s.partition)
              && reply == (if Stranded(s, ops) >= s.maxDepth then TooDeep
                           else if s.hasRemote || (r.cls == s.cls && r.partition == s.partition) then Called
                           else NoRemote)
  {
    RunInvariant(s, ops);
  }

  /** The count of stranded invocations, by class and partition. */
  lemma StrandedNext(s: Shard, ops: seq<Op>, op: Op)
    ensures Stranded(s, ops + [op]) - Stranded(s, ops)
            == if && op.Invoke? && !s.hasRemote && Target(ops, op.handle).Some?
                  && var r := Target(ops, op.handle).value; !(r.cls == s.cls && r.partition == s.partition)
               then 1 else 0
  {
    assert (ops + [op])[..|ops|] == ops;
  }

  /** A live handle's invocation is let through exactly while fewer than the maximum have
      been stranded: after that even local ones are refused, for good. */
  lemma InvokePassesIff(s: Shard, ops: seq<Op>, n: nat)
    requires Target(ops, n).Some?
    ensures Step(s, Run(s, EMPTY, ops), Invoke(n)).1 != TooDeep <==> Stranded(s, ops) < s.maxDepth
  {
    RunInvariant(s, ops);
  }

  lemma {:induction false} StrandedGrows(s: Shard, ops: seq<Op>, more: seq<Op>)
    ensures Stranded(s, ops + more) >= Stranded(s, ops)
    ensures s.hasRemote ==> Stranded(s, ops) == 0
    decreases |ops| + |more|
  {
    if more == [] {
      assert ops + more == ops;
      if ops != [] { StrandedGrows(s, ops[..|ops| - 1], []); }
    } else {
      assert (ops + more)[..|ops + more| - 1] == ops + more[..|more| - 1];
      StrandedGrows(s, ops, more[..|more| - 1]);
    }
  }

  /** Once the guard refuses, it refuses every live handle ever after; with a remote proxy
      it never refuses at rest. */
  lemma RefusalIsPermanent(s: Shard, ops: seq<Op>, more: seq<Op>, n: nat)
    requires Target(ops + more, n).Some?
    ensures Stranded(s, ops) >= s.maxDepth ==> Step(s, Run(s, EMPTY, ops + more), Invoke(n)).1 == TooDeep
    ensures s.hasRemote && s.maxDepth > 0 ==> Step(s, Run(s, EMPTY, ops + more), Invoke(n)).1 == Called
  {
    StrandedGrows(s, ops, more);
    StrandedGrows(s, ops + more, []);
    RunInvariant(s, ops + more);
  }

  // ----- the host state -----

  class ObjectWasmHostState {
    const shard: Shard
    var table: map<nat, Proxy>
    var reentrantDepth: nat

    constructor (shard: Shard)
      ensures this.shard == shard && View() == EMPTY
    {
      this.shard := shard;
      table, reentrantDepth := map[], 0;
    }

    ghost function View(): (h: Host)
      reads this
    {
      Host(table, reentrantDepth)
    }

    method CreateProxy(ref: Ref, handle: nat)
      requires handle !in table
      modifies this
      ensures View() == Step(shard, old(View()), Create(ref, handle)).0
      ensures handle in table && table[handle].objectRef == ref
      ensures table[handle].isLocal <==> ref.cls == shard.cls && ref.partition == shard.partition
    {
      var local := ref.cls == shard.cls && ref.partition == shard.partition;
      table := table[handle := Proxy(ref, local)];
    }

    method DropProxy(handle: nat) returns (ok: bool)
      modifies this
      ensures View() == Step(shard, old(View()), Drop(handle)).0 && (ok <==> handle in old(table))
    {
      ok := handle in table;
      if ok {
        table := table - {handle};
      }
    }

    /** The depth is raised before the remote proxy is asked for, and not lowered when there
        is none. */
    method InvokeProxy(handle: nat) returns (r: Reply)
      modifies this
      ensures (View(), r) == Step(shard, old(View()), Invoke(handle))
      ensures old(reentrantDepth) <= shard.maxDepth ==> reentrantDepth <= shard.maxDepth
    {
      if handle !in table {
        return BadHandle;
      }
      var isLocal := table[handle].isLocal;
      if reentrantDepth >= shard.maxDepth {
        return TooDeep;
      }
      reentrantDepth := reentrantDepth + 1;
      if !isLocal {
        if !shard.hasRemote {
          return NoRemote;
        }
      }
      reentrantDepth := reentrantDepth - 1;
      return Called;
    }
  }
}
