/** Shard assignments that a collection request may carry. */
module Assignments {
  import opened Bytes
  import opened Collections

  datatype Assignment = Assignment(primary: Option<nat>, replica: seq<nat>, shardIds: seq<nat>)

  /** All shard ids, partition after partition. */
  function AllIds(list: seq<Assignment>): (s: seq<nat>) {
    if list == [] then [] else AllIds(list[..|list| - 1]) + list[|list| - 1].shardIds
  }

  function Elements(s: seq<nat>): (r: set<nat>) {
    set x | x in s
  }

  /** One partition has its owners and shards, and its primary is one of its shards. */
  predicate Complete(a: Assignment, replicaCount: int) {
    && |a.replica| == replicaCount
    && |a.shardIds| == replicaCount
    && (a.primary.Some? ==> a.primary.value in a.shardIds)
  }

  predicate Valid(list: seq<Assignment>, partitionCount: int, replicaCount: int) {
    && partitionCount > 0 && replicaCount > 0
    && |list| == partitionCount
    && (forall i | 0 <= i < |list| :: Complete(list[i], replicaCount))
    && Distinct(AllIds(list))
  }

  lemma {:induction false} IdsOfFront(list: seq<Assignment>, i: nat, k: nat)
    requires i < |list| && k <= |list[i].shardIds|
    ensures AllIds(list[..i]) + list[i].shardIds[..k] <= AllIds(list)
    decreases |list|
  {
    var n := |list| - 1;
    if i < n {
      IdsOfFront(list[..n], i, k);
      assert list[..n][..i] == list[..i];
    } else {
      assert list[i].shardIds[..k] <= list[i].shardIds;
    }
  }

  lemma DistinctPrefix(p: seq<nat>, s: seq<nat>)
    requires p <= s && Distinct(s)
    ensures Distinct(p)
  {
  }

  lemma DistinctNext(s: seq<nat>, x: nat)
    requires Distinct(s)
    ensures Distinct(s + [x]) <==> x !in s
  {
    if x in s {
      var i :| 0 <= i < |s| && s[i] == x;
      assert (s + [x])[i] == (s + [x])[|s|];
    }
  }

  /** The inner loop: mark one partition's shard ids as seen, unless one already was. */
  method MarkSeen(ids: seq<nat>, seen: set<nat>, ghost before: seq<nat>) returns (ok: bool, all: set<nat>)
    requires Distinct(before) && seen == Elements(before)
    ensures ok <==> Distinct(before + ids)
    ensures ok ==> all == Elements(before + ids)
  {
    all := seen;
    assert before + ids[..0] == before;
    for k := 0 to |ids|
      invariant Distinct(before + ids[..k])
      invariant all == Elements(before + ids[..k])
    {
      var front := before + ids[..k];
      assert before + ids[..k + 1] == front + [ids[k]];
      DistinctNext(front, ids[k]);
      if ids[k] in all {
        assert front + [ids[k]] <= before + ids;
        if Distinct(before + ids) { DistinctPrefix(front + [ids[k]], before + ids); }
        return false, all;
      }
      all := all + {ids[k]};
    }
    assert ids[..|ids|] == ids;
    ok := true;
  }

  method ValidateAssignments(list: seq<Assignment>, partitionCount: int, replicaCount: int) returns (ok: bool)
    ensures ok <==> Valid(list, partitionCount, replicaCount)
  {
    if partitionCount <= 0 || replicaCount <= 0 {
      return false;
    }
    if |list| != partitionCount {
      return false;
    }
    var seen: set<nat> := {};
    for i := 0 to |list|
      invariant forall k | 0 <= k < i :: Complete(list[k], replicaCount)
      invariant Distinct(AllIds(list[..i]))
      invariant seen == Elements(AllIds(list[..i]))
    {
      var a := list[i];
      if |a.replica| != replicaCount {
        return false;
      }
      if |a.shardIds| != replicaCount {
        return false;
      }
      if a.primary.Some? && a.primary.value !in a.shardIds {
        return false;
      }
      assert list[..i + 1][..i] == list[..i];
      WholePartition(list, i);
      ok, seen := MarkSeen(a.shardIds, seen, AllIds(list[..i]));
      if !ok {
        if Distinct(AllIds(list)) { DistinctPrefix(AllIds(list[..i]) + a.shardIds, AllIds(list)); }
        return false;
      }
    }
    assert list[..|list|] == list;
    ok := true;
  }

  // ----- what acceptance means -----

  lemma {:induction false} DistinctCount(s: seq<nat>)
    requires Distinct(s)
    ensures |Elements(s)| == |s|
  {
    if s == [] {
      assert Elements(s) == {};
    } else {
      var n := |s| - 1;
      DistinctCount(s[..n]);
      assert s == s[..n] + [s[n]];
      assert Elements(s) == Elements(s[..n]) + {s[n]} && s[n] !in Elements(s[..n]);
    }
  }

  lemma {:induction false} IdCount(list: seq<Assignment>, r: nat)
    requires forall i | 0 <= i < |list| :: |list[i].shardIds| == r
    ensures |AllIds(list)| == |list| * r
  {
    if list != [] {
      IdCount(list[..|list| - 1], r);
      assert |list| * r == (|list| - 1) * r + r;
    }
  }

  lemma DistinctSides(u: seq<nat>, v: seq<nat>, x: nat)
    requires Distinct(u + v) && x in u
    ensures x !in v
  {
    var a :| 0 <= a < |u| && u[a] == x;
    forall b | 0 <= b < |v| ensures v[b] != x {
      assert (u + v)[a] == x && (u + v)[|u| + b] == v[b];
    }
  }

  lemma WholePartition(list: seq<Assignment>, i: nat)
    requires i < |list|
    ensures AllIds(list[..i]) + list[i].shardIds <= AllIds(list)
  {
    IdsOfFront(list, i, |list[i].shardIds|);
    assert list[i].shardIds[..|list[i].shardIds|] == list[i].shardIds;
  }

  lemma OnePartition(list: seq<Assignment>, i: nat, j: nat, x: nat)
    requires i < j < |list| && Distinct(AllIds(list))
    requires x in list[i].shardIds
    ensures x !in list[j].shardIds
  {
    hide AllIds, Distinct;
    WholePartition(list[..j], i);
    assert x in AllIds(list[..j][..i]) + list[i].shardIds;
    WholePartition(list, j);
    DistinctPrefix(AllIds(list[..j]) + list[j].shardIds, AllIds(list));
    DistinctSides(AllIds(list[..j]), list[j].shardIds, x);
  }

  /** No shard id stands at two places. */
  ghost predicate NoRepeat(list: seq<Assignment>) {
    forall i, a, j, b | 0 <= i < |list| && 0 <= a < |list[i].shardIds| && 0 <= j < |list| && 0 <= b < |list[j].shardIds| ::
      list[i].shardIds[a] == list[j].shardIds[b] ==> i == j && a == b
  }

  lemma {:induction false} IdAt(list: seq<Assignment>, x: nat)
    ensures x in AllIds(list) <==> exists i, a :: 0 <= i < |list| && 0 <= a < |list[i].shardIds| && list[i].shardIds[a] == x
  {
    if list != [] {
      var n := |list| - 1;
      IdAt(list[..n], x);
      if i, a :| 0 <= i < n && 0 <= a < |list[..n][i].shardIds| && list[..n][i].shardIds[a] == x {
        assert list[i].shardIds[a] == x;
      }
      if i, a :| 0 <= i < |list| && 0 <= a < |list[i].shardIds| && list[i].shardIds[a] == x {
        assert i < n ==> list[..n][i].shardIds[a] == x;
      }
    }
  }

  lemma DistinctJoin(u: seq<nat>, v: seq<nat>)
    ensures Distinct(u + v) <==> Distinct(u) && Distinct(v) && forall x | x in u :: x !in v
  {
    if Distinct(u + v) {
      DistinctPrefix(u, u + v);
      forall i, j | 0 <= i < j < |v| ensures v[i] != v[j] {
        assert (u + v)[|u| + i] == v[i] && (u + v)[|u| + j] == v[j];
      }
      forall x | x in u ensures x !in v { DistinctSides(u, v, x); }
    } else if Distinct(u) && Distinct(v) {
      var w := u + v;
      var i, j :| 0 <= i < j < |w| && w[i] == w[j];
      assert w[i] in u && w[j] in v;
    }
  }

  lemma {:induction false} DistinctIffNoRepeat(list: seq<Assignment>)
    ensures Distinct(AllIds(list)) <==> NoRepeat(list)
  {
    if list != [] {
      var n := |list| - 1;
      var front, last := list[..n], list[n].shardIds;
      DistinctIffNoRepeat(front);
      DistinctJoin(AllIds(front), last);
      assert AllIds(list) == AllIds(front) + last;
      forall x ensures x in AllIds(front) <==> exists i, a :: 0 <= i < n && 0 <= a < |front[i].shardIds| && front[i].shardIds[a] == x {
        IdAt(front, x);
      }
      hide AllIds;
      hide Distinct;
      if NoRepeat(list) {
        assert forall i | 0 <= i < n :: front[i] == list[i];
        assert NoRepeat(front);
        LastIsDistinct(list, n);
        forall x | x in AllIds(front) ensures x !in last {
          var i, a :| 0 <= i < n && 0 <= a < |front[i].shardIds| && front[i].shardIds[a] == x;
          assert list[i].shardIds[a] == x;
        }
      }
      if NoRepeat(front) && Distinct(last) && (forall x | x in AllIds(front) :: x !in last) {
        LastAddsNone(list);
      }
    }
  }

  lemma LastIsDistinct(list: seq<Assignment>, i: nat)
    requires i < |list| && NoRepeat(list)
    ensures Distinct(list[i].shardIds)
  {
  }

  lemma LastAddsNone(list: seq<Assignment>)
    requires list != []
    requires var n := |list| - 1;
             && NoRepeat(list[..n]) && Distinct(list[n].shardIds)
             && forall x | x in AllIds(list[..n]) :: x !in list[n].shardIds
    ensures NoRepeat(list)
  {
    var n := |list| - 1;
    var front := list[..n];
    forall i, a, j, b | 0 <= i < |list| && 0 <= a < |list[i].shardIds| && 0 <= j < |list| && 0 <= b < |list[j].shardIds|
                        && list[i].shardIds[a] == list[j].shardIds[b]
      ensures i == j && a == b
    {
      var x := list[i].shardIds[a];
      IdAt(front, x);
      hide AllIds;
      if i < n { assert front[i].shardIds[a] == x; }
      if j < n { assert front[j].shardIds[b] == x; }
    }
  }

  /** What is accepted, place by place. */
  lemma ValidIff(list: seq<Assignment>, partitionCount: int, replicaCount: int)
    ensures Valid(list, partitionCount, replicaCount) <==>
      && partitionCount > 0 && replicaCount > 0 && |list| == partitionCount
      && (forall i | 0 <= i < |list| ::
            && |list[i].replica| == replicaCount && |list[i].shardIds| == replicaCount
            && (list[i].primary.Some? ==>
                  exists a :: 0 <= a < |list[i].shardIds| && list[i].shardIds[a] == list[i].primary.value))
      && NoRepeat(list)
  {
    DistinctIffNoRepeat(list);
    hide AllIds, NoRepeat;
    forall i | 0 <= i < |list|
      ensures Complete(list[i], replicaCount) <==>
            && |list[i].replica| == replicaCount && |list[i].shardIds| == replicaCount
            && (list[i].primary.Some? ==>
                  exists a :: 0 <= a < |list[i].shardIds| && list[i].shardIds[a] == list[i].primary.value)
    {}
  }

  /** Acceptance gives exactly partitionCount * replicaCount different shards, each in one
      partition, with the primary among its partition's own. */
  lemma ValidShards(list: seq<Assignment>, partitionCount: int, replicaCount: int)
    requires Valid(list, partitionCount, replicaCount)
    ensures |Elements(AllIds(list))| == partitionCount * replicaCount
    ensures forall i, j, x | 0 <= i < |list| && 0 <= j < |list| && x in list[i].shardIds && x in list[j].shardIds :: i == j
    ensures forall i | 0 <= i < |list| && list[i].primary.Some? :: list[i].primary.value in list[i].shardIds
  {
    DistinctCount(AllIds(list));
    forall i | 0 <= i < |list| ensures |list[i].shardIds| == replicaCount {
      assert Complete(list[i], replicaCount);
    }
    IdCount(list, replicaCount);
    forall i, j, x | 0 <= i < |list| && 0 <= j < |list| && x in list[i].shardIds && x in list[j].shardIds
      ensures i == j
    {
      if i < j { OnePartition(list, i, j, x); }
      if j < i { OnePartition(list, j, i, x); }
    }
  }

  /** The assignments a built request carries: all of a valid list, or none at all. */
  method BuildAssignments(assignments: Option<seq<Assignment>>, partitionCount: int, replicaCount: int)
    returns (built: seq<Assignment>)
    ensures built == [] || Valid(built, partitionCount, replicaCount)
    ensures assignments.Some? && Valid(assignments.value, partitionCount, replicaCount) <==> built != []
    ensures built != [] ==> built == assignments.value
  {
    built := [];
    if assignments.None? || |assignments.value| == 0 {
      return;
    }
    var ok := ValidateAssignments(assignments.value, partitionCount, replicaCount);
    if ok {
      for i := 0 to |assignments.value|
        invariant built == assignments.value[..i]
      {
        var a := assignments.value[i];
        built := built + [Assignment(a.primary, a.replica, a.shardIds)];
      }
      assert built == assignments.value;
    }
  }
}
