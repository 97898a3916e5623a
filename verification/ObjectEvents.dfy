/** Merging the trigger configurations of objects. */
module ObjectEvents {
  import opened Bytes
  import opened Collections

  datatype TriggerTarget = TriggerTarget(cls: string, partition: nat, objectId: Option<string>, fn: string,
                                         options: map<string, string>)

  datatype FuncTrigger = FuncTrigger(onComplete: seq<TriggerTarget>, onError: seq<TriggerTarget>)

  datatype DataTrigger = DataTrigger(onCreate: seq<TriggerTarget>, onUpdate: seq<TriggerTarget>,
                                     onDelete: seq<TriggerTarget>)

  datatype Event = Event(funcs: map<string, FuncTrigger>, datas: map<string, DataTrigger>)

  const EMPTY := Event(map[], map[])

  // ----- lists -----

  function Push<T(==)>(xs: seq<T>, x: T): (r: seq<T>) {
    if x in xs then xs else xs + [x]
  }

  /** Appends the elements of `ys` that are not there yet. */
  function MergeList<T(==)>(xs: seq<T>, ys: seq<T>): (r: seq<T>)
    decreases |ys|
  {
    if ys == [] then xs else MergeList(Push(xs, ys[0]), ys[1..])
  }

  method MergeTargets<T(==)>(xs: seq<T>, ys: seq<T>) returns (r: seq<T>)
    ensures r == MergeList(xs, ys)
  {
    r := xs;
    for i := 0 to |ys|
      invariant MergeList(r, ys[i..]) == MergeList(xs, ys)
    {
      assert ys[i..][1..] == ys[i+1..];
      if ys[i] !in r {
        r := r + [ys[i]];
      }
    }
  }

  lemma {:induction false} MergeListMembers<T>(xs: seq<T>, ys: seq<T>, x: T)
    ensures x in MergeList(xs, ys) <==> x in xs || x in ys
    decreases |ys|
  {
    if ys != [] {
      MergeListMembers(Push(xs, ys[0]), ys[1..], x);
      assert x in ys <==> x == ys[0] || x in ys[1..];
    }
  }

  lemma {:induction false} MergeListConcat<T>(xs: seq<T>, ys: seq<T>, zs: seq<T>)
    ensures MergeList(xs, ys + zs) == MergeList(MergeList(xs, ys), zs)
    decreases |ys|
  {
    if ys == [] {
      assert ys + zs == zs;
    } else {
      assert (ys + zs)[1..] == ys[1..] + zs;
      MergeListConcat(Push(xs, ys[0]), ys[1..], zs);
    }
  }

  lemma MergeListPush<T>(xs: seq<T>, ys: seq<T>, z: T)
    ensures MergeList(xs, Push(ys, z)) == Push(MergeList(xs, ys), z)
  {
    MergeListMembers(xs, ys, z);
    if z !in ys {
      MergeListConcat(xs, ys, [z]);
      var m := MergeList(xs, ys);
      assert MergeList(m, [z]) == MergeList(Push(m, z), []);
    }
  }

  lemma {:induction false} MergeListAssoc<T>(xs: seq<T>, ys: seq<T>, zs: seq<T>)
    ensures MergeList(xs, MergeList(ys, zs)) == MergeList(MergeList(xs, ys), zs)
    decreases |zs|
  {
    if zs != [] {
      MergeListAssoc(xs, Push(ys, zs[0]), zs[1..]);
      MergeListPush(xs, ys, zs[0]);
    }
  }

  lemma {:induction false} MergeListAbsorbs<T>(xs: seq<T>, ys: seq<T>)
    requires forall y :: y in ys ==> y in xs
    ensures MergeList(xs, ys) == xs
    decreases |ys|
  {
    if ys != [] {
      assert ys[0] in ys;
      assert forall y :: y in ys[1..] ==> y in ys;
      MergeListAbsorbs(xs, ys[1..]);
    }
  }

  /** The elements that are not in `xs`, in their order. */
  function Without<T(==)>(ys: seq<T>, xs: seq<T>): (r: seq<T>) {
    if ys == [] then []
    else if ys[0] in xs then Without(ys[1..], xs)
    else [ys[0]] + Without(ys[1..], xs)
  }

  lemma {:induction false} WithoutMore<T>(ys: seq<T>, xs: seq<T>, x: T)
    requires x !in ys
    ensures Without(ys, xs + [x]) == Without(ys, xs)
  {
    if ys != [] {
      assert ys[0] in ys && forall y :: y in ys[1..] ==> y in ys;
      WithoutMore(ys[1..], xs, x);
    }
  }

  lemma DistinctTail<T>(ys: seq<T>)
    requires ys != [] && Distinct(ys)
    ensures ys[0] !in ys[1..] && Distinct(ys[1..])
  {
    assert forall i | 0 <= i < |ys| - 1 :: ys[1..][i] == ys[i + 1];
  }

  /** Old targets keep their places, and new ones follow in the order they are given. */
  lemma {:induction false} MergeListOrder<T>(xs: seq<T>, ys: seq<T>)
    ensures xs <= MergeList(xs, ys)
    ensures Distinct(ys) ==> MergeList(xs, ys) == xs + Without(ys, xs)
    decreases |ys|
  {
    if ys != [] {
      var y, rest := ys[0], ys[1..];
      MergeListOrder(Push(xs, y), rest);
      hide Distinct;
      if Distinct(ys) {
        DistinctTail(ys);
        if y !in xs {
          WithoutMore(rest, xs, y);
          assert xs + [y] + Without(rest, xs) == xs + ([y] + Without(rest, xs));
        }
      }
    } else {
      assert xs + [] == xs;
    }
  }

  lemma {:induction false} MergeListDistinct<T>(xs: seq<T>, ys: seq<T>)
    requires Distinct(xs)
    ensures Distinct(MergeList(xs, ys))
    decreases |ys|
  {
    if ys != [] {
      MergeListDistinct(Push(xs, ys[0]), ys[1..]);
    }
  }

  // ----- maps -----

  function MergeMap<T>(a: map<string, T>, b: map<string, T>, f: (T, T) -> T): (m: map<string, T>) {
    map k | k in a.Keys + b.Keys ::
      if k in a && k in b then f(a[k], b[k]) else if k in a then a[k] else b[k]
  }

  ghost predicate Associative<T(!new)>(f: (T, T) -> T) {
    forall x, y, z :: f(f(x, y), z) == f(x, f(y, z))
  }

  ghost predicate Idempotent<T(!new)>(f: (T, T) -> T) {
    forall x :: f(x, x) == x
  }

  lemma MergeMapAssoc<T(!new)>(a: map<string, T>, b: map<string, T>, c: map<string, T>, f: (T, T) -> T)
    requires Associative(f)
    ensures MergeMap(MergeMap(a, b, f), c, f) == MergeMap(a, MergeMap(b, c, f), f)
  {
    var l, r := MergeMap(MergeMap(a, b, f), c, f), MergeMap(a, MergeMap(b, c, f), f);
    assert l.Keys == r.Keys;
    forall k | k in l ensures l[k] == r[k] {
    }
  }

  lemma MergeMapIdempotent<T(!new)>(a: map<string, T>, f: (T, T) -> T)
    requires Idempotent(f)
    ensures MergeMap(a, a, f) == a
  {
  }

  // ----- events -----

  function MergeFunc(x: FuncTrigger, y: FuncTrigger): (r: FuncTrigger) {
    FuncTrigger(MergeList(x.onComplete, y.onComplete), MergeList(x.onError, y.onError))
  }

  function MergeData(x: DataTrigger, y: DataTrigger): (r: DataTrigger) {
    DataTrigger(MergeList(x.onCreate, y.onCreate), MergeList(x.onUpdate, y.onUpdate), MergeList(x.onDelete, y.onDelete))
  }

  function Merge(a: Event, b: Event): (r: Event) {
    Event(MergeMap(a.funcs, b.funcs, MergeFunc), MergeMap(a.datas, b.datas, MergeData))
  }

  class ObjectEvent {
    var funcTrigger: map<string, FuncTrigger>
    var dataTrigger: map<string, DataTrigger>

    ghost function Value(): (e: Event)
      reads this
    {
      Event(funcTrigger, dataTrigger)
    }

    constructor (e: Event)
      ensures Value() == e
    {
      funcTrigger, dataTrigger := e.funcs, e.datas;
    }

    method MergeFuncs(other: ObjectEvent)
      requires other != this
      modifies this`funcTrigger
      ensures funcTrigger == MergeMap(old(funcTrigger), other.funcTrigger, MergeFunc)
    {
      hide *;
      ghost var before := funcTrigger;
      var todo := other.funcTrigger.Keys;
      ghost var done: set<string> := {};
      MergeNone(before, other.funcTrigger, MergeFunc);
      while todo != {}
        invariant done !! todo && done + todo == other.funcTrigger.Keys
        invariant funcTrigger == MergeMap(before, Restrict(other.funcTrigger, done), MergeFunc)
        decreases |todo|
      {
        var key :| key in todo;
        var otherValue := other.funcTrigger[key];
        MergeOneMore(before, other.funcTrigger, done, key, MergeFunc);
        if key in funcTrigger {
          var value := funcTrigger[key];
          var onComplete := MergeTargets(value.onComplete, otherValue.onComplete);
          var onError := MergeTargets(value.onError, otherValue.onError);
          funcTrigger := funcTrigger[key := FuncTrigger(onComplete, onError)];
          MergeFuncIs(value, otherValue);
        } else {
          funcTrigger := funcTrigger[key := otherValue];
        }
        todo, done := todo - {key}, done + {key};
      }
      RestrictAll(other.funcTrigger, done);
    }

    method MergeDatas(other: ObjectEvent)
      requires other != this
      modifies this`dataTrigger
      ensures dataTrigger == MergeMap(old(dataTrigger), other.dataTrigger, MergeData)
    {
      hide *;
      ghost var before := dataTrigger;
      var todo := other.dataTrigger.Keys;
      ghost var done: set<string> := {};
      MergeNone(before, other.dataTrigger, MergeData);
      while todo != {}
        invariant done !! todo && done + todo == other.dataTrigger.Keys
        invariant dataTrigger == MergeMap(before, Restrict(other.dataTrigger, done), MergeData)
        decreases |todo|
      {
        var key :| key in todo;
        var otherValue := other.dataTrigger[key];
        MergeOneMore(before, other.dataTrigger, done, key, MergeData);
        if key in dataTrigger {
          var value := dataTrigger[key];
          var onCreate := MergeTargets(value.onCreate, otherValue.onCreate);
          var onUpdate := MergeTargets(value.onUpdate, otherValue.onUpdate);
          var onDelete := MergeTargets(value.onDelete, otherValue.onDelete);
          dataTrigger := dataTrigger[key := DataTrigger(onCreate, onUpdate, onDelete)];
          MergeDataIs(value, otherValue);
        } else {
          dataTrigger := dataTrigger[key := otherValue];
        }
        todo, done := todo - {key}, done + {key};
      }
      RestrictAll(other.dataTrigger, done);
    }

    method MergeFrom(other: ObjectEvent)
      requires other != this
      modifies this
      ensures Value() == Merge(old(Value()), old(other.Value()))
    {
      MergeFuncs(other);
      MergeDatas(other);
    }
  }

  lemma MergeFuncIs(x: FuncTrigger, y: FuncTrigger)
    ensures MergeFunc(x, y) == FuncTrigger(MergeList(x.onComplete, y.onComplete), MergeList(x.onError, y.onError))
  {
  }

  lemma MergeDataIs(x: DataTrigger, y: DataTrigger)
    ensures MergeData(x, y) == DataTrigger(MergeList(x.onCreate, y.onCreate), MergeList(x.onUpdate, y.onUpdate),
                                           MergeList(x.onDelete, y.onDelete))
  {
  }

  ghost function Restrict<T>(m: map<string, T>, keys: set<string>): (r: map<string, T>) {
    map k | k in m && k in keys :: m[k]
  }

  lemma RestrictAll<T>(m: map<string, T>, keys: set<string>)
    requires keys == m.Keys
    ensures Restrict(m, keys) == m
  {
  }

  lemma MergeNone<T>(a: map<string, T>, b: map<string, T>, f: (T, T) -> T)
    ensures MergeMap(a, Restrict(b, {}), f) == a
  {
  }

  lemma MergeOneMore<T>(a: map<string, T>, b: map<string, T>, done: set<string>, key: string, f: (T, T) -> T)
    requires key in b && key !in done
    ensures var m := MergeMap(a, Restrict(b, done), f);
            && (key in m <==> key in a) && (key in a ==> m[key] == a[key])
            && MergeMap(a, Restrict(b, done + {key}), f) == m[key := if key in m then f(m[key], b[key]) else b[key]]
  {
    var m := MergeMap(a, Restrict(b, done), f);
    var n := MergeMap(a, Restrict(b, done + {key}), f);
    assert n.Keys == m.Keys + {key};
  }

  // ----- laws -----

  lemma TriggersAssociative()
    ensures Associative(MergeFunc) && Associative(MergeData)
  {
    forall x: FuncTrigger, y: FuncTrigger, z: FuncTrigger ensures MergeFunc(MergeFunc(x, y), z) == MergeFunc(x, MergeFunc(y, z)) {
      MergeListAssoc(x.onComplete, y.onComplete, z.onComplete);
      MergeListAssoc(x.onError, y.onError, z.onError);
    }
    forall x: DataTrigger, y: DataTrigger, z: DataTrigger ensures MergeData(MergeData(x, y), z) == MergeData(x, MergeData(y, z)) {
      MergeListAssoc(x.onCreate, y.onCreate, z.onCreate);
      MergeListAssoc(x.onUpdate, y.onUpdate, z.onUpdate);
      MergeListAssoc(x.onDelete, y.onDelete, z.onDelete);
    }
  }

  lemma TriggersIdempotent()
    ensures Idempotent(MergeFunc) && Idempotent(MergeData)
  {
    forall x: FuncTrigger ensures MergeFunc(x, x) == x {
      MergeListAbsorbs(x.onComplete, x.onComplete);
      MergeListAbsorbs(x.onError, x.onError);
    }
    forall x: DataTrigger ensures MergeData(x, x) == x {
      MergeListAbsorbs(x.onCreate, x.onCreate);
      MergeListAbsorbs(x.onUpdate, x.onUpdate);
      MergeListAbsorbs(x.onDelete, x.onDelete);
    }
  }

  /** Merging is associative and idempotent to the last list element, also for
      lists with duplicates, and the empty event is its identity. */
  lemma MergeLaws(a: Event, b: Event, c: Event)
    ensures Merge(Merge(a, b), c) == Merge(a, Merge(b, c))
    ensures Merge(a, a) == a
    ensures Merge(a, EMPTY) == a && Merge(EMPTY, a) == a
  {
    hide MergeFunc, MergeData, MergeMap;
    TriggersAssociative();
    TriggersIdempotent();
    MergeMapAssoc(a.funcs, b.funcs, c.funcs, MergeFunc);
    MergeMapAssoc(a.datas, b.datas, c.datas, MergeData);
    MergeMapIdempotent(a.funcs, MergeFunc);
    MergeMapIdempotent(a.datas, MergeData);
    MergeMapEmpty(a.funcs, MergeFunc);
    MergeMapEmpty(a.datas, MergeData);
  }

  lemma MergeMapEmpty<T>(a: map<string, T>, f: (T, T) -> T)
    ensures MergeMap(a, map[], f) == a && MergeMap(map[], a, f) == a
  {
  }

  // ----- trigger sets -----

  datatype Slot = Complete | Error | Create | Update | Delete

  function Keys(e: Event, slot: Slot): (keys: set<string>) {
    if slot.Complete? || slot.Error? then e.funcs.Keys else e.datas.Keys
  }

  function Targets(e: Event, slot: Slot, key: string): (ts: seq<TriggerTarget>) {
    if key !in Keys(e, slot) then []
    else match slot
         case Complete => e.funcs[key].onComplete
         case Error => e.funcs[key].onError
         case Create => e.datas[key].onCreate
         case Update => e.datas[key].onUpdate
         case Delete => e.datas[key].onDelete
  }

  /** On keys and target sets merging is union, hence commutative. */
  lemma MergeIsUnion(a: Event, b: Event, slot: Slot, key: string, t: TriggerTarget)
    ensures Keys(Merge(a, b), slot) == Keys(a, slot) + Keys(b, slot)
    ensures t in Targets(Merge(a, b), slot, key) <==> t in Targets(a, slot, key) || t in Targets(b, slot, key)
  {
    if key in Keys(a, slot) && key in Keys(b, slot) {
      MergeListMembers(Targets(a, slot, key), Targets(b, slot, key), t);
    }
  }

  /** A merged list starts with the first event's targets and goes on with the second's new
      ones. */
  lemma MergeKeepsOrder(a: Event, b: Event, slot: Slot, key: string)
    requires Distinct(Targets(b, slot, key))
    ensures Targets(Merge(a, b), slot, key)
            == Targets(a, slot, key) + Without(Targets(b, slot, key), Targets(a, slot, key))
  {
    var xs, ys := Targets(a, slot, key), Targets(b, slot, key);
    MergeListOrder(xs, ys);
    WithoutNone(ys);
    hide MergeList, Without;
    if key !in Keys(a, slot) {
      assert xs == [] && [] + ys == ys;
    } else if key !in Keys(b, slot) {
      WithoutNone(xs);
      assert ys == [] && xs + [] == xs;
      NothingWithout(xs);
    }
  }

  lemma {:induction false} WithoutNone<T>(ys: seq<T>)
    ensures Without(ys, []) == ys
  {
    if ys != [] {
      WithoutNone(ys[1..]);
    }
  }

  lemma NothingWithout<T>(xs: seq<T>)
    ensures Without([], xs) == []
  {
  }

  ghost predicate SameAt(a: Event, b: Event, slot: Slot, key: string, t: TriggerTarget) {
    && (key in Keys(a, slot) <==> key in Keys(b, slot))
    && (t in Targets(a, slot, key) <==> t in Targets(b, slot, key))
  }

  ghost predicate SameTriggers(a: Event, b: Event) {
    forall slot, key, t :: SameAt(a, b, slot, key, t)
  }

  function MergeAll(es: seq<Event>): (r: Event) {
    if es == [] then EMPTY else Merge(MergeAll(es[..|es| - 1]), es[|es| - 1])
  }

  ghost predicate HasKey(es: seq<Event>, slot: Slot, key: string) {
    exists e :: e in es && key in Keys(e, slot)
  }

  ghost predicate HasTarget(es: seq<Event>, slot: Slot, key: string, t: TriggerTarget) {
    exists e :: e in es && t in Targets(e, slot, key)
  }

  lemma NothingInEmpty(slot: Slot, key: string, t: TriggerTarget)
    ensures key !in Keys(EMPTY, slot) && t !in Targets(EMPTY, slot, key)
  {
  }

  lemma SameMembers(xs: seq<Event>, ys: seq<Event>, slot: Slot, key: string, t: TriggerTarget)
    requires forall e :: e in xs <==> e in ys
    ensures HasKey(xs, slot, key) <==> HasKey(ys, slot, key)
    ensures HasTarget(xs, slot, key, t) <==> HasTarget(ys, slot, key, t)
  {
    hide Keys, Targets;
  }

  lemma {:induction false} MergeAllMembers(es: seq<Event>, slot: Slot, key: string, t: TriggerTarget)
    ensures key in Keys(MergeAll(es), slot) <==> HasKey(es, slot, key)
    ensures t in Targets(MergeAll(es), slot, key) <==> HasTarget(es, slot, key, t)
    decreases |es|
  {
    hide Merge, Keys, Targets;
    if es != [] {
      var front, last := es[..|es| - 1], es[|es| - 1];
      MergeAllMembers(front, slot, key, t);
      MergeIsUnion(MergeAll(front), last, slot, key, t);
      assert es == front + [last];
      assert forall e :: e in es <==> e in front || e == last;
    } else {
      NothingInEmpty(slot, key, t);
    }
  }

  /** Folding the same events in any order, with any repetition, gives the same triggers. */
  lemma FoldIgnoresOrder(xs: seq<Event>, ys: seq<Event>)
    requires forall e :: e in xs <==> e in ys
    ensures SameTriggers(MergeAll(xs), MergeAll(ys))
  {
    hide Keys, Targets, HasKey, HasTarget, MergeAll;
    forall slot, key, t ensures SameAt(MergeAll(xs), MergeAll(ys), slot, key, t) {
      SameMembers(xs, ys, slot, key, t);
      MergeAllMembers(xs, slot, key, t);
      MergeAllMembers(ys, slot, key, t);
    }
  }

  ghost predicate DuplicateFree(e: Event) {
    forall slot, key :: Distinct(Targets(e, slot, key))
  }

  lemma MergeKeepsDuplicateFree(a: Event, b: Event)
    requires DuplicateFree(a) && DuplicateFree(b)
    ensures DuplicateFree(Merge(a, b))
  {
    forall slot, key ensures Distinct(Targets(Merge(a, b), slot, key)) {
      assert Distinct(Targets(a, slot, key)) && Distinct(Targets(b, slot, key));
      if key in Keys(a, slot) && key in Keys(b, slot) {
        MergeListDistinct(Targets(a, slot, key), Targets(b, slot, key));
      }
    }
  }
}
