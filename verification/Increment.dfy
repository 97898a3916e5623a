/** Incrementing a stored 64-bit counter as the generic layer does it: one step reads the
    value, a second one writes the sum, interleaved with other clients. */
module Increment {
  import opened Bytes
  import opened LittleEndian
  import opened Stats

  type Client = nat

  datatype Pending = Pending(read: nat, delta: int)

  /** The bytes under the key, if any; the clients between their two steps; the answers, `None`
      where the value was not a counter. Counters are taken modulo 2^64. */
  datatype World = World(value: Option<Bytes>, pending: map<Client, Pending>, results: seq<(Client, Option<nat>)>)

  datatype Step = Begin(client: Client, delta: int) | Finish(client: Client)

  /** A missing value counts from zero; anything but eight bytes is no counter. */
  function Counter(value: Option<Bytes>): (n: Option<nat>) {
    match value
    case None => Some(0)
    case Some(b) => if |b| == 8 then Some(FromLe(b)) else None
  }

  function Next(w: World, s: Step): (r: World) {
    match s
    case Begin(c, delta) =>
      if c in w.pending then w
      else
        var n := Counter(w.value);
        if n.None? then w.(results := w.results + [(c, None)])
        else w.(pending := w.pending[c := Pending(n.value, delta)])
    case Finish(c) =>
      if c !in w.pending then w
      else
        var sum := Wrap(w.pending[c].read + w.pending[c].delta);
        World(Some(ToLe(sum, 8)), w.pending - {c}, w.results + [(c, Some(sum))])
  }

  function Run(w: World, steps: seq<Step>): (r: World)
    decreases |steps|
  {
    if steps == [] then w else Run(Next(w, steps[0]), steps[1..])
  }

  /** The two steps of one client with nobody else about. */
  lemma Alone(value: Option<Bytes>, delta: int)
    ensures Run(World(value, map[], []), [Begin(0, delta), Finish(0)])
            == if Counter(value).None? then World(value, map[], [(0, None)])
               else
                 var sum := Wrap(Counter(value).value + delta);
                 World(Some(ToLe(sum, 8)), map[], [(0, Some(sum))])
  {
    var w := World(value, map[], []);
    var steps := [Begin(0, delta), Finish(0)];
    assert steps[1..] == [Finish(0)] && [Finish(0)][1..] == [];
    var w1 := Next(w, Begin(0, delta));
    assert Run(w, steps) == Run(w1, [Finish(0)]) == Next(w1, Finish(0));
    if Counter(value).Some? {
      assert w1.pending - {0} == map[];
    }
  }

  /** The increments that were finished. */
  function Added(w: World, steps: seq<Step>): (n: int)
    decreases |steps|
  {
    if steps == [] then 0
    else
      var s := steps[0];
      var here := if s.Finish? && s.client in w.pending then w.pending[s.client].delta else 0;
      here + Added(Next(w, s), steps[1..])
  }

  /** What others had added between the two steps of each finished increment, which its write
      throws away. */
  function Lost(w: World, steps: seq<Step>): (n: int)
    requires Counter(w.value).Some?
    decreases |steps|
  {
    if steps == [] then 0
    else
      var s := steps[0];
      var here := if s.Finish? && s.client in w.pending then Counter(w.value).value - w.pending[s.client].read else 0;
      NextCounts(w, s);
      here + Lost(Next(w, s), steps[1..])
  }

  /** Counters stay counters, and a finished increment leaves the sum it computed. */
  lemma NextCounts(w: World, s: Step)
    requires Counter(w.value).Some?
    ensures Counter(Next(w, s).value).Some?
    ensures s.Finish? && s.client in w.pending ==>
              Counter(Next(w, s).value) == Some(Wrap(w.pending[s.client].read + w.pending[s.client].delta))
    ensures !(s.Finish? && s.client in w.pending) ==> Next(w, s).value == w.value
  {
    if s.Finish? && s.client in w.pending {
      var sum := Wrap(w.pending[s.client].read + w.pending[s.client].delta);
      Widths();
      FromTo(sum, 8);
    }
  }

  /** Main result: after any interleaving the counter is the initial value plus everything
      added minus everything lost, modulo 2^64. */
  lemma {:induction false} Conservation(w: World, steps: seq<Step>)
    requires Counter(w.value).Some?
    ensures var r := Run(w, steps);
            && Counter(r.value).Some?
            && Wrap(Counter(r.value).value) == Wrap(Counter(w.value).value + Added(w, steps) - Lost(w, steps))
    decreases |steps|
  {
    if steps != [] {
      var s := steps[0];
      var w' := Next(w, s);
      NextCounts(w, s);
      Conservation(w', steps[1..]);
      var d := Added(w', steps[1..]) - Lost(w', steps[1..]);
      if s.Finish? && s.client in w.pending {
        var p := w.pending[s.client];
        hide Wrap, Counter, Next, Run;
        WrapAdd(p.read + p.delta, d);
        assert p.read + p.delta + d == Counter(w.value).value + Added(w, steps) - Lost(w, steps);
      }
    }
  }

  /** So no update is lost, in sum, if and only if the losses cancel modulo 2^64. */
  lemma NothingLostIff(w: World, steps: seq<Step>)
    requires Counter(w.value).Some?
    ensures Counter(Run(w, steps).value).Some?
    ensures Wrap(Counter(Run(w, steps).value).value) == Wrap(Counter(w.value).value + Added(w, steps))
       <==> Lost(w, steps) % U64 == 0
  {
    Conservation(w, steps);
    var a, b := Counter(w.value).value + Added(w, steps), Lost(w, steps);
    hide Counter, Run, Added, Lost;
    WrapMinus(a, b);
  }

  lemma WrapMinus(a: int, b: int)
    ensures Wrap(a - b) == Wrap(a) <==> b % U64 == 0
  {
    assert a == U64 * (a / U64) + a % U64;
    assert b == U64 * (b / U64) + b % U64;
    AddMultiple(a % U64 - b % U64, a / U64 - b / U64);
    assert a - b == (a % U64 - b % U64) + U64 * (a / U64 - b / U64);
    var x := a % U64 - b % U64;
    if x < 0 { AddMultiple(x, 1); }
  }

  /** Every increment that finishes finds the value it read. */
  predicate Undisturbed(w: World, steps: seq<Step>)
    decreases |steps|
  {
    steps != [] ==>
      && (steps[0].Finish? && steps[0].client in w.pending ==>
            Counter(w.value) == Some(w.pending[steps[0].client].read))
      && Undisturbed(Next(w, steps[0]), steps[1..])
  }

  lemma {:induction false} UndisturbedLosesNothing(w: World, steps: seq<Step>)
    requires Counter(w.value).Some? && Undisturbed(w, steps)
    ensures Lost(w, steps) == 0
    decreases |steps|
  {
    if steps != [] {
      NextCounts(w, steps[0]);
      UndisturbedLosesNothing(Next(w, steps[0]), steps[1..]);
    }
  }

  // ----- when the total is right -----

  /** All increments, begun or still to begin, are positive. */
  predicate Positive(w: World, steps: seq<Step>) {
    && (forall c | c in w.pending :: w.pending[c].delta > 0)
    && (forall s | s in steps :: s.Begin? ==> s.delta > 0)
  }

  /** `total` is the initial value plus all that has been finished. The counter never exceeds
      it, and no pending read equals it unless the counter still does. */
  ghost predicate Bounded(w: World, total: nat) {
    && Counter(w.value).Some? && Counter(w.value).value <= total
    && forall c | c in w.pending ::
         && w.pending[c].read <= total
         && (w.pending[c].read == total ==> Counter(w.value).value == total)
  }

  lemma {:induction false} AddedIsNat(w: World, steps: seq<Step>)
    requires Positive(w, steps)
    ensures Added(w, steps) >= 0
    decreases |steps|
  {
    if steps != [] {
      PositiveNext(w, steps);
      AddedIsNat(Next(w, steps[0]), steps[1..]);
    }
  }

  lemma PositiveNext(w: World, steps: seq<Step>)
    requires Positive(w, steps) && steps != []
    ensures Positive(Next(w, steps[0]), steps[1..])
  {
    hide Counter;
    assert steps[0] in steps && forall s | s in steps[1..] :: s in steps;
  }

  /** A finished increment keeps the counter at the total exactly when it was there and is the
      value that was read. */
  lemma FinishBounded(w: World, c: Client, total: nat)
    requires Bounded(w, total) && c in w.pending && w.pending[c].delta > 0
    requires total + w.pending[c].delta < U64
    ensures var delta := w.pending[c].delta;
            var w' := Next(w, Finish(c));
            && Bounded(w', total + delta)
            && (Counter(w'.value).value == total + delta
                <==> Counter(w.value).value == total && w.pending[c].read == total)
  {
    NextCounts(w, Finish(c));
    var p := w.pending[c];
    assert Wrap(p.read + p.delta) == p.read + p.delta;
    hide Wrap, ToLe, FromLe;
  }

  lemma {:induction false} RightFrom(w: World, steps: seq<Step>, total: nat)
    requires Bounded(w, total) && Positive(w, steps)
    requires total + Added(w, steps) < U64
    ensures var r := Run(w, steps);
            && Counter(r.value).Some?
            && (Counter(r.value).value == total + Added(w, steps)
                <==> Counter(w.value).value == total && Undisturbed(w, steps))
    decreases |steps|
  {
    if steps != [] {
      var s, rest := steps[0], steps[1..];
      var w' := Next(w, s);
      PositiveNext(w, steps);
      AddedIsNat(w', rest);
      if s.Finish? && s.client in w.pending {
        FinishBounded(w, s.client, total);
        hide Counter, Next;
        RightFrom(w', rest, total + w.pending[s.client].delta);
      } else {
        NextCounts(w, s);
        assert Bounded(w', total);
        RightFrom(w', rest, total);
      }
    }
  }

  /** From a counter nobody is incrementing, positive increments whose sum fits 64 bits: the
      final value is the initial one plus all of them if and only if every write step finds
      the value its read step saw. */
  lemma RightIffUndisturbed(w: World, steps: seq<Step>)
    requires w.pending == map[] && Counter(w.value).Some? && Positive(w, steps)
    requires Counter(w.value).value + Added(w, steps) < U64
    ensures Counter(Run(w, steps).value) == Some(Counter(w.value).value + Added(w, steps)) <==> Undisturbed(w, steps)
  {
    AddedIsNat(w, steps);
    RightFrom(w, steps, Counter(w.value).value);
  }

  /** Two clients that both read before either writes: one of two increments is lost. */
  lemma OneOfTwoIsLost()
    ensures var w := World(None, map[], []);
            var steps := [Begin(1, 1), Begin(2, 1), Finish(1), Finish(2)];
            Counter(Run(w, steps).value) == Some(1) && Added(w, steps) == 2 && Lost(w, steps) == 1
  {
    var w := World(None, map[], []);
    var steps := [Begin(1, 1), Begin(2, 1), Finish(1), Finish(2)];
    var p := Pending(0, 1);
    var w2 := World(None, map[1 := p, 2 := p], []);
    assert Next(Next(w, steps[0]), steps[1]) == w2;
    assert steps[1..][1..] == [Finish(1), Finish(2)];
    var w3 := Next(w2, Finish(1));
    NextCounts(w2, Finish(1));
    assert w3.pending == map[2 := p];
    var w4 := Next(w3, Finish(2));
    NextCounts(w3, Finish(2));
    assert Wrap(1) == 1;
    assert [Finish(1), Finish(2)][1..] == [Finish(2)] && [Finish(2)][1..] == [];
    assert Run(w3, [Finish(2)]) == w4 && Added(w3, [Finish(2)]) == 1 && Lost(w3, [Finish(2)]) == 1;
    assert Run(w2, [Finish(1), Finish(2)]) == w4;
    assert Added(w2, [Finish(1), Finish(2)]) == 2 && Lost(w2, [Finish(1), Finish(2)]) == 1;
  }
}
