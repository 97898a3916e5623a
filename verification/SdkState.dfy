/** The SDK shim around user methods: build a fresh instance, load its fields, run the
    method, save what changed. */
module SdkState {
  import opened Bytes

  type Fields<V> = map<string, V>

  type Entries = map<string, Bytes>

  /** What serialising a value gives: text, nothing (as for `undefined`), or an exception,
      which is either one of the SDK's own errors or any other. */
  datatype Text = Text(bytes: Bytes) | Undefined | Throws(isApp: bool)

  datatype Json<!V> = Json(stringify: V -> Text, parse: Bytes -> Option<V>) {

    /** A value that comes back from its own text. */
    ghost predicate IsJson(v: V) {
      stringify(v).Text? && parse(stringify(v).bytes) == Some(v)
    }
  }

  /** What is asked of JSON: text parses, and empty text does not. */
  ghost predicate Lawful<V(!new)>(j: Json<V>) {
    && (forall v :: j.stringify(v).Text? ==> j.parse(j.stringify(v).bytes).Some?)
    && j.parse([]) == None
  }

  datatype Result<V> = Returns(value: Option<V>) | Fails(isApp: bool)

  /** A method's effect: the instance's declared fields afterwards, what it wrote itself
      through the proxy, and how it ended. */
  datatype Outcome<V> = Outcome(fields: Fields<V>, writes: Entries, result: Result<V>)

  datatype Method<!V> = Method(stateless: bool, body: (Fields<V>, Entries, Option<V>) -> Outcome<V>)

  datatype Service<!V> = Service(json: Json<V>, fields: seq<string>, defaults: Fields<V>, methods: map<string, Method<V>>)

  datatype Call = Call(name: string, payload: Option<Bytes>)

  datatype Response = Okay(payload: Option<Bytes>) | InvalidRequest | AppError | SystemError

  function Undeclared<V>(s: Service<V>, store: Entries): (rest: Entries) {
    map k | k in store && k !in s.fields :: store[k]
  }

  /** Given the declared fields, methods leave exactly these, and they write no declared
      field directly. */
  ghost predicate WellBehaved<V(!new)>(s: Service<V>) {
    && Lawful(s.json)
    && Declared(s, s.defaults)
    && (forall n, vs, rest, arg | n in s.methods && Declared(s, vs) :: Tidy(s, s.methods[n].body(vs, rest, arg)))
  }

  ghost predicate Declared<V>(s: Service<V>, vs: Fields<V>) {
    forall f :: f in s.fields <==> f in vs
  }

  ghost predicate Tidy<V>(s: Service<V>, o: Outcome<V>) {
    && Declared(s, o.fields)
    && (forall k | k in o.writes :: k !in s.fields)
  }

  function Failure(isApp: bool): (r: Response) {
    if isApp then AppError else SystemError
  }

  /** The bytes an encoder makes of serialised text: nothing becomes no bytes. */
  function Encoded(t: Text): (b: Bytes) {
    if t.Text? then t.bytes else []
  }

  function Reply<V>(j: Json<V>, value: Option<V>): (r: Response) {
    if value.None? then Okay(None)
    else
      var t := j.stringify(value.value);
      if t.Throws? then Failure(t.isApp) else Okay(Some(Encoded(t)))
  }

  /** The exception of the first field, in order, that cannot be serialised. */
  function FirstThrow<V>(j: Json<V>, fields: seq<string>, vs: Fields<V>): (e: Option<bool>)
    requires forall f | f in fields :: f in vs
  {
    if fields == [] then None
    else if j.stringify(vs[fields[0]]).Throws? then Some(j.stringify(vs[fields[0]]).isApp)
    else FirstThrow(j, fields[1..], vs)
  }

  // ----- loading and saving -----

  function LoadedValue<V>(j: Json<V>, store: Entries, f: string, default: V): (v: V) {
    if f in store && j.parse(store[f]).Some? then j.parse(store[f]).value else default
  }

  function Loaded<V>(s: Service<V>, store: Entries): (vs: Fields<V>) {
    map f | f in s.defaults :: LoadedValue(s.json, store, f, s.defaults[f])
  }

  predicate Changed<V>(j: Json<V>, before: Fields<V>, after: Fields<V>, f: string)
    requires f in before && f in after
  {
    j.stringify(after[f]) != j.stringify(before[f])
  }

  function Saved<V>(j: Json<V>, store: Entries, fields: seq<string>, before: Fields<V>, after: Fields<V>): (r: Entries)
    requires forall f | f in fields :: f in before && f in after
  {
    store + map f | f in fields && Changed(j, before, after, f) :: Encoded(j.stringify(after[f]))
  }

  /** A request that is refused before anything is loaded, or a method and its argument. */
  datatype Request<!V> = Rejected | Accepted(handler: Method<V>, arg: Option<V>)

  function Route<V>(s: Service<V>, call: Call): (r: Request<V>)
    ensures r.Accepted? ==> call.name in s.methods && r.handler == s.methods[call.name]
  {
    if call.name !in s.methods then Rejected
    else if call.payload.None? || call.payload.value == [] then Accepted(s.methods[call.name], None)
    else
      var arg := s.json.parse(call.payload.value);
      if arg.None? then Rejected else Accepted(s.methods[call.name], arg)
  }

  /** Why a method's fields are not saved: it threw, or one of them cannot be serialised. */
  function Unsaved<V>(s: Service<V>, o: Outcome<V>): (e: Option<bool>)
    requires Tidy(s, o)
  {
    if o.result.Fails? then Some(o.result.isApp) else FirstThrow(s.json, s.fields, o.fields)
  }

  function Answer<V>(s: Service<V>, o: Outcome<V>): (r: Response) {
    if o.result.Fails? then Failure(o.result.isApp) else Reply(s.json, o.result.value)
  }

  /** One invocation on the entries of an object. */
  function Invoke<V(!new)>(s: Service<V>, store: Entries, call: Call): (r: (Entries, Response))
    requires WellBehaved(s)
  {
    match Route(s, call)
    case Rejected => (store, InvalidRequest)
    case Accepted(m, arg) =>
      if m.stateless then
        var o := m.body(s.defaults, Undeclared(s, store), arg);
        (store + o.writes, Answer(s, o))
      else
        var before := Loaded(s, store);
        var unread := FirstThrow(s.json, s.fields, before);
        if unread.Some? then (store, Failure(unread.value))
        else InvokeLoaded(s, store, m.body(before, Undeclared(s, store), arg))
  }

  function InvokeLoaded<V(!new)>(s: Service<V>, store: Entries, o: Outcome<V>): (r: (Entries, Response))
    requires WellBehaved(s) && Tidy(s, o)
  {
    var unsaved := Unsaved(s, o);
    if unsaved.Some? then (store + o.writes, Failure(unsaved.value))
    else (Saved(s.json, store + o.writes, s.fields, Loaded(s, store), o.fields), Answer(s, o))
  }

  // ----- the object the shim stands in for -----

  /** One long-lived object: its fields, and the entries it keeps itself. */
  datatype Object<V> = Object(fields: Fields<V>, rest: Entries)

  /** The value a field has after a call that left `after` in it: unchanged text keeps the
      old value, new text is what it parses to, no text resets the field. */
  function Kept<V(!new)>(s: Service<V>, before: V, after: V, default: V): (v: V)
    requires Lawful(s.json)
    requires !s.json.stringify(after).Throws?
  {
    var t := s.json.stringify(after);
    if t == s.json.stringify(before) then before
    else if t.Text? then s.json.parse(t.bytes).value
    else default
  }

  lemma {:induction false} NoThrow<V>(j: Json<V>, fields: seq<string>, vs: Fields<V>, f: string)
    requires forall g | g in fields :: g in vs
    requires FirstThrow(j, fields, vs).None?
    requires f in fields
    ensures !j.stringify(vs[f]).Throws?
  {
    if f != fields[0] {
      NoThrow(j, fields[1..], vs, f);
    }
  }

  function Settled<V(!new)>(s: Service<V>, before: Fields<V>, after: Fields<V>): (vs: Fields<V>)
    requires Lawful(s.json)
    requires Declared(s, before)
    requires Declared(s, after)
    requires Declared(s, s.defaults)
    requires FirstThrow(s.json, s.fields, after).None?
    ensures Declared(s, vs)
  {
    map f | f in before ::
      NoThrow(s.json, s.fields, after, f);
      Kept(s, before[f], after[f], s.defaults[f])
  }

  /** An invocation on the long-lived object: it rolls back when the method throws or a
      field cannot be serialised, and stateless methods run on defaults. */
  function Act<V(!new)>(s: Service<V>, x: Object<V>, call: Call): (r: (Object<V>, Response))
    requires WellBehaved(s) && Declared(s, x.fields)
    ensures Declared(s, r.0.fields)
  {
    match Route(s, call)
    case Rejected => (x, InvalidRequest)
    case Accepted(m, arg) =>
      if m.stateless then
        var o := m.body(s.defaults, x.rest, arg);
        (x.(rest := x.rest + o.writes), Answer(s, o))
      else
        var unread := FirstThrow(s.json, s.fields, x.fields);
        if unread.Some? then (x, Failure(unread.value))
        else ActLoaded(s, x, m.body(x.fields, x.rest, arg))
  }

  function ActLoaded<V(!new)>(s: Service<V>, x: Object<V>, o: Outcome<V>): (r: (Object<V>, Response))
    requires WellBehaved(s) && Declared(s, x.fields) && Tidy(s, o)
    ensures Declared(s, r.0.fields)
  {
    var unsaved := Unsaved(s, o);
    var rest := x.rest + o.writes;
    if unsaved.Some? then (Object(x.fields, rest), Failure(unsaved.value))
    else (Object(Settled(s, x.fields, o.fields), rest), Answer(s, o))
  }

  /** The object as its author thinks of it: no JSON anywhere but in requests and replies. */
  function Plain<V(!new)>(s: Service<V>, x: Object<V>, call: Call): (r: (Object<V>, Response)) {
    match Route(s, call)
    case Rejected => (x, InvalidRequest)
    case Accepted(m, arg) =>
      var o := m.body(if m.stateless then s.defaults else x.fields, x.rest, arg);
      var fields := if m.stateless || o.result.Fails? then x.fields else o.fields;
      (Object(fields, x.rest + o.writes), Answer(s, o))
  }

  // ----- the shim is indistinguishable from the object -----

  /** A later load would see the object's fields, and the other entries are its own. */
  ghost predicate Matches<V>(s: Service<V>, store: Entries, x: Object<V>) {
    x.fields == Loaded(s, store) && x.rest == Undeclared(s, store)
  }

  lemma WritesElsewhere<V(!new)>(s: Service<V>, store: Entries, o: Outcome<V>)
    requires WellBehaved(s) && Tidy(s, o)
    ensures Loaded(s, store + o.writes) == Loaded(s, store)
    ensures Undeclared(s, store + o.writes) == Undeclared(s, store) + o.writes
  {
  }

  lemma SavedValue<V(!new)>(s: Service<V>, store: Entries, after: Fields<V>, f: string)
    requires WellBehaved(s)
    requires Declared(s, after)
    requires f in s.fields && !s.json.stringify(after[f]).Throws?
    ensures LoadedValue(s.json, Saved(s.json, store, s.fields, Loaded(s, store), after), f, s.defaults[f])
            == Kept(s, Loaded(s, store)[f], after[f], s.defaults[f])
  {
    var before := Loaded(s, store)[f];
    if s.json.stringify(before) == s.json.stringify(after[f]) {
      assert Saved(s.json, store, s.fields, Loaded(s, store), after).Keys >= store.Keys;
    }
  }

  /** Loading after a save gives the settled value of each field. */
  lemma LoadAfterSave<V(!new)>(s: Service<V>, store: Entries, after: Fields<V>)
    requires WellBehaved(s)
    requires Declared(s, after)
    requires FirstThrow(s.json, s.fields, after).None?
    ensures Loaded(s, Saved(s.json, store, s.fields, Loaded(s, store), after))
            == Settled(s, Loaded(s, store), after)
    ensures Undeclared(s, Saved(s.json, store, s.fields, Loaded(s, store), after)) == Undeclared(s, store)
  {
    var before := Loaded(s, store);
    var store' := Saved(s.json, store, s.fields, before, after);
    assert Undeclared(s, store') == Undeclared(s, store);
    hide Saved, Kept, LoadedValue, Lawful, Changed, Undeclared;
    forall f | f in s.fields
      ensures Loaded(s, store')[f] == Settled(s, before, after)[f]
    {
      NoThrow(s.json, s.fields, after, f);
      SavedValue(s, store, after, f);
    }
  }

  lemma LoadedMatches<V(!new)>(s: Service<V>, store: Entries, x: Object<V>, o: Outcome<V>)
    requires WellBehaved(s) && Matches(s, store, x) && Tidy(s, o)
    ensures InvokeLoaded(s, store, o).1 == ActLoaded(s, x, o).1
    ensures Matches(s, InvokeLoaded(s, store, o).0, ActLoaded(s, x, o).0)
  {
    hide WellBehaved;
    WritesElsewhere(s, store, o);
    if Unsaved(s, o).None? {
      LoadAfterSave(s, store + o.writes, o.fields);
    }
  }

  lemma InvokeMatches<V(!new)>(s: Service<V>, store: Entries, x: Object<V>, call: Call)
    requires WellBehaved(s) && Matches(s, store, x)
    ensures Invoke(s, store, call).1 == Act(s, x, call).1
    ensures Matches(s, Invoke(s, store, call).0, Act(s, x, call).0)
  {
    hide InvokeLoaded, ActLoaded, Answer, Lawful;
    match Route(s, call)
    case Rejected =>
    case Accepted(m, arg) =>
      var o := m.body(if m.stateless then s.defaults else x.fields, x.rest, arg);
      assert Tidy(s, o);
      WritesElsewhere(s, store, o);
      LoadedMatches(s, store, x, o);
  }

  function InvokeAll<V(!new)>(s: Service<V>, store: Entries, calls: seq<Call>): (r: (Entries, seq<Response>))
    requires WellBehaved(s)
    decreases |calls|
  {
    if calls == [] then (store, [])
    else
      var (next, a) := Invoke(s, store, calls[0]);
      var (last, rest) := InvokeAll(s, next, calls[1..]);
      (last, [a] + rest)
  }

  function ActAll<V(!new)>(s: Service<V>, x: Object<V>, calls: seq<Call>): (r: (Object<V>, seq<Response>))
    requires WellBehaved(s)
    requires Declared(s, x.fields)
    decreases |calls|
  {
    if calls == [] then (x, [])
    else
      var (next, a) := Act(s, x, calls[0]);
      var (last, rest) := ActAll(s, next, calls[1..]);
      (last, [a] + rest)
  }

  /** Main result: every sequence of invocations, from any stored entries, answers as one
      long-lived object does and leaves what that object holds. */
  lemma {:induction false} RunMatches<V(!new)>(s: Service<V>, store: Entries, x: Object<V>, calls: seq<Call>)
    requires WellBehaved(s) && Matches(s, store, x)
    ensures InvokeAll(s, store, calls).1 == ActAll(s, x, calls).1
    ensures Matches(s, InvokeAll(s, store, calls).0, ActAll(s, x, calls).0)
    decreases |calls|
  {
    assert Declared(s, x.fields);
    hide Invoke, Act, Loaded, Undeclared;
    if calls != [] {
      InvokeMatches(s, store, x, calls[0]);
      RunMatches(s, Invoke(s, store, calls[0]).0, Act(s, x, calls[0]).0, calls[1..]);
    }
  }

  // ----- and, on JSON values, from the plain object -----

  ghost predicate AllJson<V>(j: Json<V>, vs: Fields<V>) {
    forall f | f in vs :: j.IsJson(vs[f])
  }

  /** Defaults are JSON values, and so are the fields a method leaves when those it was given
      and its argument are. */
  ghost predicate JsonOnly<V(!new)>(s: Service<V>) {
    && AllJson(s.json, s.defaults)
    && (forall n, vs, rest, arg: Option<V> |
          n in s.methods && Declared(s, vs) && AllJson(s.json, vs) && JsonArgument(s.json, arg) ::
          AllJson(s.json, s.methods[n].body(vs, rest, arg).fields))
  }

  ghost predicate JsonArgument<V>(j: Json<V>, arg: Option<V>) {
    arg.Some? ==> j.IsJson(arg.value)
  }

  /** The call's payload, if it gets to a method, is a JSON value. */
  ghost predicate JsonCall<V>(s: Service<V>, call: Call) {
    Route(s, call).Accepted? ==> JsonArgument(s.json, Route(s, call).arg)
  }

  lemma {:induction false} JsonNeverThrows<V>(j: Json<V>, fields: seq<string>, vs: Fields<V>)
    requires forall f | f in fields :: f in vs
    requires AllJson(j, vs)
    ensures FirstThrow(j, fields, vs).None?
  {
    if fields != [] {
      assert fields[0] in fields && j.IsJson(vs[fields[0]]);
      JsonNeverThrows(j, fields[1..], vs);
    }
  }

  lemma JsonSettles<V(!new)>(s: Service<V>, before: Fields<V>, after: Fields<V>)
    requires WellBehaved(s)
    requires Declared(s, before)
    requires Declared(s, after)
    requires AllJson(s.json, before) && AllJson(s.json, after)
    requires FirstThrow(s.json, s.fields, after).None?
    ensures Settled(s, before, after) == after
  {
    forall f | f in s.fields ensures Settled(s, before, after)[f] == after[f] {
      assert s.json.IsJson(before[f]) && s.json.IsJson(after[f]);
      NoThrow(s.json, s.fields, after, f);
    }
  }

  lemma ActIsPlain<V(!new)>(s: Service<V>, x: Object<V>, call: Call)
    requires WellBehaved(s) && JsonOnly(s)
    requires Declared(s, x.fields) && AllJson(s.json, x.fields) && JsonCall(s, call)
    ensures Act(s, x, call) == Plain(s, x, call)
    ensures AllJson(s.json, Act(s, x, call).0.fields)
  {
    hide Reply, Failure, Lawful, Settled;
    match Route(s, call)
    case Rejected =>
    case Accepted(m, arg) =>
      var o := m.body(if m.stateless then s.defaults else x.fields, x.rest, arg);
      assert Tidy(s, o) && AllJson(s.json, o.fields);
      JsonNeverThrows(s.json, s.fields, x.fields);
      JsonNeverThrows(s.json, s.fields, o.fields);
      JsonSettles(s, x.fields, o.fields);
  }

  function PlainAll<V(!new)>(s: Service<V>, x: Object<V>, calls: seq<Call>): (r: (Object<V>, seq<Response>))
    decreases |calls|
  {
    if calls == [] then (x, [])
    else
      var (next, a) := Plain(s, x, calls[0]);
      var (last, rest) := PlainAll(s, next, calls[1..]);
      (last, [a] + rest)
  }

  lemma {:induction false} ActAllIsPlain<V(!new)>(s: Service<V>, x: Object<V>, calls: seq<Call>)
    requires WellBehaved(s) && JsonOnly(s)
    requires Declared(s, x.fields)
    requires AllJson(s.json, x.fields)
    requires forall call | call in calls :: JsonCall(s, call)
    ensures ActAll(s, x, calls) == PlainAll(s, x, calls)
    decreases |calls|
  {
    hide Act, Plain, JsonOnly, JsonCall;
    if calls != [] {
      assert calls[0] in calls;
      ActIsPlain(s, x, calls[0]);
      ActAllIsPlain(s, Act(s, x, calls[0]).0, calls[1..]);
    }
  }

  /** With JSON values throughout, in what is stored and in the payloads, fresh instances per
      call cannot be told from the plain object: same responses, same fields on the next load,
      same other entries. */
  lemma ShimIsTransparent<V(!new)>(s: Service<V>, store: Entries, calls: seq<Call>)
    requires WellBehaved(s) && JsonOnly(s)
    requires AllJson(s.json, Loaded(s, store))
    requires forall call | call in calls :: JsonCall(s, call)
    ensures var x := Object(Loaded(s, store), Undeclared(s, store));
            var (store', replies) := InvokeAll(s, store, calls);
            && replies == PlainAll(s, x, calls).1
            && Object(Loaded(s, store'), Undeclared(s, store')) == PlainAll(s, x, calls).0
  {
    var x := Object(Loaded(s, store), Undeclared(s, store));
    RunMatches(s, store, x, calls);
    ActAllIsPlain(s, x, calls);
  }

  // ----- what is written -----

  /** What an accepted call's method does to the stored object. */
  function Effect<V>(s: Service<V>, store: Entries, r: Request<V>): (o: Outcome<V>)
    requires r.Accepted?
  {
    r.handler.body(if r.handler.stateless then s.defaults else Loaded(s, store), Undeclared(s, store), r.arg)
  }

  /** An invocation touches a declared field exactly when an accepted, stateful method
      returned with every field serialisable and this one's text changed; it then holds
      the new text. */
  lemma OnlyChangesWritten<V(!new)>(s: Service<V>, store: Entries, call: Call, k: string)
    requires WellBehaved(s)
    requires k in s.fields
    ensures var store' := Invoke(s, store, call).0;
            var r := Route(s, call);
            if && r.Accepted? && !r.handler.stateless
               && FirstThrow(s.json, s.fields, Loaded(s, store)).None?
               && Unsaved(s, Effect(s, store, r)).None?
               && s.json.stringify(Effect(s, store, r).fields[k]) != s.json.stringify(Loaded(s, store)[k])
            then k in store' && store'[k] == Encoded(s.json.stringify(Effect(s, store, r).fields[k]))
            else (k in store <==> k in store') && (k in store ==> store'[k] == store[k])
  {
    hide Lawful, Answer;
    match Route(s, call)
    case Rejected =>
    case Accepted(m, arg) =>
      assert Tidy(s, Effect(s, store, Route(s, call)));
  }

  // ----- what is answered -----

  /** The response to a method's result, case by case. */
  ghost predicate Says<V>(j: Json<V>, result: Result<V>, r: Response) {
    match result
    case Fails(true) => r == AppError
    case Fails(false) => r == SystemError
    case Returns(None) => r == Okay(None)
    case Returns(Some(v)) =>
      match j.stringify(v)
      case Text(b) => r == Okay(Some(b))
      case Undefined => r == Okay(Some([]))
      case Throws(true) => r == AppError
      case Throws(false) => r == SystemError
  }

  /** Field number `i` is the first that cannot be serialised. */
  ghost predicate FirstBad<V>(s: Service<V>, vs: Fields<V>, i: nat)
    requires Declared(s, vs)
  {
    && i < |s.fields| && s.json.stringify(vs[s.fields[i]]).Throws?
    && forall k | 0 <= k < i :: !s.json.stringify(vs[s.fields[k]]).Throws?
  }

  lemma {:induction false} FirstThrowAt<V>(j: Json<V>, fields: seq<string>, vs: Fields<V>) returns (i: nat)
    requires forall f | f in fields :: f in vs
    ensures i <= |fields| && forall k | 0 <= k < i :: !j.stringify(vs[fields[k]]).Throws?
    ensures i < |fields| ==> j.stringify(vs[fields[i]]).Throws?
    ensures FirstThrow(j, fields, vs) == if i < |fields| then Some(j.stringify(vs[fields[i]]).isApp) else None
  {
    if fields == [] || j.stringify(vs[fields[0]]).Throws? {
      i := 0;
    } else {
      i := FirstThrowAt(j, fields[1..], vs);
      assert forall k | 0 < k < |fields| :: fields[k] == fields[1..][k - 1];
      i := i + 1;
    }
  }

  /** A request is refused, and nothing happens, exactly when there is no such method or a
      non-empty payload does not parse. */
  lemma RefusedIff<V(!new)>(s: Service<V>, store: Entries, call: Call)
    requires WellBehaved(s)
    ensures var (store', r) := Invoke(s, store, call);
            && (r == InvalidRequest <==>
                  || call.name !in s.methods
                  || (call.payload.Some? && call.payload.value != [] && s.json.parse(call.payload.value).None?))
            && (r == InvalidRequest ==> store' == store)
  {
    hide Lawful, Saved, FirstThrow, Loaded;
    match Route(s, call)
    case Rejected =>
    case Accepted(m, arg) => LoadedDeclared(s, store);
  }

  lemma LoadedDeclared<V(!new)>(s: Service<V>, store: Entries)
    requires WellBehaved(s)
    ensures Declared(s, Loaded(s, store))
  {
  }

  /** The argument of an accepted call: what its payload parses to, or none. */
  ghost predicate Given<V>(s: Service<V>, call: Call, arg: Option<V>) {
    && call.name in s.methods
    && if call.payload.None? || call.payload.value == [] then arg == None
       else arg.Some? && arg == s.json.parse(call.payload.value)
  }

  /** What the method is run on. */
  ghost function Ran<V>(s: Service<V>, store: Entries, name: string, arg: Option<V>): (o: Outcome<V>)
    requires name in s.methods
  {
    var m := s.methods[name];
    m.body(if m.stateless then s.defaults else Loaded(s, store), Undeclared(s, store), arg)
  }

  /** Outside the declared fields the store holds what the method wrote, over what was there. */
  ghost predicate Wrote<V>(s: Service<V>, store: Entries, o: Outcome<V>, store': Entries) {
    forall k | k !in s.fields ::
      && (k in store' <==> k in o.writes || k in store)
      && (k in store' ==> store'[k] == if k in o.writes then o.writes[k] else store[k])
  }

  lemma SavedWrote<V>(s: Service<V>, store: Entries, o: Outcome<V>, before: Fields<V>)
    requires Declared(s, before) && Declared(s, o.fields)
    ensures Wrote(s, store, o, store + o.writes)
    ensures Wrote(s, store, o, Saved(s.json, store + o.writes, s.fields, before, o.fields))
  {
    hide Changed, Encoded;
  }

  lemma FailureSays<V>(j: Json<V>, isApp: bool)
    ensures Says(j, Fails(isApp), Failure(isApp))
  {
  }

  lemma AnswerSays<V>(s: Service<V>, o: Outcome<V>)
    ensures Says(s.json, o.result, Answer(s, o))
  {
  }

  /** The answer when the fields have been loaded and the method has run. */
  lemma LoadedAnswer<V(!new)>(s: Service<V>, store: Entries, o: Outcome<V>)
    requires WellBehaved(s) && Tidy(s, o)
    ensures var (store', r) := InvokeLoaded(s, store, o);
            && Wrote(s, store, o, store')
            && (o.result.Fails? || (forall i: nat :: !FirstBad(s, o.fields, i)) ==> Says(s.json, o.result, r))
            && (forall i: nat | o.result.Returns? && FirstBad(s, o.fields, i) ::
                  Says(s.json, Fails(s.json.stringify(o.fields[s.fields[i]]).isApp), r))
  {
    assert Declared(s, Loaded(s, store));
    SavedWrote(s, store, o, Loaded(s, store));
    AnswerSays(s, o);
    var j := FirstThrowAt(s.json, s.fields, o.fields);
    OneFirstBad(s, o.fields, j);
    hide FirstThrow, FirstBad, Saved, Answer, Says, Failure, Wrote, WellBehaved, Loaded;
    assert FirstBad(s, o.fields, j) <==> j < |s.fields|;
    var unsaved := Unsaved(s, o);
    if unsaved.Some? {
      FailureSays(s.json, unsaved.value);
    }
  }

  /** The answer to an accepted call: if a stateful method's fields cannot be loaded, the
      first failure's error, and nothing happens; if it returns and they cannot be saved, the
      first failure's error; and otherwise what the method's result says. Its own writes are
      in the store whenever it has run. */
  lemma AnswerIs<V(!new)>(s: Service<V>, store: Entries, call: Call, arg: Option<V>)
    requires WellBehaved(s) && Given(s, call, arg)
    ensures var (store', r) := Invoke(s, store, call);
            var stateless := s.methods[call.name].stateless;
            var o := Ran(s, store, call.name, arg);
            && Declared(s, Loaded(s, store)) && Declared(s, o.fields)
            && (forall i: nat | !stateless && FirstBad(s, Loaded(s, store), i) ::
                  store' == store && Says(s.json, Fails(s.json.stringify(Loaded(s, store)[s.fields[i]]).isApp), r))
            && (stateless || (forall i: nat :: !FirstBad(s, Loaded(s, store), i)) ==>
                  && Wrote(s, store, o, store')
                  && (stateless || o.result.Fails? || (forall i: nat :: !FirstBad(s, o.fields, i)) ==>
                        Says(s.json, o.result, r))
                  && (forall i: nat | !stateless && o.result.Returns? && FirstBad(s, o.fields, i) ::
                        Says(s.json, Fails(s.json.stringify(o.fields[s.fields[i]]).isApp), r)))
  {
    var m := s.methods[call.name];
    var before := Loaded(s, store);
    assert Declared(s, before) && Declared(s, s.defaults);
    var o := Ran(s, store, call.name, arg);
    assert Tidy(s, o);
    assert Route(s, call) == Accepted(m, arg);
    SavedWrote(s, store, o, before);
    AnswerSays(s, o);
    LoadedAnswer(s, store, o);
    var i := FirstThrowAt(s.json, s.fields, before);
    OneFirstBad(s, before, i);
    hide WellBehaved, FirstThrow, FirstBad, InvokeLoaded, Answer, Says, Failure, Wrote, Loaded, Route, Saved;
    assert FirstBad(s, before, i) <==> i < |s.fields|;
    var unread := FirstThrow(s.json, s.fields, before);
    if unread.Some? {
      FailureSays(s.json, unread.value);
    }
  }

  lemma OneFirstBad<V>(s: Service<V>, vs: Fields<V>, i: nat)
    requires Declared(s, vs) && i <= |s.fields|
    requires forall k | 0 <= k < i :: !s.json.stringify(vs[s.fields[k]]).Throws?
    requires i < |s.fields| ==> s.json.stringify(vs[s.fields[i]]).Throws?
    ensures forall k: nat :: FirstBad(s, vs, k) <==> k == i && i < |s.fields|
  {
  }

  /** The call ran a stateful method to its end and saved, but the result it returned cannot
      be serialised. */
  ghost predicate ResultUnserialisable<V(!new)>(s: Service<V>, store: Entries, call: Call)
    requires WellBehaved(s)
  {
    var r := Route(s, call);
    && r.Accepted? && !r.handler.stateless
    && FirstThrow(s.json, s.fields, Loaded(s, store)).None?
    && var o := Effect(s, store, r);
    && Tidy(s, o) && Unsaved(s, o).None?
    && o.result.value.Some? && s.json.stringify(o.result.value.value).Throws?
  }

  /** A field whose text changed to one that reads back as another value. */
  predicate Moves<V(==)>(s: Service<V>, before: Fields<V>, after: Fields<V>, f: string)
    requires f in before && f in after && f in s.defaults
  {
    && Changed(s.json, before, after, f)
    && var t := s.json.stringify(after[f]);
    && (if t.Text? && s.json.parse(t.bytes).Some? then s.json.parse(t.bytes).value else s.defaults[f]) != before[f]
  }

  lemma SettledMoves<V(!new)>(s: Service<V>, before: Fields<V>, after: Fields<V>)
    requires WellBehaved(s) && Declared(s, before) && Declared(s, after)
    requires FirstThrow(s.json, s.fields, after).None?
    ensures Settled(s, before, after) == before <==> forall f | f in s.fields :: !Moves(s, before, after, f)
  {
    var settled := Settled(s, before, after);
    forall f | f in s.fields ensures settled[f] == before[f] <==> !Moves(s, before, after, f) {
      NoThrow(s.json, s.fields, after, f);
    }
  }

  /** When an error is reported the fields are as before, on the next load, if and only if it
      is not that a result could not be serialised after a field had moved: the rollback
      covers every other error. */
  lemma ErrorKeepsFieldsIff<V(!new)>(s: Service<V>, store: Entries, call: Call)
    requires WellBehaved(s)
    requires Invoke(s, store, call).1.AppError? || Invoke(s, store, call).1.SystemError?
    ensures Loaded(s, Invoke(s, store, call).0) == Loaded(s, store)
       <==> !(&& ResultUnserialisable(s, store, call)
              && exists f | f in s.fields ::
                   Moves(s, Loaded(s, store), Effect(s, store, Route(s, call)).fields, f))
  {
    match Route(s, call)
    case Rejected =>
    case Accepted(m, arg) =>
      var o := Effect(s, store, Route(s, call));
      assert Declared(s, Loaded(s, store));
      assert Tidy(s, o);
      WritesElsewhere(s, store, o);
      if !m.stateless && FirstThrow(s.json, s.fields, Loaded(s, store)).None? && Unsaved(s, o).None? {
        LoadAfterSave(s, store + o.writes, o.fields);
        SettledMoves(s, Loaded(s, store), o.fields);
      }
  }
}
