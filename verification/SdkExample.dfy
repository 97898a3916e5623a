/** A small service with two declared fields: its methods read, change one field and keep the
    other, or return something that cannot be serialised. */
module SdkExample {
  import opened Bytes
  import opened SdkState

  /** A string, which is JSON; `undefined`; and a big integer, which serialising refuses. */
  datatype Value = Str(bytes: Bytes) | Nothing | BigInt

  const QUOTE: byte := 34

  function Stringify(v: Value): (t: Text) {
    match v
    case Str(b) => Text.Text([QUOTE] + b)
    case Nothing => Undefined
    case BigInt => Throws(false)
  }

  function Parse(b: Bytes): (v: Option<Value>) {
    if b != [] && b[0] == QUOTE then Some(Str(b[1..])) else None
  }

  const JSON := Json(Stringify, Parse)

  lemma JsonIsLawful()
    ensures Lawful(JSON)
    ensures forall b :: JSON.IsJson(Str(b))
  {
    forall b: Bytes ensures ([QUOTE] + b)[1..] == b {}
  }

  function Get(vs: Fields<Value>, rest: Entries, arg: Option<Value>): (o: Outcome<Value>) {
    Outcome(vs, map[], Returns(if "name" in vs then Some(vs["name"]) else None))
  }

  /** Stores whatever it is given. */
  function Rename(vs: Fields<Value>, rest: Entries, arg: Option<Value>): (o: Outcome<Value>) {
    if arg.Some? then Outcome(vs["name" := arg.value], map[], Returns(None)) else Outcome(vs, map[], Fails(true))
  }

  function RenameThenBigInt(vs: Fields<Value>, rest: Entries, arg: Option<Value>): (o: Outcome<Value>) {
    Outcome(vs["name" := Str([1])], map[], Returns(Some(BigInt)))
  }

  const SERVICE := Service(
    JSON, ["name", "note"], map["name" := Str([]), "note" := Str([])],
    map["get" := Method(false, Get), "rename" := Method(false, Rename), "odd" := Method(false, RenameThenBigInt)])

  lemma ServiceFields(vs: Fields<Value>)
    ensures Declared(SERVICE, vs) <==> vs.Keys == {"name", "note"}
  {
    assert SERVICE.fields == ["name", "note"];
    assert forall f :: f in ["name", "note"] <==> f in {"name", "note"};
    hide SERVICE;
  }

  /** What each of the three methods does with the declared fields. */
  lemma BodyKeeps(m: Method<Value>, vs: Fields<Value>, rest: Entries, arg: Option<Value>)
    requires m.body == Get || m.body == Rename || m.body == RenameThenBigInt
    requires "name" in vs
    ensures m.body(vs, rest, arg).fields.Keys == vs.Keys && m.body(vs, rest, arg).writes == map[]
    ensures (forall f | f in vs :: vs[f].Str?) && (arg.Some? ==> arg.value.Str?) ==>
              forall f | f in vs :: m.body(vs, rest, arg).fields[f].Str?
  {
  }

  lemma ThreeMethods(n: string)
    requires n in SERVICE.methods
    ensures var b := SERVICE.methods[n].body; b == Get || b == Rename || b == RenameThenBigInt
  {
    hide Get, Rename, RenameThenBigInt;
  }

  lemma MethodBehaves(n: string, vs: Fields<Value>, rest: Entries, arg: Option<Value>)
    requires n in SERVICE.methods && Declared(SERVICE, vs)
    ensures Tidy(SERVICE, SERVICE.methods[n].body(vs, rest, arg))
    ensures AllJson(JSON, vs) && JsonArgument(JSON, arg) ==> AllJson(JSON, SERVICE.methods[n].body(vs, rest, arg).fields)
  {
    ThreeMethods(n);
    JsonIsLawful();
    ServiceFields(vs);
    BodyKeeps(SERVICE.methods[n], vs, rest, arg);
    hide SERVICE, Get, Rename, RenameThenBigInt;
    JsonIsStr(vs);
    JsonIsStr(SERVICE.methods[n].body(vs, rest, arg).fields);
    ServiceFields(SERVICE.methods[n].body(vs, rest, arg).fields);
  }

  lemma JsonIsStr(vs: Fields<Value>)
    ensures AllJson(JSON, vs) <==> forall f | f in vs :: vs[f].Str?
  {
    JsonIsLawful();
    forall f | f in vs ensures JSON.IsJson(vs[f]) <==> vs[f].Str? {}
  }

  /** The hypotheses of the results about the shim hold of it, although there are values
      that are not JSON. */
  lemma ServiceIsWellBehaved()
    ensures WellBehaved(SERVICE) && JsonOnly(SERVICE)
  {
    JsonIsLawful();
    ServiceFields(SERVICE.defaults);
    JsonIsStr(SERVICE.defaults);
    assert SERVICE.json == JSON;
    hide SERVICE, JSON, Lawful, Tidy, AllJson, Declared, JsonArgument;
    forall n, vs, rest, arg | n in SERVICE.methods && Declared(SERVICE, vs)
      ensures Tidy(SERVICE, SERVICE.methods[n].body(vs, rest, arg))
      ensures AllJson(JSON, vs) && JsonArgument(JSON, arg) ==>
                AllJson(JSON, SERVICE.methods[n].body(vs, rest, arg).fields)
    {
      MethodBehaves(n, vs, rest, arg);
    }
  }

  lemma Serialisable(vs: Fields<Value>)
    requires vs.Keys == {"name", "note"} && vs["name"].Str? && vs["note"].Str?
    ensures FirstThrow(JSON, ["name", "note"], vs) == None
  {
    assert ["name", "note"][1..] == ["note"] && ["note"][1..] == [];
    assert FirstThrow(JSON, [], vs) == None;
    assert FirstThrow(JSON, ["note"], vs) == None;
  }

  /** A call that reports a system error and yet leaves the field changed. */
  lemma ErrorButSaved()
    ensures WellBehaved(SERVICE)
    ensures var (store', reply) := Invoke(SERVICE, map[], Call("odd", None));
            && reply == SystemError
            && Loaded(SERVICE, map[])["name"] == Str([])
            && Loaded(SERVICE, store')["name"] == Str([1])
  {
    ServiceIsWellBehaved();
    OddCall();
    var o := Outcome(DEFAULTS["name" := Str([1])], map[], Returns(Some(BigInt)));
    Serialisable(DEFAULTS);
    Serialisable(o.fields);
    OddSettles();
    hide WellBehaved, Loaded, LoadedValue, FirstThrow, SERVICE, Saved, Undeclared;
    ServiceFields(o.fields);
    WritesElsewhere(SERVICE, map[], o);
    LoadAfterSave(SERVICE, map[] + o.writes, o.fields);
  }

  const DEFAULTS: Fields<Value> := map["name" := Str([]), "note" := Str([])]

  lemma OddCall()
    ensures SERVICE.json == JSON && SERVICE.fields == ["name", "note"] && SERVICE.defaults == DEFAULTS
    ensures Loaded(SERVICE, map[]) == DEFAULTS
    ensures Route(SERVICE, Call("odd", None)) == Accepted(Method(false, RenameThenBigInt), None)
  {
    assert Loaded(SERVICE, map[]) == DEFAULTS;
  }

  lemma OddSettles()
    ensures Stringify(Str([1])) != Stringify(Str([]))
    ensures Parse(Stringify(Str([1])).bytes) == Some(Str([1]))
  {
    assert ([QUOTE] + [1])[1..] == [1];
  }

  /** Reading the fresh object's name answers with its text. */
  lemma GetAnswers()
    ensures WellBehaved(SERVICE)
    ensures Invoke(SERVICE, map[], Call("get", None)).1 == Okay(Some([QUOTE]))
  {
    ServiceIsWellBehaved();
    OddCall();
    Serialisable(DEFAULTS);
    NothingBad();
    assert "get" in SERVICE.methods && SERVICE.methods["get"] == Method(false, Get);
    hide WellBehaved, Loaded, LoadedValue, FirstThrow, Invoke, FirstBad;
    AnswerIs(SERVICE, map[], Call("get", None), None);
    assert [QUOTE] + [] == [QUOTE];
  }

  lemma NothingBad()
    ensures Declared(SERVICE, DEFAULTS)
    ensures forall i: nat :: !FirstBad(SERVICE, DEFAULTS, i)
  {
    ServiceFields(DEFAULTS);
    var fields := SERVICE.fields;
    assert fields == ["name", "note"];
    hide SERVICE;
  }
}
