/** The shim's own loops over the host proxy, proved against the invocation function. */
module SdkDispatch {
  import opened Bytes
  import opened SdkState

  type FieldEntry = (string, Bytes)

  function PutAll(store: Entries, es: seq<FieldEntry>): (r: Entries) {
    if es == [] then store else PutAll(store, es[..|es| - 1])[es[|es| - 1].0 := es[|es| - 1].1]
  }

  predicate Has(es: seq<FieldEntry>, k: string) {
    exists i :: 0 <= i < |es| && es[i].0 == k
  }

  /** Entries that agree with a map overlay that map on the keys they mention. */
  lemma {:induction false} PutAllOverlays(store: Entries, es: seq<FieldEntry>, m: Entries)
    requires forall i | 0 <= i < |es| :: es[i].0 in m && m[es[i].0] == es[i].1
    ensures PutAll(store, es) == store + map k | k in m && Has(es, k) :: m[k]
  {
    if es == [] {
      assert (map k | k in m && Has(es, k) :: m[k]) == map[];
    } else {
      var n := |es| - 1;
      PutAllOverlays(store, es[..n], m);
      forall k ensures Has(es, k) <==> Has(es[..n], k) || k == es[n].0 {
        if Has(es[..n], k) {
          var i :| 0 <= i < n && es[..n][i].0 == k;
          assert es[i].0 == k;
        }
      }
    }
  }

  class HostObjectProxy {
    var entries: Entries

    /** The entries that exist, in the order asked for. */
    method GetMany(keys: seq<string>) returns (r: seq<FieldEntry>)
      ensures forall i | 0 <= i < |r| :: r[i].0 in entries && r[i].1 == entries[r[i].0]
      ensures forall k :: Has(r, k) <==> k in keys && k in entries
    {
      r := [];
      for i := 0 to |keys|
        invariant forall j | 0 <= j < |r| :: r[j].0 in entries && r[j].1 == entries[r[j].0]
        invariant forall k :: Has(r, k) <==> k in keys[..i] && k in entries
      {
        if keys[i] in entries {
          HasNext(r, (keys[i], entries[keys[i]]));
          r := r + [(keys[i], entries[keys[i]])];
        }
        assert keys[..i + 1] == keys[..i] + [keys[i]];
      }
      assert keys[..|keys|] == keys;
    }

    method SetMany(es: seq<FieldEntry>)
      modifies this
      ensures entries == PutAll(old(entries), es)
    {
      for i := 0 to |es|
        invariant entries == PutAll(old(entries), es[..i])
      {
        entries := entries[es[i].0 := es[i].1];
        assert es[..i + 1][..i] == es[..i];
      }
      assert es[..|es|] == es;
    }
  }

  lemma HasNext(es: seq<FieldEntry>, e: FieldEntry)
    ensures forall k :: Has(es + [e], k) <==> Has(es, k) || k == e.0
  {
    forall k ensures Has(es + [e], k) <==> Has(es, k) || k == e.0 {
      if Has(es, k) {
        var i :| 0 <= i < |es| && es[i].0 == k;
        assert (es + [e])[i].0 == k;
      }
      assert (es + [e])[|es|] == e;
    }
  }

  /** The entries as a map from key to value. */
  method EntryMap(es: seq<FieldEntry>) returns (m: Entries)
    ensures m == PutAll(map[], es)
  {
    m := map[];
    for i := 0 to |es|
      invariant m == PutAll(map[], es[..i])
    {
      m := m[es[i].0 := es[i].1];
      assert es[..i + 1][..i] == es[..i];
    }
    assert es[..|es|] == es;
  }

  /** What was fetched determines what is loaded. */
  ghost predicate Sees<V>(s: Service<V>, fetched: Entries, loaded: Fields<V>) {
    && Declared(s, s.defaults)
    && Declared(s, loaded)
    && forall f | f in s.fields :: loaded[f] == LoadedValue(s.json, fetched, f, s.defaults[f])
  }

  /** The loop of the load: assign each field, and remember its text. */
  method Fill<V>(s: Service<V>, fetched: Entries, ghost loaded: Fields<V>)
    returns (instance: Fields<V>, snapshot: map<string, Text>, failed: Option<bool>)
    requires Sees(s, fetched, loaded)
    ensures failed == FirstThrow(s.json, s.fields, loaded)
    ensures failed.None? ==> instance == loaded
    ensures failed.None? ==> snapshot == Texts(s, loaded)
  {
    instance, snapshot, failed := s.defaults, map[], None;
    var rest := s.fields;
    while rest != []
      invariant forall f | f in rest :: f in s.fields
      invariant forall f | f in s.fields :: f in snapshot || f in rest
      invariant forall f | f in snapshot :: f in s.fields && snapshot[f] == s.json.stringify(loaded[f])
      invariant Declared(s, instance)
      invariant forall f | f in s.fields :: instance[f] == if f in snapshot then loaded[f] else s.defaults[f]
      invariant FirstThrow(s.json, s.fields, loaded) == FirstThrow(s.json, rest, loaded)
    {
      var f := rest[0];
      if f in fetched {
        var v := s.json.parse(fetched[f]);
        if v.Some? {
          instance := instance[f := v.value];
        }
      }
      assert instance[f] == loaded[f];
      var t := s.json.stringify(instance[f]);
      if t.Throws? {
        failed := Some(t.isApp);
        return;
      }
      snapshot := snapshot[f := t];
      rest := rest[1..];
    }
  }

  function Texts<V>(s: Service<V>, vs: Fields<V>): (r: map<string, Text>) {
    map f | f in vs :: s.json.stringify(vs[f])
  }

  /** Fill a fresh instance from the proxy; stops at the first field that cannot be
      serialised. */
  method LoadFields<V(!new)>(s: Service<V>, proxy: HostObjectProxy)
    returns (instance: Fields<V>, snapshot: map<string, Text>, failed: Option<bool>)
    requires WellBehaved(s)
    ensures failed == FirstThrow(s.json, s.fields, Loaded(s, proxy.entries))
    ensures failed.None? ==> instance == Loaded(s, proxy.entries)
    ensures failed.None? ==> forall f | f in s.fields ::
              && f in instance && f in s.defaults
              && instance[f] == if f in proxy.entries && s.json.parse(proxy.entries[f]).Some?
                                then s.json.parse(proxy.entries[f]).value else s.defaults[f]
    ensures failed.None? ==> snapshot == Texts(s, Loaded(s, proxy.entries))
  {
    var es := proxy.GetMany(s.fields);
    var fetched := EntryMap(es);
    PutAllOverlays(map[], es, proxy.entries);
    instance, snapshot, failed := Fill(s, fetched, Loaded(s, proxy.entries));
  }

  /** The loop of the save: the fields whose text differs from the snapshot. */
  method Diff<V>(s: Service<V>, instance: Fields<V>, snapshot: map<string, Text>, ghost before: Fields<V>)
    returns (changed: seq<FieldEntry>, failed: Option<bool>)
    requires Declared(s, instance) && Declared(s, before)
    requires snapshot == Texts(s, before)
    ensures failed == FirstThrow(s.json, s.fields, instance)
    ensures forall i | 0 <= i < |changed| ::
              && changed[i].0 in s.fields
              && Changed(s.json, before, instance, changed[i].0)
              && changed[i].1 == Encoded(s.json.stringify(instance[changed[i].0]))
    ensures failed.None? ==> forall f | f in s.fields && Changed(s.json, before, instance, f) :: Has(changed, f)
  {
    changed, failed := [], None;
    var rest := s.fields;
    while rest != []
      invariant forall f | f in rest :: f in s.fields
      invariant forall i | 0 <= i < |changed| ::
                  && changed[i].0 in s.fields
                  && Changed(s.json, before, instance, changed[i].0)
                  && changed[i].1 == Encoded(s.json.stringify(instance[changed[i].0]))
      invariant forall f | f in s.fields && Changed(s.json, before, instance, f) :: Has(changed, f) || f in rest
      invariant FirstThrow(s.json, s.fields, instance) == FirstThrow(s.json, rest, instance)
    {
      var f := rest[0];
      var t := s.json.stringify(instance[f]);
      if t.Throws? {
        failed := Some(t.isApp);
        return;
      }
      if t != snapshot[f] {
        HasNext(changed, (f, Encoded(t)));
        changed := changed + [(f, Encoded(t))];
      }
      rest := rest[1..];
    }
  }

  /** Write the fields whose text differs from the snapshot; if one cannot be serialised
      nothing is written. */
  method SaveChangedFields<V>(s: Service<V>, instance: Fields<V>, proxy: HostObjectProxy,
                              snapshot: map<string, Text>, ghost before: Fields<V>)
    returns (failed: Option<bool>)
    requires Declared(s, instance) && Declared(s, before)
    requires snapshot == Texts(s, before)
    modifies proxy
    ensures failed == FirstThrow(s.json, s.fields, instance)
    ensures proxy.entries == if failed.None? then Saved(s.json, old(proxy.entries), s.fields, before, instance)
                             else old(proxy.entries)
  {
    var changed: seq<FieldEntry>;
    changed, failed := Diff(s, instance, snapshot, before);
    if failed.Some? {
      return;
    }
    ghost var diff := map f | f in s.fields && Changed(s.json, before, instance, f) :: Encoded(s.json.stringify(instance[f]));
    PutAllOverlays(proxy.entries, changed, diff);
    assert (map k | k in diff && Has(changed, k) :: diff[k]) == diff;
    if |changed| > 0 {
      proxy.SetMany(changed);
    }
  }

  /** The whole dispatch, from request to response. */
  method HandleInvoke<V(!new)>(s: Service<V>, proxy: HostObjectProxy, call: Call) returns (r: Response)
    requires WellBehaved(s)
    modifies proxy
    ensures (proxy.entries, r) == Invoke(s, old(proxy.entries), call)
  {
    if call.name !in s.methods {
      return InvalidRequest;
    }
    var m := s.methods[call.name];
    var arg: Option<V> := None;
    if call.payload.Some? && |call.payload.value| > 0 {
      arg := s.json.parse(call.payload.value);
      if arg.None? {
        return InvalidRequest;
      }
    }
    var instance, snapshot, failed := s.defaults, map[], None;
    if !m.stateless {
      instance, snapshot, failed := LoadFields(s, proxy);
      if failed.Some? {
        return Failure(failed.value);
      }
    }
    ghost var before := instance;
    var o := m.body(instance, Undeclared(s, proxy.entries), arg);
    assert Tidy(s, o);
    proxy.entries := proxy.entries + o.writes;
    if o.result.Fails? {
      return Failure(o.result.isApp);
    }
    if !m.stateless {
      failed := SaveChangedFields(s, o.fields, proxy, snapshot, before);
      if failed.Some? {
        return Failure(failed.value);
      }
    }
    return Reply(s.json, o.result.value);
  }
}
