/** The `header` commands of `src/action/header.rs`: read, set and remove the
    headers of the endpoint in use. */
module Header {
  import opened Wrappers
  import opened PairMaps
  import opened Endpoints

  datatype HeaderError = NoEndpoint(cause: StoreError) | NoSuchHeader(key: string)

  /** `header get`: the stored value; fails when the key is absent. */
  method Get(store: EndpointStore, key: string) returns (r: Result<string, HeaderError>)
    ensures store.RequireEndpoint().Err? ==> r == Err(NoEndpoint(store.RequireEndpoint().error))
    ensures store.RequireEndpoint().Ok? ==>
      (r.Ok? <==> key in store.RequireEndpoint().value.headers)
    ensures r.Ok? ==> r.value == store.RequireEndpoint().value.headers[key]
    ensures r.Err? && store.RequireEndpoint().Ok? ==> r == Err(NoSuchHeader(key))
  {
    var found := store.RequireEndpoint();
    if found.Err? {
      return Err(NoEndpoint(found.error));
    }
    var endpoint := found.value;
    if key in endpoint.headers {
      r := Ok(endpoint.headers[key]);
    } else {
      r := Err(NoSuchHeader(key));
    }
  }

  /** `header set`: each input is set in order, so a later input for the
      same key wins; the endpoint is written once, after the loop. */
  method Set(store: EndpointStore, inputs: seq<Pair>) returns (r: Result<(), HeaderError>)
    modifies store
    ensures old(store.RequireEndpoint()).Err? ==>
      r == Err(NoEndpoint(old(store.RequireEndpoint()).error))
      && store.saved == old(store.saved) && store.dirs == old(store.dirs) && store.persisted == old(store.persisted)
    ensures old(store.RequireEndpoint()).Ok? ==>
      var e := old(store.RequireEndpoint()).value;
      var e' := e.(headers := SetAll(e.headers, inputs));
      r.Ok? && store.saved == old(store.saved)[Dir(e') := e'] && store.persisted == old(store.persisted) + [e']
      && store.dirs == old(store.dirs) + {Dir(e')}
    ensures store.current == old(store.current)
  {
    var found := store.RequireEndpoint();
    if found.Err? {
      return Err(NoEndpoint(found.error));
    }
    var endpoint := found.value;
    var i := 0;
    while i < |inputs|
      invariant i <= |inputs|
      invariant endpoint == found.value.(headers := SetAll(found.value.headers, inputs[..i]))
    {
      assert inputs[..i + 1][..i] == inputs[..i];
      endpoint := endpoint.(headers := endpoint.headers[inputs[i].key := inputs[i].value]);
      i := i + 1;
    }
    assert inputs[..i] == inputs;
    store.Save(endpoint);
    r := Ok(());
  }

  /** `header rm`: removes every listed key, silently skipping absent ones;
      the endpoint is written once, after the loop. */
  method Rm(store: EndpointStore, keys: seq<string>) returns (r: Result<(), HeaderError>)
    modifies store
    ensures old(store.RequireEndpoint()).Err? ==>
      r == Err(NoEndpoint(old(store.RequireEndpoint()).error))
      && store.saved == old(store.saved) && store.dirs == old(store.dirs) && store.persisted == old(store.persisted)
    ensures old(store.RequireEndpoint()).Ok? ==>
      var e := old(store.RequireEndpoint()).value;
      var e' := e.(headers := e.headers - KeySet(keys));
      r.Ok? && store.saved == old(store.saved)[Dir(e') := e'] && store.persisted == old(store.persisted) + [e']
      && store.dirs == old(store.dirs) + {Dir(e')}
    ensures store.current == old(store.current)
  {
    var found := store.RequireEndpoint();
    if found.Err? {
      return Err(NoEndpoint(found.error));
    }
    var endpoint := found.value;
    var i := 0;
    while i < |keys|
      invariant i <= |keys|
      invariant endpoint == found.value.(headers := found.value.headers - KeySet(keys[..i]))
    {
      assert KeySet(keys[..i + 1]) == KeySet(keys[..i]) + {keys[i]} by {
        assert keys[..i + 1] == keys[..i] + [keys[i]];
      }
      endpoint := endpoint.(headers := endpoint.headers - {keys[i]});
      i := i + 1;
    }
    assert keys[..i] == keys;
    store.Save(endpoint);
    r := Ok(());
  }
}
