/** The `query` commands of `src/action/query.rs`: read, set and remove the
    query parameters of the endpoint in use. */
module Query {
  import opened Wrappers
  import opened PairMaps
  import opened Endpoints

  datatype QueryError = NoEndpoint(cause: StoreError) | NoSuchParam(key: string)

  /** `QuartzExitCode`, the status `rm` exits with. */
  datatype ExitCode = Success | Error

  /** `query get`: fails when the key is absent. */
  method Get(store: EndpointStore, key: string) returns (r: Result<string, QueryError>)
    ensures store.RequireEndpoint().Err? ==> r == Err(NoEndpoint(store.RequireEndpoint().error))
    ensures store.RequireEndpoint().Ok? ==>
      (r.Ok? <==> key in store.RequireEndpoint().value.query)
    ensures r.Ok? ==> r.value == store.RequireEndpoint().value.query[key]
    ensures r.Err? && store.RequireEndpoint().Ok? ==> r == Err(NoSuchParam(key))
  {
    var found := store.RequireEndpoint();
    if found.Err? {
      return Err(NoEndpoint(found.error));
    }
    var endpoint := found.value;
    if key in endpoint.query {
      r := Ok(endpoint.query[key]);
    } else {
      r := Err(NoSuchParam(key));
    }
  }

  /** `query set`: each input is set in order, then the endpoint is written
      once. */
  method Set(store: EndpointStore, inputs: seq<Pair>) returns (r: Result<(), QueryError>)
    modifies store
    ensures old(store.RequireEndpoint()).Err? ==>
      r == Err(NoEndpoint(old(store.RequireEndpoint()).error))
      && store.saved == old(store.saved) && store.dirs == old(store.dirs) && store.persisted == old(store.persisted)
    ensures old(store.RequireEndpoint()).Ok? ==>
      var e := old(store.RequireEndpoint()).value;
      var e' := e.(query := SetAll(e.query, inputs));
      r.Ok? && store.saved == old(store.saved)[Dir(e') := e'] && store.persisted == old(store.persisted) + [e']
      && store.dirs == old(store.dirs) + {Dir(e')}
    ensures store.current == old(store.current)
  {
    var found := store.RequireEndpoint();
    if found.Err? {
      return Err(NoEndpoint(found.error));
    }
    var endpoint := found.value;
    var i := 0;
    while i < |inputs|
      invariant i <= |inputs|
      invariant endpoint == found.value.(query := SetAll(found.value.query, inputs[..i]))
    {
      assert inputs[..i + 1][..i] == inputs[..i];
      endpoint := endpoint.(query := endpoint.query[inputs[i].key := inputs[i].value]);
      i := i + 1;
    }
    assert inputs[..i] == inputs;
    store.Save(endpoint);
    r := Ok(());
  }

  /** The query map `rm` has left once it has handled the first `j` keys. */
  function RemovedPrefix(query: StrMap, keys: seq<string>, j: nat): StrMap
    requires j <= |keys|
  {
    query - KeySet(keys[..j])
  }

  /** Key `j` is reported missing when it is not in the map at its turn:
      absent from the start, or already removed by an earlier duplicate. */
  predicate MissingAtTurn(query: StrMap, keys: seq<string>, j: nat)
    requires j < |keys|
  {
    keys[j] !in RemovedPrefix(query, keys, j)
  }

  /** The exit code `rm` ends with. */
  function RmCode(query: StrMap, keys: seq<string>): ExitCode {
    if exists j :: 0 <= j < |keys| && MissingAtTurn(query, keys, j) then Error else Success
  }

  /** `query rm`: removes every listed key that is present, reports each
      missing one, writes the endpoint whatever happened, and exits with the
      error code when at least one key was missing at its turn. */
  method Rm(store: EndpointStore, keys: seq<string>) returns (r: Result<ExitCode, QueryError>)
    modifies store
    ensures old(store.RequireEndpoint()).Err? ==>
      r == Err(NoEndpoint(old(store.RequireEndpoint()).error))
      && store.saved == old(store.saved) && store.dirs == old(store.dirs) && store.persisted == old(store.persisted)
    ensures old(store.RequireEndpoint()).Ok? ==>
      var e := old(store.RequireEndpoint()).value;
      var e' := e.(query := e.query - KeySet(keys));
      r == Ok(RmCode(e.query, keys))
      && store.saved == old(store.saved)[Dir(e') := e'] && store.persisted == old(store.persisted) + [e']
      && store.dirs == old(store.dirs) + {Dir(e')}
    ensures store.current == old(store.current)
  {
    var found := store.RequireEndpoint();
    if found.Err? {
      return Err(NoEndpoint(found.error));
    }
    var endpoint := found.value;
    var code := Success;
    var i := 0;
    while i < |keys|
      invariant i <= |keys|
      invariant endpoint == found.value.(query := RemovedPrefix(found.value.query, keys, i))
      invariant code == Error <==> exists j :: 0 <= j < i && MissingAtTurn(found.value.query, keys, j)
    {
      assert KeySet(keys[..i + 1]) == KeySet(keys[..i]) + {keys[i]} by {
        assert keys[..i + 1] == keys[..i] + [keys[i]];
      }
      assert MissingAtTurn(found.value.query, keys, i) <==> keys[i] !in endpoint.query;
      if keys[i] in endpoint.query {
        endpoint := endpoint.(query := endpoint.query - {keys[i]});
      } else {
        code := Error;
      }
      assert (exists j :: 0 <= j < i + 1 && MissingAtTurn(found.value.query, keys, j))
        <==> (exists j :: 0 <= j < i && MissingAtTurn(found.value.query, keys, j))
             || MissingAtTurn(found.value.query, keys, i);
      i := i + 1;
    }
    assert keys[..i] == keys;
    store.Save(endpoint);
    r := Ok(code);
  }

  /** With no key listed twice, `rm` fails exactly when some listed key was
      not a parameter to begin with. */
  lemma RmCodeDistinct(query: StrMap, keys: seq<string>)
    requires forall a, b :: 0 <= a < b < |keys| ==> keys[a] != keys[b]
    ensures RmCode(query, keys) == Error <==> exists k :: k in keys && k !in query
  {
    if exists k :: k in keys && k !in query {
      var k :| k in keys && k !in query;
      var j :| 0 <= j < |keys| && keys[j] == k;
      assert MissingAtTurn(query, keys, j);
    }
    if RmCode(query, keys) == Error {
      var j :| 0 <= j < |keys| && MissingAtTurn(query, keys, j);
      assert keys[j] !in keys[..j];
      assert keys[j] in keys;
    }
  }

  /** Listing a present key twice still makes `rm` exit with the error
      code: the second turn finds it already removed. */
  lemma RmDuplicateReportsError(query: StrMap, k: string)
    requires k in query
    ensures RmCode(query, [k, k]) == Error
    ensures query - KeySet([k, k]) == query - {k}
  {
    assert MissingAtTurn(query, [k, k], 1) by {
      assert [k, k][..1] == [k];
    }
  }
}
