/** The `env` commands of `src/action/env.rs`: named environments (variables
    and headers) and the state field that names the one in use. */
module Environments {
  import opened Wrappers
  import opened PairMaps

  /** An environment's variables and headers. Its cookie jar is used only by
      `send` and is modelled there. */
  datatype Env = Env(variables: StrMap, headers: StrMap)

  /** `Env::new`: an environment with nothing in it. */
  function EmptyEnv(): Env {
    Env(map[], map[])
  }

  /** The name used when the state field is unset. */
  const DefaultEnvName: string := "default"

  datatype EnvError = AlreadyExists(name: string) | NotFound(name: string) | NoSuchHeader(key: string)

  /** One line of `env ls`: the name, and whether it carries the `*` mark. */
  datatype ListLine = ListLine(current: bool, name: string)

  /** The environments on disk by name, the `Env` state field, and the exit
      code the command sets. `persisted` records each environment write. */
  class EnvStore {
    var envs: map<string, Env>
    var state: Option<string>
    var failed: bool
    ghost var persisted: seq<(string, Env)>

    constructor (envs: map<string, Env>, state: Option<string>)
      ensures this.envs == envs && this.state == state && !failed && persisted == []
    {
      this.envs := envs;
      this.state := state;
      failed := false;
      persisted := [];
    }

    /** The environment in use: the state field, or `default` when unset. */
    function CurrentName(): (r: string)
      reads this
      ensures state.Some? ==> r == state.value
      ensures state.None? ==> r == DefaultEnvName
    {
      state.GetOr(DefaultEnvName)
    }

    /** The environment in use, read from disk (`require_env`). */
    function RequireEnv(): (r: Result<Env, EnvError>)
      reads this
      ensures r.Ok? <==> CurrentName() in envs
      ensures r.Ok? ==> r.value == envs[CurrentName()]
    {
      if CurrentName() in envs then Ok(envs[CurrentName()]) else Err(NotFound(CurrentName()))
    }

    method Persist(name: string, env: Env)
      modifies this
      ensures envs == old(envs)[name := env] && state == old(state) && failed == old(failed)
      ensures persisted == old(persisted) + [(name, env)]
    {
      envs := envs[name := env];
      persisted := persisted + [(name, env)];
    }

    /** `env create`: fails when the environment already exists. */
    method Create(name: string) returns (r: Result<(), EnvError>)
      modifies this
      ensures r.Err? <==> name in old(envs)
      ensures r.Err? ==> r == Err(AlreadyExists(name)) && envs == old(envs) && persisted == old(persisted)
      ensures r.Ok? ==> envs == old(envs)[name := EmptyEnv()] && persisted == old(persisted) + [(name, EmptyEnv())]
      ensures state == old(state) && failed == old(failed)
    {
      if name in envs {
        return Err(AlreadyExists(name));
      }
      Persist(name, EmptyEnv());
      r := Ok(());
    }

    /** `env cp`: copies every variable of `src` into `dest` (created empty
        when missing). Copied keys take the source value; keys only `dest`
        has keep theirs; `dest`'s headers are untouched. A missing source
        fails and changes nothing. */
    method Cp(src: string, dest: string) returns (r: Result<(), EnvError>)
      modifies this
      ensures r.Err? <==> src !in old(envs)
      ensures r.Err? ==> r == Err(NotFound(src)) && envs == old(envs) && persisted == old(persisted)
      ensures r.Ok? ==>
        var before := if dest in old(envs) then old(envs)[dest] else EmptyEnv();
        var after := Env(before.variables + old(envs)[src].variables, before.headers);
        envs == old(envs)[dest := after] && persisted == old(persisted) + [(dest, after)]
      ensures r.Ok? ==> dest in envs && forall k :: k in old(envs)[src].variables ==>
        k in envs[dest].variables && envs[dest].variables[k] == old(envs)[src].variables[k]
      ensures r.Ok? && dest in old(envs) ==> forall k :: k in old(envs)[dest].variables && k !in old(envs)[src].variables ==>
        k in envs[dest].variables && envs[dest].variables[k] == old(envs)[dest].variables[k]
      ensures r.Ok? && dest !in old(envs) ==> envs[dest].variables == old(envs)[src].variables
      ensures state == old(state) && failed == old(failed)
    {
      if src !in envs {
        return Err(NotFound(src));
      }
      var source := envs[src];
      var before := if dest in envs then envs[dest] else EmptyEnv();
      var target := before;
      var todo := source.variables.Keys;
      while todo != {}
        invariant todo <= source.variables.Keys
        invariant target.headers == before.headers
        invariant target.variables.Keys == before.variables.Keys + (source.variables.Keys - todo)
        invariant forall k :: k in source.variables && k !in todo ==> target.variables[k] == source.variables[k]
        invariant forall k :: k in before.variables && (k !in source.variables || k in todo) ==>
          target.variables[k] == before.variables[k]
        decreases todo
      {
        var k :| k in todo;
        target := target.(variables := target.variables[k := source.variables[k]]);
        todo := todo - {k};
      }
      assert target.variables == before.variables + source.variables;
      Persist(dest, target);
      r := Ok(());
    }

    /** `env use`: a missing environment is created when the user confirms;
        when the user declines, the exit code is set to failure and the
        state is left alone. Otherwise the state field names `name`. */
    method Switch(name: string, confirm: bool) returns (r: Result<(), EnvError>)
      modifies this
      ensures r.Ok?
      ensures name in old(envs) || confirm ==> state == Some(name) && CurrentName() == name && failed == old(failed)
      ensures name !in old(envs) && !confirm ==> state == old(state) && failed && envs == old(envs)
      ensures name !in old(envs) && confirm ==> envs == old(envs)[name := EmptyEnv()]
      ensures name in old(envs) ==> envs == old(envs)
      ensures name in old(envs) || !confirm ==> persisted == old(persisted)
      ensures name !in old(envs) && confirm ==> persisted == old(persisted) + [(name, EmptyEnv())]
    {
      if name !in envs {
        if confirm {
          var created := Create(name);
        } else {
          failed := true;
          return Ok(());
        }
      }
      state := Some(name);
      r := Ok(());
    }

    /** `env ls`: one line per directory entry, in listing order, marking
        exactly the entry equal to the environment in use. A directory that
        cannot be read lists nothing. */
    method Ls(listing: Option<seq<string>>) returns (lines: seq<ListLine>)
      ensures listing.None? ==> lines == []
      ensures listing.Some? ==> |lines| == |listing.value|
      ensures listing.Some? ==> forall i :: 0 <= i < |lines| ==>
        lines[i].name == listing.value[i] && (lines[i].current <==> listing.value[i] == CurrentName())
    {
      lines := [];
      if listing.Some? {
        var names := listing.value;
        var i := 0;
        while i < |names|
          invariant i <= |names| && |lines| == i
          invariant forall j :: 0 <= j < i ==>
            lines[j].name == names[j] && (lines[j].current <==> names[j] == CurrentName())
        {
          var current := state.GetOr(DefaultEnvName);
          lines := lines + [ListLine(current == names[i], names[i])];
          i := i + 1;
        }
      }
    }

    /** `env rm`: fails when the environment does not exist; otherwise it
        is removed. */
    method Rm(name: string) returns (r: Result<(), EnvError>)
      modifies this
      ensures r.Err? <==> name !in old(envs)
      ensures r.Err? ==> r == Err(NotFound(name)) && envs == old(envs)
      ensures r.Ok? ==> envs == old(envs) - {name}
      ensures state == old(state) && failed == old(failed) && persisted == old(persisted)
    {
      if name !in envs {
        return Err(NotFound(name));
      }
      envs := envs - {name};
      r := Ok(());
    }

    /** `env header set`: each input set in order on the environment in use,
        which is then written once. */
    method HeaderSet(inputs: seq<Pair>) returns (r: Result<(), EnvError>)
      modifies this
      ensures r.Err? <==> old(RequireEnv()).Err?
      ensures r.Err? ==> envs == old(envs) && persisted == old(persisted)
      ensures r.Ok? ==>
        var env' := old(RequireEnv()).value.(headers := SetAll(old(RequireEnv()).value.headers, inputs));
        envs == old(envs)[CurrentName() := env'] && persisted == old(persisted) + [(CurrentName(), env')]
      ensures state == old(state) && failed == old(failed)
    {
      var found := RequireEnv();
      if found.Err? {
        return Err(found.error);
      }
      var env := found.value;
      var i := 0;
      while i < |inputs|
        invariant i <= |inputs|
        invariant env == found.value.(headers := SetAll(found.value.headers, inputs[..i]))
      {
        assert inputs[..i + 1][..i] == inputs[..i];
        env := env.(headers := env.headers[inputs[i].key := inputs[i].value]);
        i := i + 1;
      }
      assert inputs[..i] == inputs;
      Persist(CurrentName(), env);
      r := Ok(());
    }

    /** `env header rm`: for each key, re-reads the environment in use,
        removes the key and writes it back, so there is one write per key.
        With no key given nothing is read, so nothing can fail. */
    method HeaderRm(keys: seq<string>) returns (r: Result<(), EnvError>)
      modifies this
      ensures r.Err? <==> keys != [] && old(RequireEnv()).Err?
      ensures r.Err? ==> envs == old(envs) && persisted == old(persisted)
      ensures r.Ok? && keys != [] ==>
        var env' := old(RequireEnv()).value.(headers := old(RequireEnv()).value.headers - KeySet(keys));
        envs == old(envs)[CurrentName() := env'] && |persisted| == |old(persisted)| + |keys|
      ensures keys == [] ==> envs == old(envs) && persisted == old(persisted)
      ensures state == old(state) && failed == old(failed)
    {
      var i := 0;
      while i < |keys|
        invariant i <= |keys|
        invariant state == old(state) && failed == old(failed)
        invariant i == 0 ==> envs == old(envs) && persisted == old(persisted)
        invariant i > 0 ==> old(RequireEnv()).Ok? && |persisted| == |old(persisted)| + i
        invariant i > 0 ==> envs == old(envs)[CurrentName() :=
          old(RequireEnv()).value.(headers := old(RequireEnv()).value.headers - KeySet(keys[..i]))]
      {
        var found := RequireEnv();
        if found.Err? {
          return Err(found.error);
        }
        assert KeySet(keys[..i + 1]) == KeySet(keys[..i]) + {keys[i]} by {
          assert keys[..i + 1] == keys[..i] + [keys[i]];
        }
        ghost var base := old(RequireEnv()).value;
        assert keys[..0] == [] && KeySet([]) == {};
        assert found.value == base.(headers := base.headers - KeySet(keys[..i]));
        var env := found.value;
        env := env.(headers := env.headers - {keys[i]});
        assert env.headers == base.headers - KeySet(keys[..i + 1]);
        Persist(CurrentName(), env);
        i := i + 1;
      }
      assert keys[..i] == keys;
      r := Ok(());
    }

    /** `env header get`: the value in the environment in use; fails when
        the key is absent. */
    method HeaderGet(key: string) returns (r: Result<string, EnvError>)
      ensures RequireEnv().Err? ==> r == Err(RequireEnv().error)
      ensures RequireEnv().Ok? ==> (r.Ok? <==> key in RequireEnv().value.headers)
      ensures r.Ok? ==> r.value == RequireEnv().value.headers[key]
      ensures RequireEnv().Ok? && r.Err? ==> r == Err(NoSuchHeader(key))
    {
      var found := RequireEnv();
      if found.Err? {
        return Err(found.error);
      }
      if key in found.value.headers {
        r := Ok(found.value.headers[key]);
      } else {
        r := Err(NoSuchHeader(key));
      }
    }
  }
}
