/**
 The environment an agent process starts with, and the secrets taken out of the process environment
 before any child is spawned.
 */
module AgentEnv {
  import opened Collections

  type Env = map<string, string>

  function Lookup(env: Env, name: string): Option<string> {
    if name in env then Some(env[name]) else None
  }

  /** What one name resolves to: the override, else the stashed value if the agent lists it, else
      nothing if stashed, else the launch value, else the workspace value. */
  function Resolved(workspace: Env, launch: Env, passEnv: seq<string>, secrets: Env, overrides: Env,
                    name: string): Option<string> {
    if name in overrides then Some(overrides[name])
    else if name in secrets then (if name in passEnv then Some(secrets[name]) else None)
    else if name in launch then Some(launch[name])
    else Lookup(workspace, name)
  }

  lemma ResolvedMeaning(workspace: Env, launch: Env, passEnv: seq<string>, secrets: Env, overrides: Env, env: Env)
    requires forall name :: Lookup(env, name) == Resolved(workspace, launch, passEnv, secrets, overrides, name)
    ensures forall name :: name in overrides ==> name in env && env[name] == overrides[name]
    ensures forall name :: name !in overrides && name in secrets && name in passEnv ==>
              name in env && env[name] == secrets[name]
    ensures forall name :: name !in overrides && name in secrets && name !in passEnv ==> name !in env
    ensures forall name :: name !in overrides && name !in secrets && name in launch ==>
              name in env && env[name] == launch[name]
    ensures forall name :: name !in overrides && name !in secrets && name !in launch ==>
              (name in env <==> name in workspace) && (name in env ==> env[name] == workspace[name])
  {
    forall name
      ensures name in env <==> Lookup(env, name).Some?
    {
    }
  }

  // ------------------------------------------------------------ the code

  /** Inserts every pair of `extra`, in whatever order the map yields them. */
  method InsertAll(base: Env, extra: Env) returns (env: Env)
    ensures forall name :: Lookup(env, name) == if name in extra then Some(extra[name]) else Lookup(base, name)
  {
    env := base;
    var left := extra.Keys;
    while left != {}
      invariant left <= extra.Keys
      invariant forall name ::
                  Lookup(env, name) == if name in extra && name !in left then Some(extra[name]) else Lookup(base, name)
      decreases left
    {
      var name :| name in left;
      env := env[name := extra[name]];
      left := left - {name};
    }
  }

  method MergeLaunchEnv(workspace: Env, launch: Env) returns (env: Env)
    ensures forall name :: Lookup(env, name) == if name in launch then Some(launch[name]) else Lookup(workspace, name)
  {
    env := InsertAll(workspace, launch);
  }

  method ApplyPassEnvFrom(base: Env, passEnv: seq<string>, source: Env) returns (env: Env)
    ensures forall name ::
              Lookup(env, name) == if name in passEnv && name in source then Some(source[name]) else Lookup(base, name)
  {
    env := base;
    for i := 0 to |passEnv|
      invariant forall name ::
                  Lookup(env, name) ==
                    if name in passEnv[..i] && name in source then Some(source[name]) else Lookup(base, name)
    {
      assert passEnv[..i + 1] == passEnv[..i] + [passEnv[i]];
      if passEnv[i] in source {
        env := env[passEnv[i] := source[passEnv[i]]];
      }
    }
    assert passEnv[..|passEnv|] == passEnv;
  }

  /** The pipeline: merge, scrub every stashed name, inject the listed ones, apply the overrides. */
  method ResolveAgentEnvWithOverrides(workspace: Env, launch: Env, passEnv: seq<string>, secrets: Env, overrides: Env)
    returns (env: Env)
    ensures forall name :: Lookup(env, name) == Resolved(workspace, launch, passEnv, secrets, overrides, name)
    ensures forall name :: name in overrides ==> name in env && env[name] == overrides[name]
    ensures forall name :: name !in overrides && name in secrets && name in passEnv ==>
              name in env && env[name] == secrets[name]
    ensures forall name :: name !in overrides && name in secrets && name !in passEnv ==> name !in env
    ensures forall name :: name !in overrides && name !in secrets && name in launch ==>
              name in env && env[name] == launch[name]
    ensures forall name :: name !in overrides && name !in secrets && name !in launch ==>
              (name in env <==> name in workspace) && (name in env ==> env[name] == workspace[name])
  {
    var merged := MergeLaunchEnv(workspace, launch);
    var scrubbed := map name | name in merged && name !in secrets :: merged[name];
    var withPass := ApplyPassEnvFrom(scrubbed, passEnv, secrets);
    env := InsertAll(withPass, overrides);
    forall name
      ensures Lookup(env, name) == Resolved(workspace, launch, passEnv, secrets, overrides, name)
    {
      assert Lookup(scrubbed, name) == if name in secrets then None else Lookup(merged, name);
    }
    ResolvedMeaning(workspace, launch, passEnv, secrets, overrides, env);
  }

  /** Moves the named variables out of the process environment; `trim` is the library's. */
  method TakeSecretEnv(process: Env, names: seq<string>, trim: string -> string) returns (rest: Env, secrets: Env)
    ensures forall name :: name in secrets <==>
              name in process && name != "" && exists i :: 0 <= i < |names| && trim(names[i]) == name
    ensures rest.Keys !! secrets.Keys && rest + secrets == process
  {
    rest, secrets := process, map[];
    for i := 0 to |names|
      invariant forall name :: name in secrets <==>
                  name in process && name != "" && exists j :: 0 <= j < i && trim(names[j]) == name
      invariant forall name :: name in rest <==> name in process && name !in secrets
      invariant (forall name :: name in rest ==> rest[name] == process[name])
                && (forall name :: name in secrets ==> secrets[name] == process[name])
    {
      var name := trim(names[i]);
      if name != "" && name in rest {
        secrets := secrets[name := rest[name]];
        rest := rest - {name};
      }
    }
  }

  /** Startup's stash followed by one agent's resolution: a stashed name the agent neither lists nor
      overrides is absent, whatever workspace and launch hold. */
  method StashThenResolve(process: Env, names: seq<string>, trim: string -> string, launch: Env, passEnv: seq<string>,
                          overrides: Env)
    returns (env: Env)
    ensures forall name :: name in process && name != "" && (exists i :: 0 <= i < |names| && trim(names[i]) == name)
                           && name !in overrides ==>
              Lookup(env, name) == if name in passEnv then Some(process[name]) else None
  {
    var rest, secrets := TakeSecretEnv(process, names, trim);
    env := ResolveAgentEnvWithOverrides(rest, launch, passEnv, secrets, overrides);
  }

  // ------------------------------------------------------------ non-interference

  ghost predicate AgreeOn(a: Env, b: Env, names: set<string>) {
    forall name :: name in names ==> Lookup(a, name) == Lookup(b, name)
  }

  ghost predicate AgreeOff(a: Env, b: Env, names: set<string>) {
    forall name :: name !in names ==> Lookup(a, name) == Lookup(b, name)
  }

  /** No workspace or launch value of a stashed name, and no stashed value the agent does not list, can
      be told from the result. */
  lemma SecretsDoNotLeak(workspace: Env, workspace': Env, launch: Env, launch': Env, passEnv: seq<string>,
                         secrets: Env, secrets': Env, overrides: Env, name: string)
    requires secrets.Keys == secrets'.Keys
    requires AgreeOff(workspace, workspace', secrets.Keys) && AgreeOff(launch, launch', secrets.Keys)
    requires AgreeOn(secrets, secrets', set n | n in passEnv)
    ensures Resolved(workspace, launch, passEnv, secrets, overrides, name)
            == Resolved(workspace', launch', passEnv, secrets', overrides, name)
  {
    var listed := set n | n in passEnv;
    assert name in secrets.Keys <==> name in secrets'.Keys;
    if name in passEnv {
      assert name in listed && Lookup(secrets, name) == Lookup(secrets', name);
    }
    if name !in secrets.Keys {
      assert Lookup(launch, name) == Lookup(launch', name) && Lookup(workspace, name) == Lookup(workspace', name);
    }
  }

  /** A stashed value reaches the process exactly when its name is listed and not overridden. */
  lemma SecretReachesExactly(workspace: Env, launch: Env, passEnv: seq<string>, secrets: Env, overrides: Env,
                             name: string, other: string)
    requires name in secrets && secrets[name] != other && name !in overrides
    ensures name in passEnv <==>
              Resolved(workspace, launch, passEnv, secrets, overrides, name)
              != Resolved(workspace, launch, passEnv, secrets[name := other], overrides, name)
  {
  }
}
