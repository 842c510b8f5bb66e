/**
 The server's reload and rollback, each run from start to end: the objects they replace and mutate,
 against the step model of module Swap.
 */
module Server {
  import opened Text
  import opened Config
  import opened Versions
  import Swap
  import R = Router

  function Configs(log: seq<Version>): (cs: seq<Config>)
    ensures |cs| == |log| && forall i :: 0 <= i < |log| ==> cs[i] == log[i].config
  {
    seq(|log|, i requires 0 <= i < |log| => log[i].config)
  }

  class Server {
    var cfg: Config
    var router: R.Router
    const versionStore: Store
    const lib: Library

    ghost predicate Valid()
      reads this, router, versionStore, versionStore.versions
    {
      versionStore.Valid() && router.Serves(lib, cfg.rules)
    }

    /** The server as the step model sees it. */
    ghost function Core(): Swap.Core
      reads this, router, versionStore
    {
      Swap.Core(lib, cfg, router.View(), Configs(versionStore.log), versionStore.maxVersions)
    }

    /** New: keeps the ten newest configurations and records the first one. */
    constructor (lib: Library, cfg: Config, path: string, hash: string, now: int)
      ensures Valid() && fresh(versionStore) && fresh(versionStore.versions) && fresh(router)
      ensures Core() == Swap.Initial(lib, cfg, 10).core
      ensures this.cfg == cfg && |versionStore.log| == 1 && versionStore.log[0].config == cfg
      ensures versionStore.maxVersions == 10
    {
      var r := new R.Router(lib, cfg.rules);
      var store := new Store(10);
      var first := store.Add(cfg, path, hash, now);
      this.lib := lib;
      this.cfg := cfg;
      router := r;
      versionStore := store;
      new;
      assert Configs(versionStore.log) == [cfg];
    }

    /** ReloadConfig; `loaded` is what LoadDirectory returned, None being any failure to load or validate. */
    method ReloadConfig(loaded: Option<Config>, path: string, hash: string, now: int) returns (ok: bool)
      requires Valid()
      modifies this, versionStore, versionStore.versions
      ensures Valid() && ok == loaded.Some?
      ensures Core() == Swap.Alone(old(Core()), Swap.Reload(loaded))
      ensures !ok ==> cfg == old(cfg) && router == old(router) && versionStore.log == old(versionStore.log)
      ensures ok ==>
                && cfg == loaded.value && router.Serves(lib, loaded.value.rules)
                && |versionStore.log| == |old(versionStore.log)| + 1
                && versionStore.log[..|old(versionStore.log)|] == old(versionStore.log)
                && versionStore.log[|old(versionStore.log)|].config == loaded.value
    {
      hide R.Build;
      if loaded.None? {
        return false;
      }
      var r := new R.Router(lib, loaded.value.rules);
      cfg := loaded.value;
      router := r;
      assert Core() == Swap.Serve(old(Core()), loaded.value);
      var version := versionStore.Add(loaded.value, path, hash, now);
      assert Configs(versionStore.log) == old(Configs(versionStore.log)) + [loaded.value];
      return true;
    }

    /** handleRollback; `body` is the version in the request body, None if it cannot be decoded. */
    method HandleRollback(isPost: bool, body: Option<int>, now: int) returns (status: int)
      requires Valid()
      modifies this, versionStore, versionStore.versions
      ensures Valid()
      ensures status == (if !isPost then 405 else if body.None? || body.value < 1 then 400
                         else if |old(versionStore.log)| < body.value then 404
                         else if |old(versionStore.log)| - body.value >= versionStore.maxVersions then 404 else 200)
      ensures Core() == if status == 200 then Swap.Alone(old(Core()), Swap.Rollback(body.value)) else old(Core())
      ensures status != 200 ==> cfg == old(cfg) && router == old(router) && versionStore.log == old(versionStore.log)
      ensures status == 200 ==>
                && cfg == old(versionStore.log)[body.value - 1].config && router.Serves(lib, cfg.rules)
                && |versionStore.log| == |old(versionStore.log)| + 1
                && versionStore.log[..|old(versionStore.log)|] == old(versionStore.log)
                && versionStore.log[|old(versionStore.log)|].config == cfg
    {
      hide R.Build;
      if !isPost {
        return 405;
      }
      if body.None? {
        return 400;
      }
      if body.value < 1 {
        return 400;
      }
      var target := versionStore.Get(body.value);
      if target.None? {
        return 404;
      }
      var rolledBack := versionStore.Rollback(body.value, now);
      if rolledBack.None? {
        return 500;
      }
      assert Configs(versionStore.log) == old(Configs(versionStore.log)) + [rolledBack.value.config];
      assert Core() == Swap.Record(old(Core()), rolledBack.value.config);
      var r := new R.Router(lib, rolledBack.value.config.rules);
      cfg := rolledBack.value.config;
      router := r;
      return 200;
    }
  }
}
