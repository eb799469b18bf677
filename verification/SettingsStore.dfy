// The globals `options` and `configOverrides` of settings.cpp, and the functions that change them.
module SettingsStore {
  import opened Common
  import opened Json
  import opened SettingsTable
  import opened Settings
  import opened SettingsLookup
  import opened SettingsInit

  class Store {
    var options: Value
    var configOverrides: seq<Override>

    ghost predicate Valid()
      reads this
    {
      Placed(configOverrides)
    }

    constructor ()
      ensures Valid() && configOverrides == []
    {
      options := Object(map[]);
      configOverrides := [];
    }

    // setGlobalArgs, as far as overrides go. `devTools` says whether --neu-dev-extension is honoured.
    method SetGlobalArgs(args: seq<string>, devTools: bool)
      requires Valid()
      modifies this`configOverrides
      ensures Valid()
      ensures configOverrides == old(configOverrides) + AllOverrides(ConfigArgs(args, devTools))
    {
      hide OverridesOf, Placed, Consumed, ParseSpec;
      assert args[0..] == args;
      for i := 0 to |args|
        invariant Valid()
        invariant configOverrides + AllOverrides(ConfigArgs(args[i..], devTools))
               == old(configOverrides) + AllOverrides(ConfigArgs(args, devTools))
      {
        assert args[i..][0] == args[i] && args[i..][1..] == args[i + 1..];
        var cliArg := ParseArg(args[i]);
        ghost var later := ConfigArgs(args[i + 1..], devTools);
        if Consumed(cliArg.key, devTools) {
          assert ConfigArgs(args[i..], devTools) == [] + later == later;
          continue;
        }
        assert ConfigArgs(args[i..], devTools) == [cliArg] + later;
        assert ([cliArg] + later)[1..] == later;
        Assoc(configOverrides, OverridesOf(cliArg), AllOverrides(later));
        ApplyConfigOverride(cliArg);
      }
      assert configOverrides + [] == configOverrides;
    }

    method ApplyConfigOverride(arg: CliArg)
      requires Valid()
      modifies this`configOverrides
      ensures Valid()
      ensures configOverrides == old(configOverrides) + OverridesOf(arg)
    {
      hide CliMapping, Aliased;
      ArgPlaced(arg);
      var mapping := CliMapping(arg.key);
      if mapping.Some? {
        if arg.key == "--mode" {
          if arg.value !in MODES {
            return;
          }
        }
        var cfgOverride := Override(mapping.value.target, arg.value, mapping.value.convertTo);
        if cfgOverride.convertTo == AsBool && cfgOverride.value == "" {
          cfgOverride := cfgOverride.(value := "true");
        }
        configOverrides := configOverrides + [cfgOverride];
        if Aliased(cfgOverride.target) {
          ghost var first := configOverrides;
          for i := 0 to |MODES|
            invariant configOverrides + AliasOverrides(cfgOverride, MODES[i..])
                   == first + AliasOverrides(cfgOverride, MODES)
          {
            var alias := cfgOverride.(target := AliasIn(MODES[i], cfgOverride.target));
            assert MODES[i..][1..] == MODES[i + 1..];
            Assoc(configOverrides, [alias], AliasOverrides(cfgOverride, MODES[i + 1..]));
            configOverrides := configOverrides + [alias];
          }
          assert configOverrides == first + AliasOverrides(cfgOverride, MODES);
          Assoc(old(configOverrides), [cfgOverride], AliasOverrides(cfgOverride, MODES));
        }
      }
    }

    // init on a configuration that parses. When it throws (ok is false), `options` is left
    // half-prepared. `system` says whether the data location is the system's.
    method Init(config: Value) returns (ok: bool, system: bool)
      requires Valid()
      modifies this`options
      ensures ok <==> SettingsInit.Init(config, configOverrides).Some?
      ensures ok ==> Prepared(options, system) == SettingsInit.Init(config, configOverrides).value
    {
      Paths("window");
      hide WithOverrides, Touch, Lookup, Get, NameToken, NamePath, WellPlaced;
      ok := InitOptions(config);
      if !ok {
        return false, false;
      }
      // getAppId
      var touched := Touch(options, ["applicationId"]);
      if touched == None {
        return false, false;
      }
      options := touched.value;
      if !Textual(Get(options, ["applicationId"])) {
        return false, false;
      }
      var dataLoc := "app";
      var location := GetOptionForCurrentMode("dataLocation");
      if location == None || !Textual(location.value) {
        return false, false;
      }
      if location.value != Null {
        dataLoc := location.value.s;
      }
      return true, dataLoc == "system";
    }

    // The part of init that applies the overrides.
    method InitOptions(config: Value) returns (ok: bool)
      requires Valid()
      modifies this`options
      ensures ok <==> WithOverrides(config, configOverrides).Some?
      ensures ok ==> options == WithOverrides(config, configOverrides).value
    {
      hide PathOf, Convert, Touch, WellPlaced;
      options := config;
      var patches: seq<Patch> := [];
      var os := configOverrides;
      assert os[0..] == os;
      ghost var all := Build(config, os);
      assert all.Some? ==> [] + all.value.1 == all.value.1;
      for i := 0 to |os|
        invariant Build(config, os) == WithPatches(patches, Build(options, os[i..]))
        invariant Placed(os[i..])
      {
        var path := PathOf(os[i].target);
        assert os[i..][1..] == os[i + 1..] && os[i..][0] == os[i];
        var touched := Touch(options, path);
        if touched == None {
          return false;
        }
        options := touched.value;
        var op := if Get(options, path) == Null then AddOp else ReplaceOp;
        var value := Convert(os[i]);
        if value == None {
          return false;
        }
        ghost var rest := Build(options, os[i + 1..]);
        if rest.Some? {
          Assoc(patches, [Patch(op, path, value.value)], rest.value.1);
        }
        patches := patches + [Patch(op, path, value.value)];
      }
      assert os[|os|..] == [];
      assert patches + [] == patches;
      var result := Patched(options, patches);
      if result == None {
        return false;
      }
      options := result.value;
      return true;
    }

    // options.patch(patches): one operation after another.
    method Patched(j: Value, ps: seq<Patch>) returns (result: Option<Value>)
      ensures result == ApplyPatches(j, ps)
    {
      var current := j;
      assert ps[0..] == ps;
      for i := 0 to |ps|
        invariant ApplyPatches(j, ps) == ApplyPatches(current, ps[i..])
      {
        assert ps[i..][1..] == ps[i + 1..] && ps[i..][0] == ps[i];
        var next := if ps[i].op == AddOp then Add(current, ps[i].path, ps[i].value)
                    else Replace(current, ps[i].path, ps[i].value);
        if next == None {
          return None;
        }
        current := next.value;
      }
      return Some(current);
    }

    method SetPort(port: int) returns (ok: bool)
      modifies this`options
      ensures ok <==> SetPortSpec(old(options), port).Some?
      ensures ok ==> options == SetPortSpec(old(options), port).value
    {
      hide Assign, IsMode;
      PortPaths("window"); PortPaths("browser"); PortPaths("cloud"); PortPaths("chrome");
      var v := Number(port);
      var next := Assign(options, ["port"], v);
      if next == None {
        return false;
      }
      options := next.value;
      assert MODES[0..] == MODES;
      for i := 0 to |MODES|
        invariant AllModes(MODES[i..])
        invariant SetPortSpec(old(options), port) == AssignModes(options, MODES[i..], v)
      {
        assert MODES[i..][1..] == MODES[i + 1..] && MODES[i..][0] == MODES[i];
        next := Assign(options, ModePath(MODES[i], "port"), v);
        if next == None {
          return false;
        }
        options := next.value;
      }
      return true;
    }

    method GetOptionForCurrentMode(key: string) returns (value: Option<Value>)
      requires NameToken(key)
      modifies this`options
      ensures value.Some? <==> Lookup(old(options), key).Some?
      ensures value.Some? ==> (value.value, options) == Lookup(old(options), key).value
    {
      ModeIsName(options);
      var mode := ModeName(options);
      var t := Touch(options, ["defaultMode"]);
      if t == None || mode == None {
        return None;
      }
      options := t.value;
      t := Touch(options, ModePath(mode.value, key));
      if t == None {
        return None;
      }
      options := t.value;
      value := Some(Get(options, ModePath(mode.value, key)));
      if value == Some(Null) {
        t := Touch(options, [key]);
        if t == None {
          return None;
        }
        options := t.value;
        value := Some(Get(options, [key]));
      }
    }
  }

  function WithPatches(ps: seq<Patch>, built: Option<(Value, seq<Patch>)>): Option<(Value, seq<Patch>)> {
    if built == None then None else Some((built.value.0, ps + built.value.1))
  }
}
