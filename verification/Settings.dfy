// The configuration pipeline of settings.cpp: command-line arguments become overrides, overrides
// become a JSON patch, and options are looked up in the current mode first and in the root then.
module Settings {
  import opened Common
  import opened Json
  import opened SettingsTable
  import opened Strings

  datatype CliArg = CliArg(key: string, value: string)
  datatype Override = Override(target: Target, value: string, convertTo: Conversion)
  datatype Op = AddOp | ReplaceOp
  datatype Patch = Patch(op: Op, path: Path, value: Value)

  // ---------- _parseArg ----------

  // "key=value", split at the first "=": the value is what stands before its first line break.
  // Without a value, or when text follows the line break, all of the argument is the key.
  function ParseSpec(argStr: string): CliArg {
    var i := Find(argStr, '=');
    if i == |argStr| then CliArg(argStr, "")
    else
      var value := argStr[i + 1..];
      var line := value[..Find(value, '\n')];
      if line != "" && |value| <= |line| + 1 then CliArg(argStr[..i], line) else CliArg(argStr, "")
  }

  method ParseArg(argStr: string) returns (arg: CliArg)
    ensures arg == ParseSpec(argStr)
  {
    var argParts := Split(argStr, '=', Some(2));
    TwoFields(argStr);
    if |argParts| == 2 && |argParts[1]| > 0 {
      arg := CliArg(argParts[0], argParts[1]);
    } else {
      arg := CliArg(argStr, "");
    }
  }

  // The two parts of a splitTwo: the text before the delimiter, and the one line after it.
  lemma TwoFields(s: string)
    ensures var i := Find(s, '='); var parts := FieldsUpTo(s, '=', 0, Some(2));
      var value := if i < |s| then s[i + 1..] else ""; var j := Find(value, '\n');
      && (|parts| == 2 <==> value != "" && |value| <= j + 1)
      && (|parts| == 2 ==> parts == [s[..i], value[..j]])
  {
    if s != "" {
      var value := GetLine(s, '=').1;
      UnlimitedFields(value, '\n', 1, Some(2));
      UpToStep(s, '=', 0, Some(2));
      hide FieldsUpTo;
      if value != "" {
        assert Fields(value, '\n') == [GetLine(value, '\n').0] + Fields(GetLine(value, '\n').1, '\n');
      }
    }
  }

  // A "key=value" argument parses to its two parts exactly when the value is a single non-empty
  // line; otherwise parts of it are lost or all of it is taken for the key.
  lemma ParseArgIff(key: string, value: string)
    requires '=' !in key
    ensures ParseSpec(key + ("=" + value)) == CliArg(key, value) <==> value != "" && '\n' !in value
  {
    var t := key + ("=" + value);
    FindIn(key, '=', value);
    if '\n' !in value {
      FindIn(value, '\n', "");
      assert value + "" == value;
    }
    assert t[..|key|] == key && t[|key| + 1..] == value;
  }

  // ---------- applyConfigOverride ----------

  function AliasOverrides(o: Override, modes: seq<string>): seq<Override>
    requires Aliased(o.target)
  {
    if modes == [] then []
    else [o.(target := AliasIn(modes[0], o.target))] + AliasOverrides(o, modes[1..])
  }

  function OverridesOf(arg: CliArg): seq<Override> {
    match CliMapping(arg.key)
    case None => []
    case Some(m) =>
      if arg.key == "--mode" && arg.value !in MODES then []
      else
        var value := if m.convertTo == AsBool && arg.value == "" then "true" else arg.value;
        var o := Override(m.target, value, m.convertTo);
        [o] + if Aliased(o.target) then AliasOverrides(o, MODES) else []
  }

  function AllOverrides(args: seq<CliArg>): seq<Override> {
    if args == [] then [] else OverridesOf(args[0]) + AllOverrides(args[1..])
  }

  // Arguments that setGlobalArgs handles itself.
  predicate Consumed(key: string, devTools: bool) {
    || key == "--load-dir-res" || key == "--res-mode" || key == "--path" || key == "--config-file"
    || (key == "--neu-dev-extension" && devTools)
  }

  // The parsed arguments that reach applyConfigOverride.
  function ConfigArgs(args: seq<string>, devTools: bool): seq<CliArg> {
    if args == [] then []
    else
      var arg := ParseSpec(args[0]);
      (if Consumed(arg.key, devTools) then [] else [arg]) + ConfigArgs(args[1..], devTools)
  }

  // ---------- Conversion ----------

  function Convert(o: Override): (v: Option<Value>)
    ensures v.Some? ==> v.value != Null
  {
    match o.convertTo
    case AsInt => (var x := Stoi(o.value); if x == None then None else Some(Number(x.value)))
    case AsBool => Some(Bool(o.value == "true"))
    case AsString => Some(Text(o.value))
  }

  // ---------- The overrides of init ----------

  ghost predicate Placed(os: seq<Override>) {
    forall i :: 0 <= i < |os| ==> WellPlaced(os[i].target) && NamePath(PathOf(os[i].target))
  }

  // The loop that looks every override up and builds its patch; None where it throws.
  function Build(options: Value, os: seq<Override>): Option<(Value, seq<Patch>)>
    requires Placed(os)
    decreases |os|
  {
    if os == [] then Some((options, []))
    else
      var path := PathOf(os[0].target);
      var touched := Touch(options, path);
      var value := Convert(os[0]);
      if touched == None || value == None then None
      else
        var op := if Get(touched.value, path) == Null then AddOp else ReplaceOp;
        var rest := Build(touched.value, os[1..]);
        if rest == None then None
        else Some((rest.value.0, [Patch(op, path, value.value)] + rest.value.1))
  }

  function ApplyPatches(j: Value, ps: seq<Patch>): Option<Value>
    decreases |ps|
  {
    if ps == [] then Some(j)
    else
      var next := if ps[0].op == AddOp then Add(j, ps[0].path, ps[0].value)
                  else Replace(j, ps[0].path, ps[0].value);
      if next == None then None else ApplyPatches(next.value, ps[1..])
  }

  // The options once init has applied the overrides (lines 81 to 105); None when that throws.
  function WithOverrides(config: Value, os: seq<Override>): Option<Value>
    requires Placed(os)
  {
    var built := Build(config, os);
    if built == None then None else ApplyPatches(built.value.0, built.value.1)
  }

  ghost predicate AllOpen(j: Value, os: seq<Override>) {
    forall i :: 0 <= i < |os| ==> Open(j, PathOf(os[i].target))
  }

  predicate AllConvert(os: seq<Override>) {
    forall i :: 0 <= i < |os| ==> Convert(os[i]).Some?
  }

  ghost predicate AllExist(j: Value, ps: seq<Patch>) {
    forall i :: 0 <= i < |ps| ==> Exists(j, ps[i].path)
  }

  // Any two patches go to the same path or to unrelated ones.
  ghost predicate Apart(ps: seq<Patch>) {
    forall i, k :: 0 <= i < |ps| && 0 <= k < |ps| ==>
      ps[i].path == ps[k].path || Unrelated(ps[i].path, ps[k].path)
  }

  // The patches say what the overrides say.
  ghost predicate PatchesFor(ps: seq<Patch>, os: seq<Override>) {
    && |ps| == |os|
    && forall i :: 0 <= i < |os| ==>
         ps[i].path == PathOf(os[i].target) && Convert(os[i]) == Some(ps[i].value)
  }

  lemma {:induction false} BuildSucceeds(j: Value, os: seq<Override>)
    requires Placed(os)
    ensures Build(j, os).Some? <==> AllOpen(j, os) && AllConvert(os)
    decreases |os|
  {
    hide PathOf, Convert;
    if os != [] {
      var p := PathOf(os[0].target);
      TouchSucceeds(j, p);
      if Touch(j, p).Some? && Convert(os[0]).Some? {
        var t := Touch(j, p).value;
        BuildSucceeds(t, os[1..]);
        forall i | 1 <= i < |os|
          ensures Open(t, PathOf(os[i].target)) <==> Open(j, PathOf(os[i].target))
          ensures os[1..][i - 1] == os[i]
        {
          TouchKeepsShape(j, p, PathOf(os[i].target));
        }
        assert AllOpen(j, os) <==> Open(j, p) && AllOpen(t, os[1..]);
        assert AllConvert(os) <==> AllConvert(os[1..]);
      }
    }
  }

  // Building keeps what exists, and afterwards every patched path exists.
  lemma {:induction false} BuildMaterialises(j: Value, os: seq<Override>)
    requires Placed(os)
    requires Build(j, os).Some?
    ensures PatchesFor(Build(j, os).value.1, os) && AllExist(Build(j, os).value.0, Build(j, os).value.1)
    ensures forall q :: Exists(j, q) ==> Exists(Build(j, os).value.0, q)
    decreases |os|
  {
    hide PathOf, Convert, Exists;
    if os != [] {
      var p := PathOf(os[0].target);
      var t := Touch(j, p).value;
      TouchMaterialises(j, p);
      BuildMaterialises(t, os[1..]);
      forall q | Exists(j, q) ensures Exists(t, q) {
        TouchKeepsShape(j, p, q);
      }
    }
  }

  // Where no override leads, building leaves everything visible as it was.
  lemma {:induction false} BuildFrame(j: Value, os: seq<Override>, q: Path)
    requires Placed(os)
    requires Build(j, os).Some?
    requires forall i :: 0 <= i < |os| ==> Unrelated(PathOf(os[i].target), q)
    ensures Get(Build(j, os).value.0, q) == Get(j, q)
    decreases |os|
  {
    hide PathOf, Convert;
    if os != [] {
      var p := PathOf(os[0].target);
      TouchFrame(j, p, q);
      BuildFrame(Touch(j, p).value, os[1..], q);
    }
  }

  lemma ApplyOne(j: Value, ps: seq<Patch>)
    requires ps != [] && AllExist(j, ps) && Apart(ps)
    ensures ApplyPatches(j, ps) == ApplyPatches(SetAt(j, ps[0].path, ps[0].value), ps[1..])
    ensures AllExist(SetAt(j, ps[0].path, ps[0].value), ps[1..]) && Apart(ps[1..])
  {
    var p := ps[0].path;
    AddIsSet(j, p, ps[0].value);
    SetReads(j, p, ps[0].value);
    forall i | 0 <= i < |ps[1..]| ensures Exists(SetAt(j, p, ps[0].value), ps[1..][i].path) {
      assert ps[1..][i] == ps[i + 1];
      if ps[i + 1].path != p {
        SetFrame(j, p, ps[0].value, ps[i + 1].path);
      }
    }
  }

  // Patches to existing, mutually apart paths always apply.
  lemma {:induction false} PatchesApply(j: Value, ps: seq<Patch>)
    requires AllExist(j, ps) && Apart(ps)
    ensures ApplyPatches(j, ps).Some?
    decreases |ps|
  {
    if ps != [] {
      ApplyOne(j, ps);
      PatchesApply(SetAt(j, ps[0].path, ps[0].value), ps[1..]);
    }
  }

  lemma {:induction false} PatchesFrame(j: Value, ps: seq<Patch>, q: Path)
    requires AllExist(j, ps) && Apart(ps)
    requires forall i :: 0 <= i < |ps| ==> Unrelated(ps[i].path, q)
    ensures ApplyPatches(j, ps).Some? && Get(ApplyPatches(j, ps).value, q) == Get(j, q)
    decreases |ps|
  {
    if ps != [] {
      ApplyOne(j, ps);
      SetFrame(j, ps[0].path, ps[0].value, q);
      PatchesFrame(SetAt(j, ps[0].path, ps[0].value), ps[1..], q);
    }
  }

  // The last patch to a path decides what it reads.
  lemma {:induction false} LastPatchWins(j: Value, ps: seq<Patch>, k: nat)
    requires AllExist(j, ps) && Apart(ps) && k < |ps|
    requires forall i :: k < i < |ps| ==> ps[i].path != ps[k].path
    ensures ApplyPatches(j, ps).Some? && Get(ApplyPatches(j, ps).value, ps[k].path) == ps[k].value
    decreases |ps|
  {
    ApplyOne(j, ps);
    var j1 := SetAt(j, ps[0].path, ps[0].value);
    if k == 0 {
      SetReads(j, ps[0].path, ps[0].value);
      PatchesFrame(j1, ps[1..], ps[0].path);
    } else {
      LastPatchWins(j1, ps[1..], k - 1);
    }
  }

  lemma PatchesApart(ps: seq<Patch>, os: seq<Override>)
    requires Placed(os) && PatchesFor(ps, os)
    ensures Apart(ps)
  {
    hide WellPlaced, PathOf, Convert;
    forall i, k | 0 <= i < |ps| && 0 <= k < |ps|
      ensures ps[i].path == ps[k].path || Unrelated(ps[i].path, ps[k].path)
    {
      if os[i].target != os[k].target {
        PlacesApart(os[i].target, os[k].target);
      }
    }
  }

  // For every config and every list of overrides: applying them succeeds exactly when all
  // conversions do and no scalar or array stands where an override needs an object.
  lemma OverridesApplyIff(config: Value, os: seq<Override>)
    requires Placed(os)
    ensures WithOverrides(config, os).Some? <==> AllOpen(config, os) && AllConvert(os)
  {
    BuildSucceeds(config, os);
    if Build(config, os).Some? {
      BuildMaterialises(config, os);
      PatchesApart(Build(config, os).value.1, os);
      PatchesApply(Build(config, os).value.0, Build(config, os).value.1);
    }
  }

  // Every option then reads as its last override says.
  lemma LastOverrideWins(config: Value, os: seq<Override>, k: nat)
    requires Placed(os)
    requires WithOverrides(config, os).Some? && k < |os|
    requires forall i :: k < i < |os| ==> os[i].target != os[k].target
    ensures Convert(os[k]) == Some(Get(WithOverrides(config, os).value, PathOf(os[k].target)))
  {
    hide WellPlaced, PathOf, Convert;
    BuildMaterialises(config, os);
    var ps := Build(config, os).value.1;
    PatchesApart(ps, os);
    forall i | k < i < |ps| ensures ps[i].path != ps[k].path {
      PlacesApart(os[i].target, os[k].target);
    }
    LastPatchWins(Build(config, os).value.0, ps, k);
  }

  // And whatever no override leads to or through is unchanged.
  lemma OverridesFrame(config: Value, os: seq<Override>, q: Path)
    requires Placed(os)
    requires WithOverrides(config, os).Some?
    requires forall i :: 0 <= i < |os| ==> Unrelated(PathOf(os[i].target), q)
    ensures Get(WithOverrides(config, os).value, q) == Get(config, q)
  {
    hide WellPlaced, PathOf, Convert;
    BuildMaterialises(config, os);
    BuildFrame(config, os, q);
    var ps := Build(config, os).value.1;
    PatchesApart(ps, os);
    PatchesFrame(Build(config, os).value.0, ps, q);
  }

  // The last override of an option, if any.
  function LastOverride(os: seq<Override>, t: Target): Option<Override> {
    if os == [] then None
    else if os[|os| - 1].target == t then Some(os[|os| - 1])
    else LastOverride(os[..|os| - 1], t)
  }

  // What an option reads as once the overrides are applied: its last override, converted, and
  // without one what the configuration says.
  function Reading(config: Value, os: seq<Override>, t: Target): Value {
    match LastOverride(os, t)
    case None => Get(config, PathOf(t))
    case Some(o) => if Convert(o) == None then Null else Convert(o).value
  }

  lemma {:induction false} LastOverrideIndex(os: seq<Override>, t: Target)
    ensures LastOverride(os, t) == None ==> forall i :: 0 <= i < |os| ==> os[i].target != t
    ensures LastOverride(os, t).Some? ==>
              exists k :: 0 <= k < |os| && os[k] == LastOverride(os, t).value && os[k].target == t
                          && forall i :: k < i < |os| ==> os[i].target != t
  {
    if os != [] {
      var n := |os| - 1;
      if os[n].target == t {
        assert os[n] == LastOverride(os, t).value;
      } else {
        LastOverrideIndex(os[..n], t);
        if LastOverride(os[..n], t).Some? {
          var k :| 0 <= k < n && os[..n][k] == LastOverride(os, t).value && os[..n][k].target == t
                   && forall i :: k < i < n ==> os[..n][i].target != t;
          forall i | k < i < |os| ensures os[i].target != t {
            assert i < n ==> os[..n][i] == os[i];
          }
          assert os[k] == LastOverride(os, t).value;
        } else {
          forall i | 0 <= i < |os| ensures os[i].target != t {
            assert i < n ==> os[..n][i] == os[i];
          }
        }
      }
    }
  }

  // Main theorem: applying the overrides makes every option read just so, and every option is
  // open afterwards exactly when it was before.
  lemma OptionsRead(config: Value, os: seq<Override>, t: Target)
    requires Placed(os) && WellPlaced(t)
    requires WithOverrides(config, os).Some?
    ensures Get(WithOverrides(config, os).value, PathOf(t)) == Reading(config, os, t)
    ensures Open(WithOverrides(config, os).value, PathOf(t)) <==> Open(config, PathOf(t))
  {
    LastOverrideIndex(os, t);
    OverridesKeepOpen(config, os, t);
    hide PathOf, WellPlaced, Convert, WithOverrides, Get, LastOverride, Open;
    if LastOverride(os, t) == None {
      forall i | 0 <= i < |os| ensures Unrelated(PathOf(os[i].target), PathOf(t)) {
        PlacesApart(os[i].target, t);
      }
      OverridesFrame(config, os, PathOf(t));
    } else {
      var k :| 0 <= k < |os| && os[k] == LastOverride(os, t).value && os[k].target == t
               && forall i :: k < i < |os| ==> os[i].target != t;
      LastOverrideWins(config, os, k);
    }
  }

  lemma {:induction false} ExistingIsOpen(j: Value, p: Path)
    requires Exists(j, p)
    ensures Open(j, p)
    decreases |p|
  {
    if p != [] {
      ExistingIsOpen(j.fields[p[0]], p[1..]);
    }
  }

  lemma {:induction false} BuildKeepsOpen(j: Value, os: seq<Override>, q: Path)
    requires Placed(os) && Build(j, os).Some?
    ensures Open(Build(j, os).value.0, q) <==> Open(j, q)
    decreases |os|
  {
    hide PathOf, Convert, Open;
    if os != [] {
      TouchKeepsShape(j, PathOf(os[0].target), q);
      BuildKeepsOpen(Touch(j, PathOf(os[0].target)).value, os[1..], q);
    }
  }

  lemma {:induction false} PatchesKeepOpen(j: Value, ps: seq<Patch>, q: Path)
    requires AllExist(j, ps) && Apart(ps)
    requires forall i :: 0 <= i < |ps| ==> ps[i].path == q || Unrelated(ps[i].path, q)
    ensures ApplyPatches(j, ps).Some? && (Open(ApplyPatches(j, ps).value, q) <==> Open(j, q))
    decreases |ps|
  {
    if ps != [] {
      ApplyOne(j, ps);
      var p, j1 := ps[0].path, SetAt(j, ps[0].path, ps[0].value);
      if p == q {
        SetReads(j, p, ps[0].value);
        ExistingIsOpen(j, p);
        ExistingIsOpen(j1, p);
      } else {
        SetFrame(j, p, ps[0].value, q);
      }
      hide Open, SetAt, Exists, Apart, AllExist;
      PatchesKeepOpen(j1, ps[1..], q);
    }
  }

  lemma OverridesKeepOpen(config: Value, os: seq<Override>, t: Target)
    requires Placed(os) && WellPlaced(t)
    requires WithOverrides(config, os).Some?
    ensures Open(WithOverrides(config, os).value, PathOf(t)) <==> Open(config, PathOf(t))
  {
    BuildMaterialises(config, os);
    var ps := Build(config, os).value.1;
    PatchesApart(ps, os);
    hide PathOf, WellPlaced, Convert, Open, Get, Apart, AllExist;
    BuildKeepsOpen(config, os, PathOf(t));
    forall i | 0 <= i < |ps| ensures ps[i].path == PathOf(t) || Unrelated(ps[i].path, PathOf(t)) {
      if os[i].target != t {
        PlacesApart(os[i].target, t);
      }
    }
    PatchesKeepOpen(Build(config, os).value.0, ps, PathOf(t));
  }

  // ---------- From arguments to overrides ----------

  lemma {:induction false} AliasesPlaced(o: Override, modes: seq<string>)
    requires InTable(o.target) && Aliased(o.target) && forall i :: 0 <= i < |modes| ==> IsMode(modes[i])
    ensures Placed(AliasOverrides(o, modes)) && |AliasOverrides(o, modes)| == |modes|
    ensures forall i :: 0 <= i < |modes| ==>
              AliasOverrides(o, modes)[i] == o.(target := AliasIn(modes[i], o.target))
  {
    hide WellPlaced, PathOf, InTable, NamePath, Aliased;
    if modes != [] {
      AliasPlaced(modes[0], o.target);
      NamePaths(AliasIn(modes[0], o.target));
      AliasesPlaced(o, modes[1..]);
    }
  }

  lemma ArgPlaced(arg: CliArg)
    ensures Placed(OverridesOf(arg))
    ensures OverridesOf(arg) != [] ==> InTable(OverridesOf(arg)[0].target)
    ensures OverridesOf(arg) != [] && !Aliased(OverridesOf(arg)[0].target) ==> |OverridesOf(arg)| == 1
    ensures OverridesOf(arg) != [] && Aliased(OverridesOf(arg)[0].target) ==>
              OverridesOf(arg)[1..] == AliasOverrides(OverridesOf(arg)[0], MODES)
  {
    hide CliMapping, Aliased;
    TablePlaced(arg.key);
    var os := OverridesOf(arg);
    if os != [] {
      NamePaths(os[0].target);
      if Aliased(os[0].target) {
        AliasesPlaced(os[0], MODES);
      }
    }
  }

  lemma {:induction false} ArgsPlaced(args: seq<CliArg>)
    ensures Placed(AllOverrides(args))
  {
    hide OverridesOf;
    if args != [] {
      ArgPlaced(args[0]);
      ArgsPlaced(args[1..]);
    }
  }

  // The options once the overrides of a list of arguments are applied.
  function WithArgs(config: Value, args: seq<CliArg>): Option<Value> {
    ArgsPlaced(args);
    WithOverrides(config, AllOverrides(args))
  }

  // That succeeds exactly when every conversion does and the configuration has no scalar or array
  // where an option needs an object.
  lemma ArgsApplyIff(config: Value, args: seq<CliArg>)
    ensures WithArgs(config, args).Some? <==>
            AllOpen(config, AllOverrides(args)) && AllConvert(AllOverrides(args))
  {
    ArgsPlaced(args);
    OverridesApplyIff(config, AllOverrides(args));
  }

  // An object is not enough for a configuration: with a number for "modes", --port=8080 throws,
  // because the aliases of the option have no object to go to.
  lemma ScalarModesFail()
    ensures WithArgs(Object(map["modes" := Number(5)]), [CliArg("--port", "8080")]) == None
  {
    var config, arg := Object(map["modes" := Number(5)]), CliArg("--port", "8080");
    var os := OverridesOf(arg);
    assert CliMapping(arg.key) == TopMapping1(arg.key);
    assert os[0].target == Top("port");
    assert os[1].target == InMode("window", "port");
    assert AllOverrides([arg]) == os + AllOverrides([]);
    assert PathOf(os[1].target) == ["modes", "window", "port"];
    assert !Open(config, PathOf(os[1].target));
    ArgsApplyIff(config, [arg]);
  }

  // No override of `os` goes to target t.
  ghost predicate Avoids(os: seq<Override>, t: Target) {
    forall i :: 0 <= i < |os| ==> os[i].target != t
  }

  // The target an argument is about, if any.
  function TargetOf(arg: CliArg): Option<Target> {
    if OverridesOf(arg) == [] then None else Some(OverridesOf(arg)[0].target)
  }

  // An argument about another option touches neither option t nor its aliases.
  lemma OtherArgAvoids(arg: CliArg, t: Target, mode: string)
    requires InTable(t) && Aliased(t) && TargetOf(arg) != Some(t)
    ensures Avoids(OverridesOf(arg), t) && Avoids(OverridesOf(arg), AliasIn(mode, t))
  {
    ArgPlaced(arg);
    var os := OverridesOf(arg);
    hide OverridesOf, WellPlaced, PathOf, NamePath;
    if os != [] && Aliased(os[0].target) {
      AliasesPlaced(os[0], MODES);
      assert os == [os[0]] + os[1..];
      forall i | 0 <= i < |os| ensures os[i].target != t && os[i].target != AliasIn(mode, t) {
        if i > 0 {
          assert os[i] == os[1..][i - 1] == os[0].(target := AliasIn(MODES[i - 1], os[0].target));
        }
      }
    }
  }

  lemma {:induction false} OtherArgsAvoid(args: seq<CliArg>, t: Target, mode: string)
    requires InTable(t) && Aliased(t)
    requires forall i :: 0 <= i < |args| ==> TargetOf(args[i]) != Some(t)
    ensures Avoids(AllOverrides(args), t) && Avoids(AllOverrides(args), AliasIn(mode, t))
  {
    hide OverridesOf, TargetOf, InTable, Aliased, AliasIn;
    if args != [] {
      OtherArgAvoids(args[0], t, mode);
      OtherArgsAvoid(args[1..], t, mode);
    }
  }

  lemma {:induction false} AllOverridesAppend(a: seq<CliArg>, b: seq<CliArg>)
    ensures AllOverrides(a + b) == AllOverrides(a) + AllOverrides(b)
  {
    hide OverridesOf;
    if a == [] {
      assert a + b == b;
    } else {
      assert (a + b)[1..] == a[1..] + b;
      AllOverridesAppend(a[1..], b);
      Assoc(OverridesOf(a[0]), AllOverrides(a[1..]), AllOverrides(b));
    }
  }

  // An argument about another option leaves every option of the table alone.
  lemma OtherArgAvoidsOption(arg: CliArg, t: Target)
    requires InTable(t) && TargetOf(arg) != Some(t)
    ensures Avoids(OverridesOf(arg), t)
  {
    ArgPlaced(arg);
    var os := OverridesOf(arg);
    hide OverridesOf, PathOf, NamePath;
    if os != [] && Aliased(os[0].target) {
      AliasesPlaced(os[0], MODES);
      forall i | 0 <= i < |os| ensures os[i].target != t {
        if i > 0 {
          assert os[i] == os[1..][i - 1] == os[0].(target := AliasIn(MODES[i - 1], os[0].target));
        }
      }
    }
  }

  lemma {:induction false} OtherArgsAvoidOption(args: seq<CliArg>, t: Target)
    requires InTable(t)
    requires forall i :: 0 <= i < |args| ==> TargetOf(args[i]) != Some(t)
    ensures Avoids(AllOverrides(args), t)
  {
    hide OverridesOf, TargetOf, InTable;
    if args != [] {
      OtherArgAvoidsOption(args[0], t);
      OtherArgsAvoidOption(args[1..], t);
    }
  }

  // The last override of an option is that of its last argument.
  lemma LastOverrideOf(before: seq<CliArg>, arg: CliArg, after: seq<CliArg>, t: Target)
    requires TargetOf(arg) == Some(t)
    requires forall i :: 0 <= i < |after| ==> TargetOf(after[i]) != Some(t)
    ensures LastOverride(AllOverrides(before + ([arg] + after)), t) == Some(OverridesOf(arg)[0])
  {
    LaterArgsAvoid(arg, after, t);
    OwnLast(arg, t);
    hide OverridesOf, TargetOf, InTable, AllOverrides, Aliased, LastOverride;
    OverridesSplit(before, arg, after);
    var mine, b := OverridesOf(arg), AllOverrides(after);
    LastInTail(AllOverrides(before), mine + b, t);
    LastInTail(mine, b, t);
  }

  lemma LaterArgsAvoid(arg: CliArg, after: seq<CliArg>, t: Target)
    requires TargetOf(arg) == Some(t)
    requires forall i :: 0 <= i < |after| ==> TargetOf(after[i]) != Some(t)
    ensures LastOverride(AllOverrides(after), t) == None
  {
    ArgPlaced(arg);
    OtherArgsAvoidOption(after, t);
    NoneLast(AllOverrides(after), t);
  }

  lemma OwnLast(arg: CliArg, t: Target)
    requires TargetOf(arg) == Some(t)
    ensures OverridesOf(arg) != [] && LastOverride(OverridesOf(arg), t) == Some(OverridesOf(arg)[0])
  {
    OwnArgAvoids(arg, t);
    var os := OverridesOf(arg);
    hide OverridesOf;
    NoneLast(os[1..], t);
    LastInTail([os[0]], os[1..], t);
    assert os == [os[0]] + os[1..];
  }

  lemma OwnArgAvoids(arg: CliArg, t: Target)
    requires TargetOf(arg) == Some(t)
    ensures Avoids(OverridesOf(arg)[1..], t)
  {
    ArgPlaced(arg);
    var os := OverridesOf(arg);
    hide OverridesOf, PathOf, NamePath;
    if Aliased(t) {
      AliasesPlaced(os[0], MODES);
      forall i | 0 <= i < |os[1..]| ensures os[1..][i].target != t {
        assert os[1..][i] == os[0].(target := AliasIn(MODES[i], os[0].target));
      }
    }
  }

  lemma NoneLast(os: seq<Override>, t: Target)
    requires Avoids(os, t)
    ensures LastOverride(os, t) == None
  {
    LastOverrideIndex(os, t);
  }

  lemma {:induction false} LastInTail(a: seq<Override>, b: seq<Override>, t: Target)
    ensures LastOverride(a + b, t) == if LastOverride(b, t).Some? then LastOverride(b, t) else LastOverride(a, t)
    decreases |b|
  {
    if b == [] {
      assert a + b == a;
    } else {
      assert (a + b)[..|a + b| - 1] == a + b[..|b| - 1];
      LastInTail(a, b[..|b| - 1], t);
    }
  }

  // After position k nothing goes to target t.
  ghost predicate AvoidsAfter(os: seq<Override>, k: int, t: Target) {
    forall i :: 0 <= i < |os| && k < i ==> os[i].target != t
  }

  lemma ModesDistinct(j: nat, k: nat)
    requires j < |MODES| && k < |MODES| && MODES[j] == MODES[k]
    ensures j == k
  {
  }

  // An aliased argument's own overrides: the option first, then one alias for each mode.
  lemma OwnOverrides(arg: CliArg, mode: nat)
    requires TargetOf(arg).Some? && Aliased(TargetOf(arg).value) && mode < |MODES|
    ensures var mine := OverridesOf(arg); var o := mine[0];
      && |mine| == 1 + |MODES|
      && mine[1 + mode] == o.(target := AliasIn(MODES[mode], o.target))
      && AvoidsAfter(mine, 0, o.target) && AvoidsAfter(mine, 1 + mode, AliasIn(MODES[mode], o.target))
  {
    var mine := OverridesOf(arg);
    var o := mine[0];
    ArgPlaced(arg);
    AliasesPlaced(o, MODES);
    hide OverridesOf, TargetOf, WellPlaced, PathOf;
    assert mine == [o] + mine[1..];
    forall i | 0 < i < |mine|
      ensures mine[i].target != o.target
      ensures i > 1 + mode ==> mine[i].target != AliasIn(MODES[mode], o.target)
    {
      assert mine[i] == mine[1..][i - 1];
      if i > 1 + mode && MODES[i - 1] == MODES[mode] {
        ModesDistinct(i - 1, mode);
      }
    }
  }

  lemma AvoidsInTail(a: seq<Override>, mine: seq<Override>, b: seq<Override>, k: nat, t: Target)
    requires AvoidsAfter(mine, k, t) && Avoids(b, t)
    ensures AvoidsAfter(a + (mine + b), |a| + k, t)
  {
    var os := a + (mine + b);
    forall i | 0 <= i < |os| && |a| + k < i ensures os[i].target != t {
      if i < |a| + |mine| {
        assert os[i] == mine[i - |a|];
      } else {
        assert os[i] == b[i - |a| - |mine|];
      }
    }
  }

  lemma OverridesSplit(before: seq<CliArg>, arg: CliArg, after: seq<CliArg>)
    ensures AllOverrides(before + ([arg] + after))
         == AllOverrides(before) + (OverridesOf(arg) + AllOverrides(after))
  {
    hide OverridesOf;
    AllOverridesAppend(before, [arg] + after);
    assert ([arg] + after)[1..] == after;
  }

  // Where the argument's own value stands among all overrides, for the option and for one mode:
  // after it nothing else goes to the same place.
  lemma OwnPlace(before: seq<CliArg>, arg: CliArg, after: seq<CliArg>, mode: nat) returns (own: nat, alias: nat)
    requires TargetOf(arg).Some? && Aliased(TargetOf(arg).value) && mode < |MODES|
    requires forall i :: 0 <= i < |after| ==> TargetOf(after[i]) != TargetOf(arg)
    ensures var os := AllOverrides(before + ([arg] + after)); var o := OverridesOf(arg)[0];
      && own < |os| && os[own] == o && AvoidsAfter(os, own, o.target)
      && alias < |os| && os[alias] == o.(target := AliasIn(MODES[mode], o.target))
      && AvoidsAfter(os, alias, AliasIn(MODES[mode], o.target))
  {
    var mine := OverridesOf(arg);
    var o := mine[0];
    ArgPlaced(arg);
    OwnOverrides(arg, mode);
    OtherArgsAvoid(after, o.target, MODES[mode]);
    hide OverridesOf, TargetOf, InTable, WellPlaced, PathOf, Aliased, AliasIn, Avoids, AvoidsAfter;
    OverridesSplit(before, arg, after);
    hide AllOverrides;
    var a, b := AllOverrides(before), AllOverrides(after);
    assert (a + (mine + b))[|a|] == mine[0] && (a + (mine + b))[|a| + 1 + mode] == mine[1 + mode];
    own, alias := |a|, |a| + 1 + mode;
    AvoidsInTail(a, mine, b, 0, o.target);
    AvoidsInTail(a, mine, b, 1 + mode, AliasIn(MODES[mode], o.target));
  }

  // For the ten aliased options: once the overrides are applied the option reads, in the root and
  // in every mode, as the converted value of its last argument.
  lemma LastArgumentWins(config: Value, before: seq<CliArg>, arg: CliArg, after: seq<CliArg>, mode: nat)
    requires TargetOf(arg).Some? && Aliased(TargetOf(arg).value) && mode < |MODES|
    requires forall i :: 0 <= i < |after| ==> TargetOf(after[i]) != TargetOf(arg)
    requires WithArgs(config, before + ([arg] + after)).Some?
    ensures var final := WithArgs(config, before + ([arg] + after)).value;
            var o := OverridesOf(arg)[0];
      && Convert(o) == Some(Get(final, PathOf(o.target)))
      && Convert(o) == Some(Get(final, PathOf(AliasIn(MODES[mode], o.target))))
  {
    var os := AllOverrides(before + ([arg] + after));
    var own, alias := OwnPlace(before, arg, after, mode);
    ArgsPlaced(before + ([arg] + after));
    hide OverridesOf, TargetOf, AllOverrides, WellPlaced, PathOf, WithOverrides, AliasIn;
    LastOverrideWins(config, os, own);
    LastOverrideWins(config, os, alias);
    ConvertIgnoresTarget(os[own], os[alias]);
  }

  lemma ConvertIgnoresTarget(o: Override, p: Override)
    requires o.value == p.value && o.convertTo == p.convertTo
    ensures Convert(o) == Convert(p)
  {
  }
}
