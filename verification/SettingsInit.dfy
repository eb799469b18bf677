// settings::init of settings.cpp from the parsed configuration on: the overrides, the application
// id and the data location.
module SettingsInit {
  import opened Common
  import opened Json
  import opened SettingsTable
  import opened Settings
  import opened SettingsLookup

  // What init leaves behind: the options, and whether the data location is the system's.
  datatype Prepared = Prepared(options: Value, system: bool)

  // Null, or a value that get<string>() takes.
  predicate Textual(v: Value) {
    v.Null? || v.Text?
  }

  // getAppId and the data location; None where they throw.
  function Finish(options: Value): Option<Prepared> {
    var t := Touch(options, ["applicationId"]);
    if t == None || !Textual(Get(t.value, ["applicationId"])) then None
    else
      var l := Lookup(t.value, "dataLocation");
      if l == None || !Textual(l.value.0) then None
      else Some(Prepared(l.value.1, l.value.0 == Text("system")))
  }

  // init on a configuration that parses; None where it throws.
  function Init(config: Value, os: seq<Override>): Option<Prepared>
    requires Placed(os)
  {
    var o := WithOverrides(config, os);
    if o == None then None else Finish(o.value)
  }

  // What the current mode says about an option, and else the root.
  function Chosen(inMode: Value, inRoot: Value): Value {
    if inMode != Null then inMode else inRoot
  }

  // The two places of the data location, and that of the application id, are option paths.
  lemma Paths(mode: string)
    requires IsMode(mode)
    ensures NameToken("dataLocation") && NamePath(["applicationId"])
    ensures WellPlaced(Top("applicationId")) && PathOf(Top("applicationId")) == ["applicationId"]
    ensures WellPlaced(Top("defaultMode")) && PathOf(Top("defaultMode")) == ["defaultMode"]
    ensures WellPlaced(Top("dataLocation")) && PathOf(Top("dataLocation")) == ["dataLocation"]
    ensures WellPlaced(InMode(mode, "dataLocation"))
    ensures PathOf(InMode(mode, "dataLocation")) == ModePath(mode, "dataLocation")
  {
  }

  // Not one of the containers that a lookup in this mode may create.
  predicate Visible(q: Path, mode: string) {
    q != [] && q != ["modes"] && q != ["modes", mode]
  }

  lemma OptionsAreVisible(t: Target, mode: string)
    requires WellPlaced(t)
    ensures Visible(PathOf(t), mode)
  {
    assert "modes" != "logging";
    assert PathOf(t)[0] == "modes" ==> |PathOf(t)| >= 3;
  }

  // Reading the application id changes nothing that can be read.
  lemma AppIdFrame(options: Value, q: Path)
    requires NamePath(["applicationId"]) && Touch(options, ["applicationId"]).Some? && q != []
    ensures Get(Touch(options, ["applicationId"]).value, q) == Get(options, q)
    ensures Open(Touch(options, ["applicationId"]).value, q) <==> Open(options, q)
  {
    var p := ["applicationId"];
    if q <= p {
      assert q == p[..|q|] && q == p;
    }
    TouchFrame(options, p, q);
    TouchKeepsShape(options, p, q);
  }

  // The rest of init succeeds exactly when the application id and the data location are null or
  // text, the mode is one, and the current mode's options are open.
  lemma FinishSucceedsIff(options: Value)
    ensures var mode := ModeName(options);
      Finish(options).Some? <==>
        && Textual(Get(options, ["applicationId"]))
        && mode.Some?
        && Open(options, ModePath(mode.value, "dataLocation"))
        && Textual(Chosen(Get(options, ModePath(mode.value, "dataLocation")), Get(options, ["dataLocation"])))
    ensures var mode := ModeName(options); Finish(options).Some? ==>
      && Finish(options).value.system
         == (Chosen(Get(options, ModePath(mode.value, "dataLocation")), Get(options, ["dataLocation"])) == Text("system"))
      && forall q :: Visible(q, mode.value) ==> Get(Finish(options).value.options, q) == Get(options, q)
  {
    Paths("window");
    OpenAtTop(options);
    ModeIsName(options);
    TouchSucceeds(options, ["applicationId"]);
    hide Get, Touch, Lookup, ModeName, Open, NameToken, NamePath, IsMode, PathOf, WellPlaced;
    if Touch(options, ["applicationId"]).Some? {
      AppIdFrame(options, ["applicationId"]);
      DataLocationReads(options);
    }
  }

  // The lookup of the data location, after that of the application id.
  lemma DataLocationReads(options: Value)
    requires NamePath(["applicationId"]) && NameToken("dataLocation") && Touch(options, ["applicationId"]).Some?
    ensures var mode := ModeName(options); var l := Lookup(Touch(options, ["applicationId"]).value, "dataLocation");
      && (l.Some? <==> mode.Some? && Open(options, ModePath(mode.value, "dataLocation")))
      && (l.Some? ==>
            && l.value.0 == Chosen(Get(options, ModePath(mode.value, "dataLocation")), Get(options, ["dataLocation"]))
            && forall q :: Visible(q, mode.value) ==> Get(l.value.1, q) == Get(options, q))
  {
    var t := Touch(options, ["applicationId"]).value;
    AppIdFrame(options, ["defaultMode"]);
    AppIdFrame(options, ["dataLocation"]);
    assert ModeName(t) == ModeName(options);
    LookupSucceedsIff(t, "dataLocation");
    hide Get, Touch, Lookup, ModeName, Open, NameToken, NamePath;
    if ModeName(options).Some? {
      var mode := ModeName(options).value;
      AppIdFrame(options, ModePath(mode, "dataLocation"));
      if Lookup(t, "dataLocation").Some? {
        LookupReads(t, "dataLocation");
        assert "dataLocation" != "modes";
        forall q | Visible(q, mode)
          ensures Get(Lookup(t, "dataLocation").value.1, q) == Get(options, q)
        {
          AppIdFrame(options, q);
        }
      }
    }
  }

  lemma OpenAtTop(options: Value)
    ensures forall p: Path :: p != [] && Open(options, p) ==> Open(options, ["applicationId"])
  {
    assert ["applicationId"][1..] == [];
  }

  // Main theorem, for every configuration and every list of overrides: init succeeds if and only
  // if every override finds objects on its way and converts, the application id is null or text,
  // the default mode is null or text, and in that mode the data location is reachable and is null
  // or text. Each option counts as its last override, converted, or else as configured.
  lemma InitSucceedsIff(config: Value, os: seq<Override>)
    requires Placed(os)
    ensures var mode := ModeOf(Reading(config, os, Top("defaultMode")));
      var appId := Reading(config, os, Top("applicationId"));
      Init(config, os).Some? <==>
        && AllOpen(config, os) && AllConvert(os)
        && (appId.Null? || appId.Text?)
        && mode.Some?
        && Open(config, ["modes", mode.value, "dataLocation"])
        && var location := Chosen(Reading(config, os, InMode(mode.value, "dataLocation")),
                                  Reading(config, os, Top("dataLocation")));
           location.Null? || location.Text?
  {
    OverridesApplyIff(config, os);
    hide WithOverrides, Reading, AllOpen, AllConvert;
    if WithOverrides(config, os).Some? {
      InitReads(config, os);
    }
  }

  lemma InitReads(config: Value, os: seq<Override>)
    requires Placed(os) && WithOverrides(config, os).Some?
    ensures var mode := ModeOf(Reading(config, os, Top("defaultMode")));
      Finish(WithOverrides(config, os).value).Some? <==>
        && Textual(Reading(config, os, Top("applicationId")))
        && mode.Some?
        && Open(config, ModePath(mode.value, "dataLocation"))
        && Textual(Chosen(Reading(config, os, InMode(mode.value, "dataLocation")),
                          Reading(config, os, Top("dataLocation"))))
  {
    var options := WithOverrides(config, os).value;
    Paths("window");
    OptionsRead(config, os, Top("applicationId"));
    OptionsRead(config, os, Top("defaultMode"));
    OptionsRead(config, os, Top("dataLocation"));
    FinishSucceedsIff(options);
    ModeIsName(options);
    if ModeName(options).Some? {
      var mode := ModeName(options).value;
      Paths(mode);
      OptionsRead(config, os, InMode(mode, "dataLocation"));
    }
  }

  // After a successful init every option reads as its last override, converted, or else as it is
  // configured.
  lemma InitOptionsRead(config: Value, os: seq<Override>, t: Target)
    requires Placed(os) && WellPlaced(t) && Init(config, os).Some?
    ensures Get(Init(config, os).value.options, PathOf(t)) == Reading(config, os, t)
    ensures ModeName(Init(config, os).value.options) == ModeOf(Reading(config, os, Top("defaultMode")))
    ensures ModeName(Init(config, os).value.options).Some?
  {
    var options := WithOverrides(config, os).value;
    Paths("window");
    FinishSucceedsIff(options);
    var mode := ModeName(options).value;
    OptionsAreVisible(t, mode);
    OptionsAreVisible(Top("defaultMode"), mode);
    hide WithOverrides, Finish, Reading, WellPlaced, Get, PathOf, ModeOf;
    OptionsRead(config, os, t);
    OptionsRead(config, os, Top("defaultMode"));
  }

  // init on a list of arguments.
  function InitOnArgs(config: Value, args: seq<CliArg>): Option<Prepared> {
    ArgsPlaced(args);
    Init(config, AllOverrides(args))
  }

  // End to end: whatever the configuration and the other arguments, if init succeeds then each of
  // the ten aliased options is looked up as the converted value of its last argument.
  lemma LastArgumentIsLookedUp(config: Value, before: seq<CliArg>, arg: CliArg, after: seq<CliArg>)
    requires TargetOf(arg).Some? && Aliased(TargetOf(arg).value)
    requires forall i :: 0 <= i < |after| ==> TargetOf(after[i]) != TargetOf(arg)
    requires InitOnArgs(config, before + ([arg] + after)).Some?
    ensures var final := InitOnArgs(config, before + ([arg] + after)).value.options;
            WellPlaced(TargetOf(arg).value) && LookedUp(final, TargetOf(arg).value) == Convert(OverridesOf(arg)[0])
  {
    var args := before + ([arg] + after);
    ArgsPlaced(args);
    var os := AllOverrides(args);
    var final := InitOnArgs(config, args).value.options;
    var t := TargetOf(arg).value;
    ArgPlaced(arg);
    assert OverridesOf(arg)[0].target == t;
    assert WithArgs(config, args) == WithOverrides(config, os) && WithOverrides(config, os).Some?;
    hide Init, WithArgs, WithOverrides, OverridesOf, TargetOf, LookedUp, PathOf, Convert, Get, ModeName, AliasIn, WellPlaced,
      Reading, AllOverrides, Aliased, ModeOf;
    forall m | 0 <= m < |MODES|
      ensures Some(Get(final, PathOf(AliasIn(MODES[m], t)))) == Convert(OverridesOf(arg)[0])
    {
      AliasPlaced(MODES[m], t);
      LastArgumentWins(config, before, arg, after, m);
      OptionsRead(config, os, AliasIn(MODES[m], t));
      InitOptionsRead(config, os, AliasIn(MODES[m], t));
    }
    assert Some(Get(final, PathOf(AliasIn(MODES[0], t)))) == Convert(OverridesOf(arg)[0]);
    InitOptionsRead(config, os, t);
    AliasedReadsBack(final, t, Convert(OverridesOf(arg)[0]).value);
  }

  // Configurations on which init throws without any argument: a number for "modes" or for the
  // application id, and an array.
  lemma NumberForModesFails()
    ensures InitOnArgs(Object(map["modes" := Number(5)]), []) == None
  {
    var config := Object(map["modes" := Number(5)]);
    assert LastOverride([], Top("defaultMode")) == None;
    Paths("window");
    assert Reading(config, [], Top("defaultMode")) == Null by {
      assert "defaultMode" != "modes";
    }
    InitSucceedsIff(config, []);
    assert !Open(config, ModePath("window", "dataLocation")) by {
      assert !Open(Number(5), ["window", "dataLocation"]);
      assert ModePath("window", "dataLocation")[1..] == ["window", "dataLocation"];
    }
  }

  lemma NumberForAppIdFails()
    ensures InitOnArgs(Object(map["applicationId" := Number(5)]), []) == None
  {
    var config := Object(map["applicationId" := Number(5)]);
    Paths("window");
    InitSucceedsIff(config, []);
    hide Init, AllOpen, Open;
    assert Get(config, ["applicationId"]) == Number(5);
  }

  lemma ArrayFails()
    ensures InitOnArgs(Array([]), []) == None
  {
    Paths("window");
    InitSucceedsIff(Array([]), []);
  }
}
