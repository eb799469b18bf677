// The command line as it is written: what each kind of argument makes the options read as, from
// the texts of the arguments through init.
module SettingsTexts {
  import opened Common
  import opened Json
  import opened Strings
  import opened SettingsTable
  import opened Settings
  import opened SettingsLookup
  import opened SettingsInit

  // setGlobalArgs on the command line and init after it.
  function InitOnTexts(config: Value, args: seq<string>, devTools: bool): Option<Prepared> {
    InitOnArgs(config, ConfigArgs(args, devTools))
  }

  predicate NoneAbout(args: seq<string>, t: Target) {
    forall i :: 0 <= i < |args| ==> TargetOf(ParseSpec(args[i])) != Some(t)
  }

  // ---------- From texts to overrides ----------

  lemma {:induction false} ConfigArgsAppend(a: seq<string>, b: seq<string>, devTools: bool)
    ensures ConfigArgs(a + b, devTools) == ConfigArgs(a, devTools) + ConfigArgs(b, devTools)
  {
    hide ParseSpec, Consumed;
    if a == [] {
      assert a + b == b;
    } else {
      assert (a + b)[1..] == a[1..] + b;
      ConfigArgsAppend(a[1..], b, devTools);
      Assoc(if Consumed(ParseSpec(a[0]).key, devTools) then [] else [ParseSpec(a[0])],
            ConfigArgs(a[1..], devTools), ConfigArgs(b, devTools));
    }
  }

  // The arguments that setGlobalArgs handles itself are no options.
  lemma ConsumedIsNoOption(key: string, devTools: bool)
    requires Consumed(key, devTools)
    ensures CliMapping(key) == None
  {
    ConsumedIsNoMode(key, devTools);
    ConsumedIsNoTop(key, devTools);
    hide Consumed, TopMapping1, TopMapping2, TopMapping3, ChromeMapping;
    hide WindowMapping1, WindowMapping2, WindowMapping3, WindowMapping4, WindowMapping5;
  }

  lemma ConsumedIsNoTop(key: string, devTools: bool)
    requires Consumed(key, devTools)
    ensures TopMapping1(key) == None && TopMapping2(key) == None && TopMapping3(key) == None
  {
  }

  lemma ConsumedIsNoMode(key: string, devTools: bool)
    requires Consumed(key, devTools)
    ensures WindowMapping1(key) == None && WindowMapping2(key) == None && WindowMapping3(key) == None
    ensures WindowMapping4(key) == None && WindowMapping5(key) == None && ChromeMapping(key) == None
  {
    assert |key| > 3 && key[2] != 'w' && key[3] != 'h';
    NoModeRow(key);
  }

  lemma ConfigArgsSplit(before: seq<string>, text: string, after: seq<string>, devTools: bool)
    requires CliMapping(ParseSpec(text).key).Some?
    ensures ConfigArgs(before + ([text] + after), devTools)
         == ConfigArgs(before, devTools) + ([ParseSpec(text)] + ConfigArgs(after, devTools))
  {
    hide ParseSpec, Consumed, CliMapping;
    if Consumed(ParseSpec(text).key, devTools) {
      ConsumedIsNoOption(ParseSpec(text).key, devTools);
    }
    ConfigArgsAppend(before, [text] + after, devTools);
    assert ([text] + after)[1..] == after;
  }

  lemma {:induction false} ConfigArgsAbout(args: seq<string>, t: Target, devTools: bool)
    requires NoneAbout(args, t)
    ensures forall i :: 0 <= i < |ConfigArgs(args, devTools)| ==> TargetOf(ConfigArgs(args, devTools)[i]) != Some(t)
  {
    hide ParseSpec, Consumed, TargetOf;
    if args != [] {
      ConfigArgsAbout(args[1..], t, devTools);
    }
  }

  // An argument about an option and what it stands for: its override is the one that counts, and
  // init fails when it does not convert.
  lemma LastTextCounts(config: Value, before: seq<string>, text: string, after: seq<string>, devTools: bool,
                       t: Target, o: Override)
    requires OverridesOf(ParseSpec(text)) != [] && OverridesOf(ParseSpec(text))[0] == o && o.target == t
    requires NoneAbout(after, t)
    ensures InTable(t)
    ensures var r := InitOnTexts(config, before + ([text] + after), devTools);
      && (Convert(o) == None ==> r == None)
      && (r.Some? ==>
            && Convert(o) == Some(Get(r.value.options, PathOf(t)))
            && (Aliased(t) ==> LookedUp(r.value.options, t) == Convert(o)))
  {
    var arg := ParseSpec(text);
    assert CliMapping(arg.key).Some? && TargetOf(arg) == Some(t);
    ArgPlaced(arg);
    ConfigArgsSplit(before, text, after, devTools);
    ConfigArgsAbout(after, t, devTools);
    var a, b := ConfigArgs(before, devTools), ConfigArgs(after, devTools);
    hide ParseSpec, ConfigArgs, OverridesOf, TargetOf, CliMapping, Aliased, PathOf, Get, WellPlaced, LookedUp, NoneAbout;
    LastOverrideOf(a, arg, b, t);
    OwnOverrideConverts(config, a, arg, b);
    if InitOnArgs(config, a + ([arg] + b)).Some? {
      ArgsPlaced(a + ([arg] + b));
      InitOptionsRead(config, AllOverrides(a + ([arg] + b)), t);
      if Aliased(t) {
        LastArgumentIsLookedUp(config, a, arg, b);
      }
    }
  }

  lemma OwnOverrideConverts(config: Value, before: seq<CliArg>, arg: CliArg, after: seq<CliArg>)
    requires OverridesOf(arg) != []
    ensures InitOnArgs(config, before + ([arg] + after)).Some? ==> Convert(OverridesOf(arg)[0]).Some?
  {
    var args := before + ([arg] + after);
    OverridesSplit(before, arg, after);
    ArgsPlaced(args);
    var a, b := AllOverrides(before), AllOverrides(after);
    hide OverridesOf, AllOverrides, Convert, Init, ModeOf, Reading, Open, ModePath;
    InitSucceedsIff(config, AllOverrides(args));
    assert (a + (OverridesOf(arg) + b))[|a|] == OverridesOf(arg)[0];
  }

  // ---------- The three kinds of option ----------

  lemma WrittenWithValue(key: string, value: string, m: Mapping)
    requires '=' !in key && key != "--mode" && CliMapping(key) == Some(m) && value != "" && '\n' !in value
    ensures OverridesOf(ParseSpec(key + ("=" + value))) != []
    ensures OverridesOf(ParseSpec(key + ("=" + value)))[0] == Override(m.target, value, m.convertTo)
  {
    ParseArgIff(key, value);
    hide ParseSpec, CliMapping, Aliased;
  }

  lemma WrittenBare(key: string, m: Mapping)
    requires '=' !in key && key != "--mode" && CliMapping(key) == Some(m)
    ensures OverridesOf(ParseSpec(key)) != []
    ensures OverridesOf(ParseSpec(key))[0]
         == Override(m.target, if m.convertTo == AsBool then "true" else "", m.convertTo)
  {
    FindIn(key, '=', "");
    assert ParseSpec(key) == CliArg(key, "");
    hide ParseSpec, CliMapping, Aliased;
  }

  lemma SignedIsOneLine(x: int)
    ensures Signed(x) != "" && '\n' !in Signed(x)
  {
    var n: nat := if x < 0 then -x else x;
    DecimalValue(n);
    hide Decimal;
    assert forall i :: 0 <= i < |Decimal(n)| ==> IsDigit(Decimal(n)[i]);
  }

  // "--key=12" or "--key=-12" for a number: the number, if it fits 32 bits; otherwise init fails.
  lemma NumberOption(config: Value, before: seq<string>, key: string, x: int, after: seq<string>, devTools: bool,
                     t: Target)
    requires '=' !in key && key != "--mode" && CliMapping(key) == Some(Mapping(t, AsInt)) && NoneAbout(after, t)
    ensures InTable(t)
    ensures var r := InitOnTexts(config, before + ([key + ("=" + Signed(x))] + after), devTools);
      && (x < -0x8000_0000 || 0x7fff_ffff < x ==> r == None)
      && (r.Some? ==>
            && Get(r.value.options, PathOf(t)) == Number(x)
            && (Aliased(t) ==> LookedUp(r.value.options, t) == Some(Number(x))))
  {
    SignedIsOneLine(x);
    WrittenWithValue(key, Signed(x), Mapping(t, AsInt));
    StoiOfSigned(x);
    var o := Override(t, Signed(x), AsInt);
    hide ParseSpec, OverridesOf, CliMapping, InitOnTexts, PathOf, Get, LookedUp, Aliased, WellPlaced, Signed, Stoi, NoneAbout;
    LastTextCounts(config, before, key + ("=" + Signed(x)), after, devTools, t, o);
  }

  // "--key" or "--key=text" for a switch: on without a text and for "true", off for any other.
  lemma SwitchOption(config: Value, before: seq<string>, key: string, value: Option<string>, after: seq<string>,
                     devTools: bool, t: Target)
    requires '=' !in key && key != "--mode" && CliMapping(key) == Some(Mapping(t, AsBool)) && NoneAbout(after, t)
    requires value.Some? ==> value.value != "" && '\n' !in value.value
    ensures InTable(t)
    ensures var text := if value == None then key else key + ("=" + value.value);
      var r := InitOnTexts(config, before + ([text] + after), devTools);
      var on := Bool(value == None || value.value == "true");
      r.Some? ==>
        && Get(r.value.options, PathOf(t)) == on
        && (Aliased(t) ==> LookedUp(r.value.options, t) == Some(on))
  {
    if value == None {
      WrittenBare(key, Mapping(t, AsBool));
      LastTextCounts(config, before, key, after, devTools, t, Override(t, "true", AsBool));
    } else {
      WrittenWithValue(key, value.value, Mapping(t, AsBool));
      LastTextCounts(config, before, key + ("=" + value.value), after, devTools, t, Override(t, value.value, AsBool));
    }
    hide ParseSpec, OverridesOf, CliMapping, InitOnTexts, PathOf, Get, LookedUp, Aliased, WellPlaced, NoneAbout;
  }

  // "--key=text" for a text: the text itself; "--key" alone is the empty text.
  lemma TextOption(config: Value, before: seq<string>, key: string, value: string, after: seq<string>,
                   devTools: bool, t: Target)
    requires '=' !in key && key != "--mode" && CliMapping(key) == Some(Mapping(t, AsString)) && NoneAbout(after, t)
    requires '\n' !in value
    ensures InTable(t)
    ensures var text := if value == "" then key else key + ("=" + value);
      var r := InitOnTexts(config, before + ([text] + after), devTools);
      r.Some? ==>
        && Get(r.value.options, PathOf(t)) == Text(value)
        && (Aliased(t) ==> LookedUp(r.value.options, t) == Some(Text(value)))
  {
    if value == "" {
      WrittenBare(key, Mapping(t, AsString));
      LastTextCounts(config, before, key, after, devTools, t, Override(t, "", AsString));
    } else {
      WrittenWithValue(key, value, Mapping(t, AsString));
      LastTextCounts(config, before, key + ("=" + value), after, devTools, t, Override(t, value, AsString));
    }
    hide ParseSpec, OverridesOf, CliMapping, InitOnTexts, PathOf, Get, LookedUp, Aliased, WellPlaced, NoneAbout;
  }

  // ---------- --mode, and arguments that are no options ----------

  lemma ModeWritten(mode: string)
    requires mode != "" && '\n' !in mode
    ensures ParseSpec("--mode=" + mode) == CliArg("--mode", mode)
    ensures OverridesOf(CliArg("--mode", mode))
         == if mode in ["window", "browser", "cloud", "chrome"] then [Override(Top("defaultMode"), mode, AsString)]
            else []
  {
    ParseArgIff("--mode", mode);
    assert "--mode=" + mode == "--mode" + ("=" + mode) && '=' !in "--mode";
    hide ParseSpec, OverridesOf;
    ModeOverride(mode);
  }

  lemma ModeOverride(mode: string)
    ensures OverridesOf(CliArg("--mode", mode))
         == if mode in ["window", "browser", "cloud", "chrome"] then [Override(Top("defaultMode"), mode, AsString)]
            else []
  {
    assert CliMapping("--mode") == Some(Mapping(Top("defaultMode"), AsString)) by {
      assert TopMapping1("--mode") == Some(Mapping(Top("defaultMode"), AsString));
      hide TopMapping2, TopMapping3;
    }
    assert !Aliased(Top("defaultMode"));
    hide CliMapping, Aliased;
  }

  // "--mode=" and one of the four modes sets the mode; any other text is as if it were not there.
  lemma ModeOption(config: Value, before: seq<string>, mode: string, after: seq<string>, devTools: bool)
    requires mode != "" && '\n' !in mode && NoneAbout(after, Top("defaultMode"))
    ensures var r := InitOnTexts(config, before + (["--mode=" + mode] + after), devTools);
      if mode in ["window", "browser", "cloud", "chrome"] then r.Some? ==> ModeName(r.value.options) == Some(mode)
      else r == InitOnTexts(config, before + after, devTools)
  {
    ModeWritten(mode);
    if mode in ["window", "browser", "cloud", "chrome"] {
      var o := Override(Top("defaultMode"), mode, AsString);
      assert PathOf(Top("defaultMode")) == ["defaultMode"];
      assert ModeOf(Text(mode)) == Some(mode);
      hide ParseSpec, OverridesOf, InitOnTexts, Get, LookedUp, Aliased, WellPlaced, NoneAbout, PathOf;
      LastTextCounts(config, before, "--mode=" + mode, after, devTools, Top("defaultMode"), o);
    } else {
      NoOverrides(config, before, "--mode=" + mode, after, devTools);
    }
  }

  // An argument that is no option is as if it were not there.
  lemma OtherText(config: Value, before: seq<string>, text: string, after: seq<string>, devTools: bool)
    requires CliMapping(ParseSpec(text).key) == None
    ensures InitOnTexts(config, before + ([text] + after), devTools) == InitOnTexts(config, before + after, devTools)
  {
    NoOverrides(config, before, text, after, devTools);
  }

  lemma NoOverrides(config: Value, before: seq<string>, text: string, after: seq<string>, devTools: bool)
    requires OverridesOf(ParseSpec(text)) == []
    ensures InitOnTexts(config, before + ([text] + after), devTools) == InitOnTexts(config, before + after, devTools)
  {
    var a, b := ConfigArgs(before, devTools), ConfigArgs(after, devTools);
    var mine := ConfigArgs([text], devTools);
    hide ParseSpec, OverridesOf, Consumed;
    ConfigArgsAppend(before, [text] + after, devTools);
    ConfigArgsAppend([text], after, devTools);
    ConfigArgsAppend(before, after, devTools);
    assert AllOverrides(mine) == [] by {
      assert [text][1..] == [];
    }
    AllOverridesAppend(a, mine + b);
    AllOverridesAppend(mine, b);
    AllOverridesAppend(a, b);
    assert [] + AllOverrides(b) == AllOverrides(b);
    hide AllOverrides, ConfigArgs, Init;
  }

  // ---------- Some options in full ----------

  lemma LookedUpTop(name: string)
    requires NameToken(name) && Aliased(Top(name)) && WellPlaced(Top(name))
    ensures forall options, v :: LookedUp(options, Top(name)) == Some(v) ==>
              Lookup(options, name).Some? && Lookup(options, name).value.0 == v
  {
    hide Lookup, Aliased, WellPlaced;
  }

  // "--port=n": the port is looked up as n in whichever mode is current, or init fails.
  lemma PortArgument(config: Value, before: seq<string>, n: nat, after: seq<string>, devTools: bool)
    requires NoneAbout(after, Top("port"))
    ensures var r := InitOnTexts(config, before + (["--port=" + Decimal(n)] + after), devTools);
      && (n > 0x7fff_ffff ==> r == None)
      && (r.Some? ==> Lookup(r.value.options, "port").Some? && Lookup(r.value.options, "port").value.0 == Number(n))
  {
    assert CliMapping("--port") == Some(Mapping(Top("port"), AsInt)) by {
      assert TopMapping1("--port") == Some(Mapping(Top("port"), AsInt));
      hide TopMapping2, TopMapping3;
    }
    assert "--port" + ("=" + Decimal(n)) == "--port=" + Decimal(n);
    AliasesAre(Top("port"), "window");
    hide CliMapping, InitOnTexts, Lookup, LookedUp, Aliased, NoneAbout, Decimal, Get, PathOf, WellPlaced, NameToken, InTable;
    NumberOption(config, before, "--port", n, after, devTools, Top("port"));
    LookedUpTop("port");
  }

  // "--enable-server", "--enable-server=true", and "--enable-server=" with any other text.
  lemma EnableServerArgument(config: Value, before: seq<string>, value: Option<string>, after: seq<string>, devTools: bool)
    requires NoneAbout(after, Top("enableServer"))
    requires value.Some? ==> value.value != "" && '\n' !in value.value
    ensures var text := if value == None then "--enable-server" else "--enable-server=" + value.value;
      var r := InitOnTexts(config, before + ([text] + after), devTools);
      r.Some? ==>
        && Lookup(r.value.options, "enableServer").Some?
        && Lookup(r.value.options, "enableServer").value.0 == Bool(value == None || value.value == "true")
  {
    EnableServerRow();
    assert value.Some? ==> "--enable-server" + ("=" + value.value) == "--enable-server=" + value.value;
    AliasesAre(Top("enableServer"), "window");
    hide CliMapping, InitOnTexts, Lookup, LookedUp, Aliased, NoneAbout, Get, PathOf, WellPlaced, NameToken, InTable;
    SwitchOption(config, before, "--enable-server", value, after, devTools, Top("enableServer"));
    LookedUpTop("enableServer");
  }

  lemma EnableServerRow()
    ensures CliMapping("--enable-server") == Some(Mapping(Top("enableServer"), AsBool))
  {
    assert TopMapping1("--enable-server") == None;
    assert TopMapping2("--enable-server") == Some(Mapping(Top("enableServer"), AsBool));
    hide TopMapping1, TopMapping2, TopMapping3;
  }

  // "--url=text"
  lemma UrlArgument(config: Value, before: seq<string>, url: string, after: seq<string>, devTools: bool)
    requires NoneAbout(after, Top("url")) && url != "" && '\n' !in url
    ensures var r := InitOnTexts(config, before + (["--url=" + url] + after), devTools);
      r.Some? ==> Lookup(r.value.options, "url").Some? && Lookup(r.value.options, "url").value.0 == Text(url)
  {
    assert CliMapping("--url") == Some(Mapping(Top("url"), AsString)) by {
      assert TopMapping1("--url") == Some(Mapping(Top("url"), AsString));
      hide TopMapping2, TopMapping3;
    }
    assert "--url" + ("=" + url) == "--url=" + url;
    AliasesAre(Top("url"), "window");
    hide CliMapping, InitOnTexts, Lookup, LookedUp, Aliased, NoneAbout, Get, PathOf, WellPlaced, NameToken, InTable;
    TextOption(config, before, "--url", url, after, devTools, Top("url"));
    LookedUpTop("url");
  }

  // "--window-x=x", which may be negative
  lemma WindowXArgument(config: Value, before: seq<string>, x: int, after: seq<string>, devTools: bool)
    requires NoneAbout(after, InMode("window", "x"))
    ensures var r := InitOnTexts(config, before + (["--window-x=" + Signed(x)] + after), devTools);
      && (x < -0x8000_0000 || 0x7fff_ffff < x ==> r == None)
      && (r.Some? ==> Get(r.value.options, ["modes", "window", "x"]) == Number(x))
  {
    WindowXRow();
    assert "--window-x" + ("=" + Signed(x)) == "--window-x=" + Signed(x);
    assert PathOf(InMode("window", "x")) == ["modes", "window", "x"];
    hide CliMapping, InitOnTexts, Aliased, NoneAbout, Signed, Get, PathOf;
    NumberOption(config, before, "--window-x", x, after, devTools, InMode("window", "x"));
  }

  lemma WindowXRow()
    ensures CliMapping("--window-x") == Some(Mapping(InMode("window", "x"), AsInt))
  {
    NoTopRow("--window-x");
    NoName1("--window-x");
    assert WindowMapping2("--window-x") == Some(Mapping(InMode("window", "x"), AsInt));
    hide TopMapping1, TopMapping2, TopMapping3, WindowMapping1, WindowMapping2;
  }
}
