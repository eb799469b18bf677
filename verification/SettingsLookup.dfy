// Looking options up and setting the port: getMode, getOptionForCurrentMode and setPort of
// settings.cpp.
module SettingsLookup {
  import opened Common
  import opened Json
  import opened SettingsTable
  import opened Settings

  // appModeToStr(getMode()); None where get<string>() throws.
  function ModeName(options: Value): Option<string> {
    ModeOf(Get(options, ["defaultMode"]))
  }

  // The mode that a value of "defaultMode" stands for.
  function ModeOf(v: Value): Option<string> {
    match v
    case Null => Some("window")
    case Text(s) => Some(if IsMode(s) then s else "window")
    case _ => None
  }

  function ModePath(mode: string, key: string): Path {
    ["modes", mode, key]
  }

  // getOptionForCurrentMode: the value, and the options as the inserting operator[] leaves them.
  function Lookup(options: Value, key: string): Option<(Value, Value)>
    requires NameToken(key)
  {
    var mode := ModeName(options);
    var t0 := Touch(options, ["defaultMode"]);
    if t0 == None || mode == None then None
    else
      ModeIsName(options);
      var t1 := Touch(t0.value, ModePath(mode.value, key));
      if t1 == None then None
      else
        var v := Get(t1.value, ModePath(mode.value, key));
        if v != Null then Some((v, t1.value))
        else
          var t2 := Touch(t1.value, [key]);
          if t2 == None then None else Some((Get(t2.value, [key]), t2.value))
  }

  // The mode in the options: absent or unknown it is "window", and only a text can be one.
  lemma ModesAre(options: Value)
    ensures var v := Get(options, ["defaultMode"]);
      && (v.Null? ==> ModeName(options) == Some("window"))
      && (v.Text? && v.s in ["window", "browser", "cloud", "chrome"] ==> ModeName(options) == Some(v.s))
      && (v.Text? && v.s !in ["window", "browser", "cloud", "chrome"] ==> ModeName(options) == Some("window"))
      && (!v.Null? && !v.Text? ==> ModeName(options) == None)
  {
  }

  lemma ModeIsName(options: Value)
    ensures ModeName(options).Some? ==> IsMode(ModeName(options).value) && NameToken(ModeName(options).value)
  {
  }

  lemma NoPrefix(key: string, mode: string, q: Path)
    requires q != [] && q != ["modes"] && q != ["modes", mode]
    ensures !(q <= ["defaultMode"]) || q == ["defaultMode"]
    ensures !(q <= ModePath(mode, key)) || q == ModePath(mode, key)
    ensures !(q <= [key]) || q == [key]
  {
    var p := ModePath(mode, key);
    if q <= p {
      assert q == p[..|q|];
      assert p[..1] == ["modes"] && p[..2] == ["modes", mode] && p[..3] == p;
    }
  }

  // Mode, then root, then null; and looking up changes nothing that can be read, except that
  // the containers on the way may appear. The root's "modes" is read with these containers in it.
  lemma LookupReads(options: Value, key: string)
    requires NameToken(key) && Lookup(options, key).Some?
    ensures ModeName(options).Some?
    ensures var mode := ModeName(options).value; var (v, after) := Lookup(options, key).value;
      && v == (if Get(options, ["modes", mode, key]) != Null then Get(options, ["modes", mode, key])
               else Get(if key == "modes" then after else options, [key]))
      && forall q :: q != [] && q != ["modes"] && q != ["modes", mode] ==> Get(after, q) == Get(options, q)
  {
    ModeIsName(options);
    var mode := ModeName(options).value;
    var p := ModePath(mode, key);
    assert NamePath(["defaultMode"]) && NamePath(p) && NamePath([key]);
    assert [key] != [] && (key == "modes" || [key] != ["modes"]) && [key] != ["modes", mode] by {
      assert [key][0] == key && |[key]| == 1;
    }
    hide Get, Touch, NameToken, ModeName, NamePath;
    var t0 := Touch(options, ["defaultMode"]).value;
    var t1 := Touch(t0, p).value;
    forall q | q != [] && q != ["modes"] && q != ["modes", mode]
      ensures Get(t1, q) == Get(options, q)
      ensures Touch(t1, [key]).Some? ==> Get(Touch(t1, [key]).value, q) == Get(options, q)
    {
      NoPrefix(key, mode, q);
      TouchFrame(options, ["defaultMode"], q);
      TouchFrame(t0, p, q);
      if Touch(t1, [key]).Some? {
        TouchFrame(t1, [key], q);
      }
    }
    if Touch(t1, [key]).Some? {
      TouchMaterialises(t1, [key]);
    }
    TouchMaterialises(t0, p);
    assert p[0] == "modes" && |p| == 3;
    NotContainer(key, mode);
    if key != "modes" {
      assert Touch(t1, [key]).Some? ==> Get(Touch(t1, [key]).value, [key]) == Get(options, [key]);
    }
  }

  lemma NotContainer(key: string, mode: string)
    ensures ModePath(mode, key) != [] && ModePath(mode, key) != ["modes"] && ModePath(mode, key) != ["modes", mode]
  {
    assert |ModePath(mode, key)| == 3;
  }

  // A lookup fails exactly when the mode is not a string, or a scalar or array stands where the
  // mode's options should be.
  lemma LookupSucceedsIff(options: Value, key: string)
    requires NameToken(key)
    ensures Lookup(options, key).Some? <==>
            ModeName(options).Some? && Open(options, ["modes", ModeName(options).value, key])
  {
    hide Get;
    TouchSucceeds(options, ["defaultMode"]);
    ModeIsName(options);
    if ModeName(options).Some? && Touch(options, ["defaultMode"]).Some? {
      var p := ModePath(ModeName(options).value, key);
      var t0 := Touch(options, ["defaultMode"]).value;
      TouchKeepsShape(options, ["defaultMode"], p);
      TouchSucceeds(t0, p);
      if Touch(t0, p).Some? {
        TouchSucceeds(Touch(t0, p).value, [key]);
      }
    }
  }

  // ---------- Aliased options read back ----------

  lemma {:induction false} VisibleIsOpen(j: Value, p: Path)
    requires Get(j, p) != Null
    ensures Open(j, p)
    decreases |p|
  {
    if p != [] {
      VisibleIsOpen(j.fields[p[0]], p[1..]);
    }
  }

  // What a lookup of an aliased option gives: its own, or a member of the logging options.
  function LookedUp(options: Value, t: Target): Option<Value>
    requires Aliased(t) && WellPlaced(t)
  {
    assert NameToken("logging");
    var l := Lookup(options, if t.Top? then t.name else "logging");
    if l == None then None else Some(if t.Top? then l.value.0 else Get(l.value.0, [t.name]))
  }

  // An option set both in the root and in every mode reads the same in whichever mode is current.
  lemma AliasedReadsBack(options: Value, t: Target, v: Value)
    requires Aliased(t) && WellPlaced(t) && v != Null && ModeName(options).Some?
    requires forall m :: 0 <= m < |MODES| ==> Get(options, PathOf(AliasIn(MODES[m], t))) == v
    ensures LookedUp(options, t) == Some(v)
  {
    AliasedLookups(options, t, v);
    hide ModeName, Get, Lookup, WellPlaced, PathOf;
  }

  lemma AliasedLookups(options: Value, t: Target, v: Value)
    requires Aliased(t) && WellPlaced(t) && v != Null && ModeName(options).Some?
    requires forall m :: 0 <= m < |MODES| ==> Get(options, PathOf(AliasIn(MODES[m], t))) == v
    ensures t.Top? ==> Lookup(options, t.name).Some? && Lookup(options, t.name).value.0 == v
    ensures t.Logging? ==> Lookup(options, "logging").Some?
                           && Get(Lookup(options, "logging").value.0, [t.name]) == v
  {
    ModeIsName(options);
    var mode := ModeName(options).value;
    assert exists m :: 0 <= m < |MODES| && MODES[m] == mode by {
      assert MODES[0] == "window" && MODES[1] == "browser" && MODES[2] == "cloud" && MODES[3] == "chrome";
    }
    var q := PathOf(AliasIn(mode, t));
    assert t.Top? ==> q == ModePath(mode, t.name) && NameToken(t.name) && t.name != "modes";
    assert t.Logging? ==> q == ModePath(mode, "logging") + [t.name];
    assert "logging" != "modes" && NameToken("logging");
    hide ModeName, Get, Lookup, Open, IsMode, Aliased, WellPlaced, NameToken, PathOf, ModePath;
    assert Get(options, q) == v;
    if t.Top? {
      VisibleIsOpen(options, q);
      LookupSucceedsIff(options, t.name);
      LookupReads(options, t.name);
    } else {
      GetAppend(options, ModePath(mode, "logging"), [t.name]);
      GetNull([t.name]);
      VisibleIsOpen(options, ModePath(mode, "logging"));
      LookupSucceedsIff(options, "logging");
      LookupReads(options, "logging");
    }
  }

  // ---------- setPort ----------

  // options[p] = v with an inserting operator[].
  function Assign(options: Value, p: Path, v: Value): Option<Value>
    requires NamePath(p)
  {
    var t := Touch(options, p);
    if t == None then None
    else
      TouchMaterialises(options, p);
      Some(SetAt(t.value, p, v))
  }

  predicate AllModes(modes: seq<string>) {
    forall i :: 0 <= i < |modes| ==> IsMode(modes[i])
  }

  lemma AllModesOfTable()
    ensures AllModes(MODES)
  {
  }

  function AssignModes(options: Value, modes: seq<string>, v: Value): Option<Value>
    requires AllModes(modes)
    decreases |modes|
  {
    if modes == [] then Some(options)
    else
      PortPaths(modes[0]);
      var next := Assign(options, ModePath(modes[0], "port"), v);
      if next == None then None else AssignModes(next.value, modes[1..], v)
  }

  function SetPortSpec(options: Value, port: int): Option<Value> {
    var root := Assign(options, ["port"], Number(port));
    AllModesOfTable();
    if root == None then None else AssignModes(root.value, MODES, Number(port))
  }

  lemma AssignReads(options: Value, p: Path, v: Value)
    requires NamePath(p) && Assign(options, p, v).Some?
    ensures Get(Assign(options, p, v).value, p) == v
  {
    TouchMaterialises(options, p);
    SetReads(Touch(options, p).value, p, v);
  }

  lemma AssignFrame(options: Value, p: Path, v: Value, q: Path)
    requires NamePath(p) && Assign(options, p, v).Some? && Unrelated(p, q)
    ensures Get(Assign(options, p, v).value, q) == Get(options, q)
  {
    TouchMaterialises(options, p);
    TouchFrame(options, p, q);
    SetFrame(Touch(options, p).value, p, v, q);
  }

  lemma PortPaths(m: string)
    requires IsMode(m)
    ensures NamePath(ModePath(m, "port"))
    ensures ModePath(m, "port") == PathOf(InMode(m, "port"))
    ensures WellPlaced(InMode(m, "port")) && WellPlaced(Top("port")) && WellPlaced(Top("defaultMode"))
  {
  }

  lemma {:induction false} AssignModesReads(options: Value, modes: seq<string>, v: Value, k: nat)
    requires AllModes(modes)
    requires AssignModes(options, modes, v).Some? && k < |modes|
    requires forall i :: k < i < |modes| ==> modes[i] != modes[k]
    ensures Get(AssignModes(options, modes, v).value, ModePath(modes[k], "port")) == v
    decreases |modes|
  {
    var p := ModePath(modes[0], "port");
    PortPaths(modes[0]);
    hide Get, Assign, ModePath, IsMode, WellPlaced;
    var next := Assign(options, p, v).value;
    if k == 0 {
      AssignReads(options, p, v);
      forall i | 0 <= i < |modes[1..]| ensures modes[1..][i] != modes[0] {
        assert modes[1..][i] == modes[i + 1];
      }
      AssignModesFrame(next, modes[1..], v, InMode(modes[0], "port"));
    } else {
      AssignModesReads(next, modes[1..], v, k - 1);
    }
  }

  lemma {:induction false} AssignModesFrame(options: Value, modes: seq<string>, v: Value, t: Target)
    requires AllModes(modes)
    requires AssignModes(options, modes, v).Some? && WellPlaced(t)
    requires forall i :: 0 <= i < |modes| ==> t != InMode(modes[i], "port")
    ensures Get(AssignModes(options, modes, v).value, PathOf(t)) == Get(options, PathOf(t))
    decreases |modes|
  {
    if modes != [] {
      PortPaths(modes[0]);
      PlacesApart(InMode(modes[0], "port"), t);
      hide Get, Assign, ModePath, IsMode, WellPlaced, PathOf;
      AssignFrame(options, ModePath(modes[0], "port"), v, PathOf(t));
      AssignModesFrame(Assign(options, ModePath(modes[0], "port"), v).value, modes[1..], v, t);
    }
  }

  // An option that setPort does not write.
  predicate NotPort(t: Target) {
    WellPlaced(t) && t != Top("port") && !(t.InMode? && t.name == "port")
  }

  lemma SetPortFrame(options: Value, port: int, t: Target)
    requires SetPortSpec(options, port).Some? && NotPort(t)
    ensures Get(SetPortSpec(options, port).value, PathOf(t)) == Get(options, PathOf(t))
  {
    hide Get, Assign, AssignModes, WellPlaced, PathOf, AllModes, NamePath, IsMode, NameToken;
    PortRoot();
    AllModesOfTable();
    PlacesApart(Top("port"), t);
    AssignFrame(options, ["port"], Number(port), PathOf(t));
    AssignModesFrame(Assign(options, ["port"], Number(port)).value, MODES, Number(port), t);
  }

  lemma PortRoot()
    ensures NamePath(["port"]) && PathOf(Top("port")) == ["port"] && WellPlaced(Top("port"))
  {
    PortPaths("window");
  }

  lemma SetPortInMode(options: Value, port: int, m: nat)
    requires SetPortSpec(options, port).Some? && m < |MODES|
    ensures Get(SetPortSpec(options, port).value, ModePath(MODES[m], "port")) == Number(port)
  {
    AllModesOfTable();
    hide Get, Assign, AssignModes, WellPlaced, IsMode, ModePath, AllModes;
    forall i | m < i < |MODES| ensures MODES[i] != MODES[m] {
      if MODES[i] == MODES[m] {
        ModesDistinct(i, m);
      }
    }
    AssignModesReads(Assign(options, ["port"], Number(port)).value, MODES, Number(port), m);
  }

  // setPort succeeds exactly when the options are open to the port, in the root and in every mode.
  lemma SetPortSucceedsIff(options: Value, port: int)
    ensures SetPortSpec(options, port).Some? <==>
            Open(options, ["port"]) && forall m :: 0 <= m < |MODES| ==> Open(options, ModePath(MODES[m], "port"))
  {
    PortRoot();
    AllModesOfTable();
    AssignSucceedsIff(options, ["port"], Number(port));
    if Assign(options, ["port"], Number(port)).Some? {
      var next := Assign(options, ["port"], Number(port)).value;
      hide Assign, AssignModes, Open, ModePath, WellPlaced, PathOf, IsMode, AllModes;
      AssignModesSucceedsIff(next, MODES, Number(port));
      forall m | 0 <= m < |MODES|
        ensures Open(next, ModePath(MODES[m], "port")) <==> Open(options, ModePath(MODES[m], "port"))
      {
        ModeOfTable(m);
        PortPaths(MODES[m]);
        PlacesApart(Top("port"), InMode(MODES[m], "port"));
        AssignKeepsOpen(options, ["port"], Number(port), ModePath(MODES[m], "port"));
      }
    }
  }

  lemma ModeOfTable(m: nat)
    requires m < |MODES|
    ensures IsMode(MODES[m])
  {
  }

  lemma AssignSucceedsIff(options: Value, p: Path, v: Value)
    requires NamePath(p)
    ensures Assign(options, p, v).Some? <==> Open(options, p)
  {
    TouchSucceeds(options, p);
  }

  // An assignment opens or closes no path, except below its target.
  lemma AssignKeepsOpen(options: Value, p: Path, v: Value, q: Path)
    requires NamePath(p) && Assign(options, p, v).Some? && (q == p || Unrelated(p, q))
    ensures Open(Assign(options, p, v).value, q) <==> Open(options, q)
  {
    TouchMaterialises(options, p);
    TouchKeepsShape(options, p, q);
    var t := Touch(options, p).value;
    if q == p {
      SetReads(t, p, v);
      ExistingIsOpen(t, p);
      ExistingIsOpen(SetAt(t, p, v), p);
    } else {
      SetFrame(t, p, v, q);
    }
  }

  lemma {:induction false} AssignModesSucceedsIff(options: Value, modes: seq<string>, v: Value)
    requires AllModes(modes)
    ensures AssignModes(options, modes, v).Some? <==>
            forall m :: 0 <= m < |modes| ==> Open(options, ModePath(modes[m], "port"))
    decreases |modes|
  {
    if modes != [] {
      PortPaths(modes[0]);
      var p := ModePath(modes[0], "port");
      AssignSucceedsIff(options, p, v);
      if Assign(options, p, v).Some? {
        var next := Assign(options, p, v).value;
        hide Assign, Open, ModePath, WellPlaced, PathOf;
        AssignModesSucceedsIff(next, modes[1..], v);
        forall m | 1 <= m < |modes|
          ensures modes[1..][m - 1] == modes[m]
          ensures Open(next, ModePath(modes[m], "port")) <==> Open(options, ModePath(modes[m], "port"))
        {
          PortPaths(modes[m]);
          if modes[m] != modes[0] {
            PlacesApart(InMode(modes[0], "port"), InMode(modes[m], "port"));
          }
          AssignKeepsOpen(options, p, v, ModePath(modes[m], "port"));
        }
      }
    }
  }

  // After setPort the port reads as set in whichever mode is current, and no other option and
  // not the mode itself changed.
  lemma SetPortReads(options: Value, port: int)
    requires SetPortSpec(options, port).Some? && ModeName(options).Some?
    ensures ModeName(SetPortSpec(options, port).value) == ModeName(options)
    ensures Lookup(SetPortSpec(options, port).value, "port").Some?
    ensures Lookup(SetPortSpec(options, port).value, "port").value.0 == Number(port)
    ensures forall t :: NotPort(t) ==>
              Get(SetPortSpec(options, port).value, PathOf(t)) == Get(options, PathOf(t))
  {
    hide Lookup, SetPortSpec, PathOf, NotPort, WellPlaced, ModeName, Get, ModePath, Aliased, IsMode, NameToken;
    SetPortKeepsMode(options, port);
    PortRoot();
    PortIsAliased();
    var after := SetPortSpec(options, port).value;
    forall t | NotPort(t) ensures Get(after, PathOf(t)) == Get(options, PathOf(t)) {
      SetPortFrame(options, port, t);
    }
    forall m | 0 <= m < |MODES|
      ensures Get(after, PathOf(AliasIn(MODES[m], Top("port")))) == Number(port)
    {
      SetPortInMode(options, port, m);
      PortAlias(m);
    }
    AliasedLookups(after, Top("port"), Number(port));
  }

  lemma SetPortKeepsMode(options: Value, port: int)
    requires SetPortSpec(options, port).Some?
    ensures ModeName(SetPortSpec(options, port).value) == ModeName(options)
  {
    hide SetPortSpec, PathOf, NotPort, WellPlaced, Get, IsMode, NameToken;
    DefaultModeApart();
    SetPortFrame(options, port, Top("defaultMode"));
  }

  lemma PortIsAliased()
    ensures Aliased(Top("port"))
  {
  }

  lemma PortAlias(m: nat)
    requires m < |MODES|
    ensures PathOf(AliasIn(MODES[m], Top("port"))) == ModePath(MODES[m], "port")
  {
  }

  lemma DefaultModeApart()
    ensures NotPort(Top("defaultMode")) && PathOf(Top("defaultMode")) == ["defaultMode"]
  {
    PortPaths("window");
    hide WellPlaced;
    assert |"defaultMode"| != |"port"|;
  }
}
