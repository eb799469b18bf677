// The command-line options of settings::applyConfigOverride and the config paths they set.
module SettingsTable {
  import opened Common
  import opened Json

  datatype Conversion = AsString | AsInt | AsBool

  // The shapes of path that options are stored under.
  datatype Target =
    | Top(name: string)                        // /name
    | Logging(name: string)                    // /logging/name
    | InMode(mode: string, name: string)       // /modes/mode/name
    | ModeLogging(mode: string, name: string)  // /modes/mode/logging/name

  datatype Mapping = Mapping(target: Target, convertTo: Conversion)

  function PathOf(t: Target): Path {
    match t
    case Top(n) => [n]
    case Logging(n) => ["logging", n]
    case InMode(m, n) => ["modes", m, n]
    case ModeLogging(m, n) => ["modes", m, "logging", n]
  }

  const MODES: seq<string> := ["window", "browser", "cloud", "chrome"]

  predicate IsMode(m: string) {
    m == "window" || m == "browser" || m == "cloud" || m == "chrome"
  }

  // The names in cliMappingAliases.
  predicate AliasedTop(n: string) {
    || n == "port" || n == "url" || n == "documentRoot" || n == "enableServer" || n == "enableNativeAPI"
    || n == "singlePageServe" || n == "enableExtensions" || n == "exportAuthInfo"
  }

  predicate AliasedLogging(n: string) {
    n == "enabled" || n == "writeToLogFile"
  }

  predicate Aliased(t: Target) {
    (t.Top? && AliasedTop(t.name)) || (t.Logging? && AliasedLogging(t.name))
  }

  // "/modes/" + mode + key
  function AliasIn(mode: string, t: Target): Target
    requires Aliased(t)
  {
    if t.Top? then InMode(mode, t.name) else ModeLogging(mode, t.name)
  }

  // The table keeps the four shapes apart: no option is called "modes" or "logging", and no
  // option of one mode shares its name with an aliased one.
  predicate WellPlaced(t: Target) {
    && NameToken(t.name)
    && (t.Top? ==> t.name != "modes" && t.name != "logging")
    && (t.InMode? ==> IsMode(t.mode) && t.name != "logging")
    && (t.ModeLogging? ==> IsMode(t.mode))
  }

  predicate InTable(t: Target) {
    && WellPlaced(t) && !t.ModeLogging?
    && (t.Logging? ==> AliasedLogging(t.name))
    && (t.InMode? ==> !AliasedTop(t.name))
  }

  function Window(name: string, convertTo: Conversion): Option<Mapping> {
    Some(Mapping(InMode("window", name), convertTo))
  }

  function TopMapping1(key: string): Option<Mapping> {
    if key == "--mode" then Some(Mapping(Top("defaultMode"), AsString))
    else if key == "--url" then Some(Mapping(Top("url"), AsString))
    else if key == "--document-root" then Some(Mapping(Top("documentRoot"), AsString))
    else if key == "--port" then Some(Mapping(Top("port"), AsInt))
    else if key == "--logging-enabled" then Some(Mapping(Logging("enabled"), AsBool))
    else None
  }

  function TopMapping2(key: string): Option<Mapping> {
    if key == "--logging-write-to-log-file" then Some(Mapping(Logging("writeToLogFile"), AsBool))
    else if key == "--enable-server" then Some(Mapping(Top("enableServer"), AsBool))
    else if key == "--enable-native-api" then Some(Mapping(Top("enableNativeAPI"), AsBool))
    else if key == "--single-page-serve" then Some(Mapping(Top("singlePageServe"), AsBool))
    else None
  }

  function TopMapping3(key: string): Option<Mapping> {
    if key == "--enable-extensions" then Some(Mapping(Top("enableExtensions"), AsBool))
    else if key == "--export-auth-info" then Some(Mapping(Top("exportAuthInfo"), AsBool))
    else if key == "--data-location" then Some(Mapping(Top("dataLocation"), AsString))
    else if key == "--storage-location" then Some(Mapping(Top("storageLocation"), AsString))
    else None
  }

  function WindowMapping1(key: string): Option<Mapping> {
    if key == "--window-title" then Window("title", AsString)
    else if key == "--window-width" then Window("width", AsInt)
    else if key == "--window-height" then Window("height", AsInt)
    else if key == "--window-min-width" then Window("minWidth", AsInt)
    else if key == "--window-min-height" then Window("minHeight", AsInt)
    else if key == "--window-max-width" then Window("maxWidth", AsInt)
    else if key == "--window-max-height" then Window("maxHeight", AsInt)
    else None
  }

  function WindowMapping2(key: string): Option<Mapping> {
    if key == "--window-x" then Window("x", AsInt)
    else if key == "--window-y" then Window("y", AsInt)
    else if key == "--window-full-screen" then Window("fullScreen", AsBool)
    else if key == "--window-always-on-top" then Window("alwaysOnTop", AsBool)
    else if key == "--window-enable-inspector" then Window("enableInspector", AsBool)
    else if key == "--window-open-inspector-on-startup" then Window("openInspectorOnStartup", AsBool)
    else None
  }

  function WindowMapping3(key: string): Option<Mapping> {
    if key == "--window-borderless" then Window("borderless", AsBool)
    else if key == "--window-maximize" then Window("maximize", AsBool)
    else if key == "--window-hidden" then Window("hidden", AsBool)
    else if key == "--window-resizable" then Window("resizable", AsBool)
    else if key == "--window-maximizable" then Window("maximizable", AsBool)
    else None
  }

  function WindowMapping4(key: string): Option<Mapping> {
    if key == "--window-center" then Window("center", AsBool)
    else if key == "--window-transparent" then Window("transparent", AsBool)
    else if key == "--window-skip-taskbar" then Window("skipTaskbar", AsBool)
    else if key == "--window-exit-process-on-close" then Window("exitProcessOnClose", AsBool)
    else if key == "--window-use-saved-state" then Window("useSavedState", AsBool)
    else None
  }

  function WindowMapping5(key: string): Option<Mapping> {
    if key == "--window-icon" then Window("icon", AsString)
    else if key == "--window-extend-user-agent-with" then Window("extendUserAgentWith", AsString)
    else if key == "--window-inject-globals" then Window("injectGlobals", AsBool)
    else if key == "--window-inject-client-library" then Window("injectClientLibrary", AsBool)
    else if key == "--window-inject-script" then Window("injectScript", AsString)
    else None
  }

  function ChromeMapping(key: string): Option<Mapping> {
    if key == "--chrome-width" then Some(Mapping(InMode("chrome", "width"), AsInt))
    else if key == "--chrome-height" then Some(Mapping(InMode("chrome", "height"), AsInt))
    else if key == "--chrome-args" then Some(Mapping(InMode("chrome", "args"), AsString))
    else if key == "--chrome-browser-binary" then Some(Mapping(InMode("chrome", "browserBinary"), AsString))
    else None
  }

  // cliMappings.find(key)
  function CliMapping(key: string): Option<Mapping> {
    if TopMapping1(key).Some? then TopMapping1(key)
    else if TopMapping2(key).Some? then TopMapping2(key)
    else if TopMapping3(key).Some? then TopMapping3(key)
    else if WindowMapping1(key).Some? then WindowMapping1(key)
    else if WindowMapping2(key).Some? then WindowMapping2(key)
    else if WindowMapping3(key).Some? then WindowMapping3(key)
    else if WindowMapping4(key).Some? then WindowMapping4(key)
    else if WindowMapping5(key).Some? then WindowMapping5(key)
    else ChromeMapping(key)
  }

  // ---------- Placement ----------

  // A first letter settles most comparisons of names.
  predicate Starts(n: string, c: char) {
    n != "" && n[0] == c
  }

  lemma Letters(n: string)
    ensures n == "modes" ==> Starts(n, 'm')
    ensures n == "logging" ==> Starts(n, 'l')
    ensures AliasedTop(n) ==>
              Starts(n, 'p') || Starts(n, 'u') || Starts(n, 'd') || Starts(n, 'e') || Starts(n, 's')
  {
  }

  predicate SafeLetter(c: char) {
    'a' <= c <= 'z' && c != 'p' && c != 'u' && c != 'd' && c != 'e' && c != 's' && c != 'l'
  }

  lemma SafeInMode(m: string, n: string)
    requires IsMode(m) && n != "" && SafeLetter(n[0])
    ensures InTable(InMode(m, n))
  {
    Letters(n);
  }

  lemma SpecialInMode()
    ensures InTable(InMode("window", "enableInspector"))
    ensures InTable(InMode("window", "exitProcessOnClose"))
    ensures InTable(InMode("window", "extendUserAgentWith"))
    ensures InTable(InMode("window", "skipTaskbar"))
    ensures InTable(InMode("window", "useSavedState"))
  {
  }

  lemma TopRows1Placed(key: string)
    ensures TopMapping1(key).Some? ==> InTable(TopMapping1(key).value.target)
  {
  }

  lemma TopRows2Placed(key: string)
    ensures TopMapping2(key).Some? ==> InTable(TopMapping2(key).value.target)
  {
  }

  lemma TopRows3Placed(key: string)
    ensures TopMapping3(key).Some? ==> InTable(TopMapping3(key).value.target)
  {
  }

  lemma WindowRows1Placed(key: string)
    ensures WindowMapping1(key).Some? ==> InTable(WindowMapping1(key).value.target)
  {
    hide InTable, AliasedTop;
    var m := WindowMapping1(key);
    if m.Some? {
      var n := m.value.target.name;
      assert n != "" && SafeLetter(n[0]);
      SafeInMode("window", n);
    }
  }

  lemma WindowRows2Placed(key: string)
    ensures WindowMapping2(key).Some? ==> InTable(WindowMapping2(key).value.target)
  {
    SpecialInMode();
    hide InTable, AliasedTop;
    var m := WindowMapping2(key);
    if m.Some? {
      var n := m.value.target.name;
      if n != "enableInspector" {
        assert n != "" && SafeLetter(n[0]);
        SafeInMode("window", n);
      }
    }
  }

  lemma WindowRows3Placed(key: string)
    ensures WindowMapping3(key).Some? ==> InTable(WindowMapping3(key).value.target)
  {
    hide InTable, AliasedTop;
    var m := WindowMapping3(key);
    if m.Some? {
      var n := m.value.target.name;
      assert n != "" && SafeLetter(n[0]);
      SafeInMode("window", n);
    }
  }

  lemma WindowRows4Placed(key: string)
    ensures WindowMapping4(key).Some? ==> InTable(WindowMapping4(key).value.target)
  {
    SpecialInMode();
    hide InTable, AliasedTop;
    var m := WindowMapping4(key);
    if m.Some? {
      var n := m.value.target.name;
      if n != "exitProcessOnClose" && n != "skipTaskbar" && n != "useSavedState" {
        assert n != "" && SafeLetter(n[0]);
        SafeInMode("window", n);
      }
    }
  }

  lemma WindowRows5Placed(key: string)
    ensures WindowMapping5(key).Some? ==> InTable(WindowMapping5(key).value.target)
  {
    SpecialInMode();
    hide InTable, AliasedTop;
    var m := WindowMapping5(key);
    if m.Some? {
      var n := m.value.target.name;
      if n != "extendUserAgentWith" {
        assert n != "" && SafeLetter(n[0]);
        SafeInMode("window", n);
      }
    }
  }

  lemma ChromeRowsPlaced(key: string)
    ensures ChromeMapping(key).Some? ==> InTable(ChromeMapping(key).value.target)
  {
    hide InTable, AliasedTop;
    var m := ChromeMapping(key);
    if m.Some? {
      var n := m.value.target.name;
      assert n != "" && SafeLetter(n[0]);
      SafeInMode("chrome", n);
    }
  }

  lemma TablePlaced(key: string)
    ensures CliMapping(key).Some? ==> InTable(CliMapping(key).value.target)
  {
    hide InTable, TopMapping1, TopMapping2, TopMapping3, WindowMapping1, WindowMapping2, WindowMapping3, WindowMapping4, WindowMapping5, ChromeMapping;
    TopRows1Placed(key);
    TopRows2Placed(key);
    TopRows3Placed(key);
    WindowRows1Placed(key);
    WindowRows2Placed(key);
    WindowRows3Placed(key);
    WindowRows4Placed(key);
    WindowRows5Placed(key);
    ChromeRowsPlaced(key);
  }

  lemma NamePaths(t: Target)
    requires WellPlaced(t)
    ensures NamePath(PathOf(t)) && PathOf(t) != []
  {
  }

  // Two options are stored at the same path or at unrelated paths.
  lemma PlacesApart(t: Target, u: Target)
    requires WellPlaced(t) && WellPlaced(u) && t != u
    ensures Unrelated(PathOf(t), PathOf(u))
  {
    if PathOf(t) <= PathOf(u) {
      PrefixSame(t, u);
    }
    if PathOf(u) <= PathOf(t) {
      PrefixSame(u, t);
    }
  }

  lemma PrefixSame(t: Target, u: Target)
    requires WellPlaced(t) && WellPlaced(u) && PathOf(t) <= PathOf(u)
    ensures t == u
  {
    hide NameToken, IsMode;
    var p, q := PathOf(t), PathOf(u);
    assert "modes" != "logging";
    assert p[0] == q[0];
    if |p| >= 2 {
      assert p[1] == q[1];
    }
    if |p| >= 3 {
      assert p[2] == q[2];
    }
    if |p| >= 4 {
      assert p[3] == q[3];
    }
  }

  lemma AliasPlaced(mode: string, t: Target)
    requires Aliased(t) && InTable(t) && IsMode(mode)
    ensures WellPlaced(AliasIn(mode, t))
  {
    Letters(t.name);
    hide IsMode, AliasedTop;
  }

  // ---------- The table, row by row ----------

  // The option `key` is stored at `path` and converted by `c`.
  predicate Row(key: string, path: Path, c: Conversion) {
    CliMapping(key).Some? && PathOf(CliMapping(key).value.target) == path && CliMapping(key).value.convertTo == c
  }

  // No option of the first three groups is one of a mode, and the groups of window options differ
  // in the letters that their names start with.
  lemma NotTop1(key: string)
    requires |key| > 2 && (key[2] == 'w' || key[2] == 'c')
    ensures TopMapping1(key) == None
  {
  }

  lemma NotTop2(key: string)
    requires |key| > 2 && (key[2] == 'w' || key[2] == 'c')
    ensures TopMapping2(key) == None
  {
  }

  lemma NotTop3(key: string)
    requires |key| > 2 && (key[2] == 'w' || key[2] == 'c')
    ensures TopMapping3(key) == None
  {
  }

  lemma NotWindow1(key: string)
    requires |key| > 2 && key[2] == 'c'
    ensures WindowMapping1(key) == None
  {
  }

  lemma NotWindow2(key: string)
    requires |key| > 2 && key[2] == 'c'
    ensures WindowMapping2(key) == None
  {
  }

  lemma NotWindow3(key: string)
    requires |key| > 2 && key[2] == 'c'
    ensures WindowMapping3(key) == None
  {
  }

  lemma NotWindow4(key: string)
    requires |key| > 2 && key[2] == 'c'
    ensures WindowMapping4(key) == None
  {
  }

  lemma NotWindow5(key: string)
    requires |key| > 2 && key[2] == 'c'
    ensures WindowMapping5(key) == None
  {
  }

  lemma NoName1(key: string)
    requires |key| > 9 && key[9] != 't' && key[9] != 'w' && key[9] != 'h' && key[9] != 'm'
    ensures WindowMapping1(key) == None
  {
  }

  lemma NoName2(key: string)
    requires |key| > 9 && key[9] != 'x' && key[9] != 'y' && key[9] != 'f' && key[9] != 'a' && key[9] != 'e' && key[9] != 'o'
    ensures WindowMapping2(key) == None
  {
  }

  lemma NoName3(key: string)
    requires |key| > 9 && key[9] != 'b' && key[9] != 'm' && key[9] != 'h' && key[9] != 'r'
    ensures WindowMapping3(key) == None
  {
  }

  lemma NoName4(key: string)
    requires |key| > 9 && key[9] != 'c' && key[9] != 't' && key[9] != 's' && key[9] != 'e' && key[9] != 'u'
    ensures WindowMapping4(key) == None
  {
  }

  // The options of a mode start with "--window" and "--chrome".
  lemma NoModeRow(key: string)
    requires |key| > 3 && key[2] != 'w' && key[3] != 'h'
    ensures WindowMapping1(key) == None && WindowMapping2(key) == None && WindowMapping3(key) == None
    ensures WindowMapping4(key) == None && WindowMapping5(key) == None && ChromeMapping(key) == None
  {
    OfWindow1(key);
    OfWindow2(key);
    OfWindow3(key);
    OfWindow4(key);
    OfWindow5(key);
    OfChrome(key);
    hide WindowMapping1, WindowMapping2, WindowMapping3, WindowMapping4, WindowMapping5, ChromeMapping;
  }

  lemma OfWindow1(key: string)
    ensures WindowMapping1(key).Some? ==> |key| > 3 && key[2] == 'w'
  {
  }

  lemma OfWindow2(key: string)
    ensures WindowMapping2(key).Some? ==> |key| > 3 && key[2] == 'w'
  {
  }

  lemma OfWindow3(key: string)
    ensures WindowMapping3(key).Some? ==> |key| > 3 && key[2] == 'w'
  {
  }

  lemma OfWindow4(key: string)
    ensures WindowMapping4(key).Some? ==> |key| > 3 && key[2] == 'w'
  {
  }

  lemma OfWindow5(key: string)
    ensures WindowMapping5(key).Some? ==> |key| > 3 && key[2] == 'w'
  {
  }

  lemma OfChrome(key: string)
    ensures ChromeMapping(key).Some? ==> |key| > 3 && key[3] == 'h'
  {
  }

  lemma NoTopRow(key: string)
    requires |key| > 2 && (key[2] == 'w' || key[2] == 'c')
    ensures TopMapping1(key) == None && TopMapping2(key) == None && TopMapping3(key) == None
  {
    NotTop1(key);
    NotTop2(key);
    NotTop3(key);
  }

  lemma NoWindowRow(key: string)
    requires |key| > 2 && key[2] == 'c'
    ensures WindowMapping1(key) == None && WindowMapping2(key) == None && WindowMapping3(key) == None
    ensures WindowMapping4(key) == None && WindowMapping5(key) == None
  {
    NotWindow1(key);
    NotWindow2(key);
    NotWindow3(key);
    NotWindow4(key);
    NotWindow5(key);
  }

  lemma TopRows1()
    ensures Row("--mode", ["defaultMode"], AsString)
    ensures Row("--url", ["url"], AsString)
    ensures Row("--document-root", ["documentRoot"], AsString)
    ensures Row("--port", ["port"], AsInt)
    ensures Row("--logging-enabled", ["logging", "enabled"], AsBool)
  {
  }

  lemma TopRows2()
    ensures Row("--logging-write-to-log-file", ["logging", "writeToLogFile"], AsBool)
    ensures Row("--enable-server", ["enableServer"], AsBool)
    ensures Row("--enable-native-api", ["enableNativeAPI"], AsBool)
    ensures Row("--single-page-serve", ["singlePageServe"], AsBool)
  {
  }

  lemma TopRows3()
    ensures Row("--enable-extensions", ["enableExtensions"], AsBool)
    ensures Row("--export-auth-info", ["exportAuthInfo"], AsBool)
    ensures Row("--data-location", ["dataLocation"], AsString)
    ensures Row("--storage-location", ["storageLocation"], AsString)
  {
  }

  lemma WindowRows1a()
    ensures Row("--window-title", ["modes", "window", "title"], AsString)
    ensures Row("--window-width", ["modes", "window", "width"], AsInt)
    ensures Row("--window-height", ["modes", "window", "height"], AsInt)
    ensures Row("--window-min-width", ["modes", "window", "minWidth"], AsInt)
  {
    NoTopRow("--window-title");
    NoTopRow("--window-width");
    NoTopRow("--window-height");
    NoTopRow("--window-min-width");
    hide TopMapping1, TopMapping2, TopMapping3;
  }

  lemma WindowRows1b()
    ensures Row("--window-min-height", ["modes", "window", "minHeight"], AsInt)
    ensures Row("--window-max-width", ["modes", "window", "maxWidth"], AsInt)
    ensures Row("--window-max-height", ["modes", "window", "maxHeight"], AsInt)
  {
    NoTopRow("--window-min-height");
    NoTopRow("--window-max-width");
    NoTopRow("--window-max-height");
    hide TopMapping1, TopMapping2, TopMapping3;
  }

  lemma WindowRows2a()
    ensures Row("--window-x", ["modes", "window", "x"], AsInt)
    ensures Row("--window-y", ["modes", "window", "y"], AsInt)
  {
    NoTopRow("--window-x");
    NoName1("--window-x");
    NoTopRow("--window-y");
    NoName1("--window-y");
    hide TopMapping1, TopMapping2, TopMapping3, WindowMapping1;
  }

  lemma WindowRows2b()
    ensures Row("--window-full-screen", ["modes", "window", "fullScreen"], AsBool)
    ensures Row("--window-always-on-top", ["modes", "window", "alwaysOnTop"], AsBool)
  {
    NoTopRow("--window-full-screen");
    NoName1("--window-full-screen");
    NoTopRow("--window-always-on-top");
    NoName1("--window-always-on-top");
    hide TopMapping1, TopMapping2, TopMapping3, WindowMapping1;
  }

  lemma WindowRows2c()
    ensures Row("--window-enable-inspector", ["modes", "window", "enableInspector"], AsBool)
    ensures Row("--window-open-inspector-on-startup", ["modes", "window", "openInspectorOnStartup"], AsBool)
  {
    NoTopRow("--window-enable-inspector");
    NoName1("--window-enable-inspector");
    NoTopRow("--window-open-inspector-on-startup");
    NoName1("--window-open-inspector-on-startup");
    hide TopMapping1, TopMapping2, TopMapping3, WindowMapping1;
  }

  lemma WindowRows3a()
    ensures Row("--window-borderless", ["modes", "window", "borderless"], AsBool)
    ensures Row("--window-maximize", ["modes", "window", "maximize"], AsBool)
  {
    NoTopRow("--window-borderless");
    NoName1("--window-borderless");
    NoName2("--window-borderless");
    NoTopRow("--window-maximize");
    NoName2("--window-maximize");
    hide TopMapping1, TopMapping2, TopMapping3, WindowMapping2;
  }

  lemma WindowRows3b()
    ensures Row("--window-hidden", ["modes", "window", "hidden"], AsBool)
    ensures Row("--window-resizable", ["modes", "window", "resizable"], AsBool)
  {
    NoTopRow("--window-hidden");
    NoName2("--window-hidden");
    NoTopRow("--window-resizable");
    NoName1("--window-resizable");
    NoName2("--window-resizable");
    hide TopMapping1, TopMapping2, TopMapping3, WindowMapping2;
  }

  lemma WindowRows3c()
    ensures Row("--window-maximizable", ["modes", "window", "maximizable"], AsBool)
  {
    NoTopRow("--window-maximizable");
    NoName2("--window-maximizable");
    hide TopMapping1, TopMapping2, TopMapping3, WindowMapping2;
  }

  lemma WindowRows4a()
    ensures Row("--window-center", ["modes", "window", "center"], AsBool)
  {
    NoTopRow("--window-center");
    NoName1("--window-center");
    NoName2("--window-center");
    NoName3("--window-center");
    hide TopMapping1, TopMapping2, TopMapping3, WindowMapping1, WindowMapping2, WindowMapping3;
  }

  lemma WindowRows4b()
    ensures Row("--window-transparent", ["modes", "window", "transparent"], AsBool)
  {
    NoTopRow("--window-transparent");
    NoName2("--window-transparent");
    NoName3("--window-transparent");
    hide TopMapping1, TopMapping2, TopMapping3, WindowMapping2, WindowMapping3;
  }

  lemma WindowRows4c()
    ensures Row("--window-skip-taskbar", ["modes", "window", "skipTaskbar"], AsBool)
  {
    NoTopRow("--window-skip-taskbar");
    NoName1("--window-skip-taskbar");
    NoName2("--window-skip-taskbar");
    NoName3("--window-skip-taskbar");
    hide TopMapping1, TopMapping2, TopMapping3, WindowMapping1, WindowMapping2, WindowMapping3;
  }

  lemma WindowRows4d()
    ensures Row("--window-exit-process-on-close", ["modes", "window", "exitProcessOnClose"], AsBool)
  {
    NoTopRow("--window-exit-process-on-close");
    NoName1("--window-exit-process-on-close");
    NoName3("--window-exit-process-on-close");
    hide TopMapping1, TopMapping2, TopMapping3, WindowMapping1, WindowMapping3;
  }

  lemma WindowRows4e()
    ensures Row("--window-use-saved-state", ["modes", "window", "useSavedState"], AsBool)
  {
    NoTopRow("--window-use-saved-state");
    NoName1("--window-use-saved-state");
    NoName2("--window-use-saved-state");
    NoName3("--window-use-saved-state");
    hide TopMapping1, TopMapping2, TopMapping3, WindowMapping1, WindowMapping2, WindowMapping3;
  }

  lemma WindowRows5a()
    ensures Row("--window-icon", ["modes", "window", "icon"], AsString)
  {
    NoTopRow("--window-icon");
    NoName1("--window-icon");
    NoName2("--window-icon");
    NoName3("--window-icon");
    NoName4("--window-icon");
    hide TopMapping1, TopMapping2, TopMapping3, WindowMapping1, WindowMapping2, WindowMapping3, WindowMapping4;
  }

  lemma WindowRows5b()
    ensures Row("--window-extend-user-agent-with", ["modes", "window", "extendUserAgentWith"], AsString)
  {
    NoTopRow("--window-extend-user-agent-with");
    NoName1("--window-extend-user-agent-with");
    NoName3("--window-extend-user-agent-with");
    hide TopMapping1, TopMapping2, TopMapping3, WindowMapping1, WindowMapping3;
  }

  lemma WindowRows5c()
    ensures Row("--window-inject-globals", ["modes", "window", "injectGlobals"], AsBool)
  {
    NoTopRow("--window-inject-globals");
    NoName1("--window-inject-globals");
    NoName2("--window-inject-globals");
    NoName3("--window-inject-globals");
    NoName4("--window-inject-globals");
    hide TopMapping1, TopMapping2, TopMapping3, WindowMapping1, WindowMapping2, WindowMapping3, WindowMapping4;
  }

  lemma WindowRows5d()
    ensures Row("--window-inject-client-library", ["modes", "window", "injectClientLibrary"], AsBool)
  {
    NoTopRow("--window-inject-client-library");
    NoName1("--window-inject-client-library");
    NoName2("--window-inject-client-library");
    NoName3("--window-inject-client-library");
    NoName4("--window-inject-client-library");
    hide TopMapping1, TopMapping2, TopMapping3, WindowMapping1, WindowMapping2, WindowMapping3, WindowMapping4;
  }

  lemma WindowRows5e()
    ensures Row("--window-inject-script", ["modes", "window", "injectScript"], AsString)
  {
    NoTopRow("--window-inject-script");
    NoName1("--window-inject-script");
    NoName2("--window-inject-script");
    NoName3("--window-inject-script");
    NoName4("--window-inject-script");
    hide TopMapping1, TopMapping2, TopMapping3, WindowMapping1, WindowMapping2, WindowMapping3, WindowMapping4;
  }

  lemma ChromeRowsa()
    ensures Row("--chrome-width", ["modes", "chrome", "width"], AsInt)
    ensures Row("--chrome-height", ["modes", "chrome", "height"], AsInt)
  {
    NoTopRow("--chrome-width");
    NoWindowRow("--chrome-width");
    NoTopRow("--chrome-height");
    NoWindowRow("--chrome-height");
    hide TopMapping1, TopMapping2, TopMapping3;
    hide WindowMapping1, WindowMapping2, WindowMapping3, WindowMapping4, WindowMapping5;
  }

  lemma ChromeRowsb()
    ensures Row("--chrome-args", ["modes", "chrome", "args"], AsString)
    ensures Row("--chrome-browser-binary", ["modes", "chrome", "browserBinary"], AsString)
  {
    NoTopRow("--chrome-args");
    NoWindowRow("--chrome-args");
    NoTopRow("--chrome-browser-binary");
    NoWindowRow("--chrome-browser-binary");
    hide TopMapping1, TopMapping2, TopMapping3;
    hide WindowMapping1, WindowMapping2, WindowMapping3, WindowMapping4, WindowMapping5;
  }

  // The whole table, as it is written in the code.
  lemma TableRows()
    ensures Row("--mode", ["defaultMode"], AsString)
    ensures Row("--url", ["url"], AsString)
    ensures Row("--document-root", ["documentRoot"], AsString)
    ensures Row("--port", ["port"], AsInt)
    ensures Row("--logging-enabled", ["logging", "enabled"], AsBool)
    ensures Row("--logging-write-to-log-file", ["logging", "writeToLogFile"], AsBool)
    ensures Row("--enable-server", ["enableServer"], AsBool)
    ensures Row("--enable-native-api", ["enableNativeAPI"], AsBool)
    ensures Row("--single-page-serve", ["singlePageServe"], AsBool)
    ensures Row("--enable-extensions", ["enableExtensions"], AsBool)
    ensures Row("--export-auth-info", ["exportAuthInfo"], AsBool)
    ensures Row("--data-location", ["dataLocation"], AsString)
    ensures Row("--storage-location", ["storageLocation"], AsString)
    ensures Row("--window-title", ["modes", "window", "title"], AsString)
    ensures Row("--window-width", ["modes", "window", "width"], AsInt)
    ensures Row("--window-height", ["modes", "window", "height"], AsInt)
    ensures Row("--window-min-width", ["modes", "window", "minWidth"], AsInt)
    ensures Row("--window-min-height", ["modes", "window", "minHeight"], AsInt)
    ensures Row("--window-max-width", ["modes", "window", "maxWidth"], AsInt)
    ensures Row("--window-max-height", ["modes", "window", "maxHeight"], AsInt)
    ensures Row("--window-x", ["modes", "window", "x"], AsInt)
    ensures Row("--window-y", ["modes", "window", "y"], AsInt)
    ensures Row("--window-full-screen", ["modes", "window", "fullScreen"], AsBool)
    ensures Row("--window-always-on-top", ["modes", "window", "alwaysOnTop"], AsBool)
    ensures Row("--window-enable-inspector", ["modes", "window", "enableInspector"], AsBool)
    ensures Row("--window-open-inspector-on-startup", ["modes", "window", "openInspectorOnStartup"], AsBool)
    ensures Row("--window-borderless", ["modes", "window", "borderless"], AsBool)
    ensures Row("--window-maximize", ["modes", "window", "maximize"], AsBool)
    ensures Row("--window-hidden", ["modes", "window", "hidden"], AsBool)
    ensures Row("--window-resizable", ["modes", "window", "resizable"], AsBool)
    ensures Row("--window-maximizable", ["modes", "window", "maximizable"], AsBool)
    ensures Row("--window-center", ["modes", "window", "center"], AsBool)
    ensures Row("--window-transparent", ["modes", "window", "transparent"], AsBool)
    ensures Row("--window-skip-taskbar", ["modes", "window", "skipTaskbar"], AsBool)
    ensures Row("--window-exit-process-on-close", ["modes", "window", "exitProcessOnClose"], AsBool)
    ensures Row("--window-use-saved-state", ["modes", "window", "useSavedState"], AsBool)
    ensures Row("--window-icon", ["modes", "window", "icon"], AsString)
    ensures Row("--window-extend-user-agent-with", ["modes", "window", "extendUserAgentWith"], AsString)
    ensures Row("--window-inject-globals", ["modes", "window", "injectGlobals"], AsBool)
    ensures Row("--window-inject-client-library", ["modes", "window", "injectClientLibrary"], AsBool)
    ensures Row("--window-inject-script", ["modes", "window", "injectScript"], AsString)
    ensures Row("--chrome-width", ["modes", "chrome", "width"], AsInt)
    ensures Row("--chrome-height", ["modes", "chrome", "height"], AsInt)
    ensures Row("--chrome-args", ["modes", "chrome", "args"], AsString)
    ensures Row("--chrome-browser-binary", ["modes", "chrome", "browserBinary"], AsString)
  {
    TopRows1();
    TopRows2();
    TopRows3();
    WindowRows1a();
    WindowRows1b();
    WindowRows2a();
    WindowRows2b();
    WindowRows2c();
    WindowRows3a();
    WindowRows3b();
    WindowRows3c();
    WindowRows4a();
    WindowRows4b();
    WindowRows4c();
    WindowRows4d();
    WindowRows4e();
    WindowRows5a();
    WindowRows5b();
    WindowRows5c();
    WindowRows5d();
    WindowRows5e();
    ChromeRowsa();
    ChromeRowsb();
    hide Row;
  }

  // The ten options with an alias in every mode, and where the alias is.
  lemma AliasesAre(t: Target, mode: string)
    ensures Aliased(t) <==>
              !t.InMode? && !t.ModeLogging?
              && (|| PathOf(t) == ["port"] || PathOf(t) == ["url"] || PathOf(t) == ["documentRoot"]
                  || PathOf(t) == ["enableServer"] || PathOf(t) == ["enableNativeAPI"] || PathOf(t) == ["singlePageServe"]
                  || PathOf(t) == ["enableExtensions"] || PathOf(t) == ["exportAuthInfo"]
                  || PathOf(t) == ["logging", "enabled"] || PathOf(t) == ["logging", "writeToLogFile"])
    ensures Aliased(t) ==> PathOf(AliasIn(mode, t)) == ["modes", mode] + PathOf(t)
  {
    assert t.Top? ==> PathOf(t)[0] == t.name && |PathOf(t)| == 1;
    assert t.Logging? ==> PathOf(t)[0] == "logging" && PathOf(t)[1] == t.name && |PathOf(t)| == 2;
  }
}
