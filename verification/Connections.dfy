// The WebSocket connections of server/neuserver.cpp: which connections the three maps hold, over
// every run of validate, open, message and close callbacks.
module Connections {
  import opened Common
  import opened ConnectionUrl

  // A websocketpp::connection_hdl.
  type Handle = nat

  datatype Opcode = TextFrame | BinaryFrame | OtherFrame

  // ---------- The callbacks on the three maps ----------

  datatype Maps = Maps(app: set<Handle>, ext: map<string, Handle>, mode: map<Handle, Opcode>)

  // handleValidate. `cloud` is the mode, `token` the expected connect token.
  predicate Accepts(url: string, host: string, cloud: bool, token: string, loaded: set<string>) {
    && (host == "localhost" || host == "127.0.0.1" || cloud)
    && HasConnectToken(url)
    && ParamValue(url, "connectToken=") == token
    && (IsExtension(url) ==> ExtensionId(url) in loaded)
  }

  function Connect(m: Maps, h: Handle, url: string): Maps {
    if IsExtension(url) then m.(ext := m.ext[ExtensionId(url) := h]) else m.(app := m.app + {h})
  }

  function Receive(m: Maps, h: Handle, url: string, op: Opcode): Maps {
    if IsExtension(url) && h !in m.mode && op != OtherFrame then m.(mode := m.mode[h := op]) else m
  }

  function Disconnect(m: Maps, h: Handle, url: string): Maps {
    var m' := m.(mode := m.mode - {h});
    if IsExtension(url) then m'.(ext := m.ext - {ExtensionId(url)}) else m'.(app := m.app - {h})
  }

  // An extension whose URL carries its id and a token: the handshake is accepted exactly from the
  // local host, or in cloud mode, with the right token and for a loaded extension; the entry is
  // made and removed under this id.
  lemma ExtensionHandshake(url: string, idPre: string, id: string, idRest: string,
                           tokenPre: string, sent: string, tokenRest: string,
                           host: string, cloud: bool, token: string, loaded: set<string>, m: Maps, h: Handle)
    requires '\n' !in url && '\r' !in url
    requires url == idPre + ("extensionId=" + (id + idRest)) == tokenPre + ("connectToken=" + (sent + tokenRest))
    requires id != "" && (forall i :: 0 <= i < |id| ==> ValueChar(id[i])) && (idRest != "" ==> !ValueChar(idRest[0]))
    requires sent != "" && (forall i :: 0 <= i < |sent| ==> ValueChar(sent[i]))
    requires tokenRest != "" ==> !ValueChar(tokenRest[0])
    requires forall i: nat :: i < |idPre| ==> !HasValueAt(url, "extensionId=", i)
    requires forall i: nat :: i < |tokenPre| ==> !HasValueAt(url, "connectToken=", i)
    ensures Accepts(url, host, cloud, token, loaded) <==>
            (host == "localhost" || host == "127.0.0.1" || cloud) && sent == token && id in loaded
    ensures Connect(m, h, url) == Maps(m.app, m.ext[id := h], m.mode)
    ensures Disconnect(m, h, url) == Maps(m.app, m.ext - {id}, m.mode - {h})
  {
    hide ValueChar, HasValueAt, ParamValue, IsExtension, HasConnectToken, ExtensionId;
    IdAndToken(url, idPre, id, idRest, tokenPre, sent, tokenRest);
    UrlsAre(url);
    TokenUrl(url, tokenPre, sent + tokenRest);
    ExtensionUrl(url, idPre, id + idRest);
  }

  lemma TokenUrl(url: string, pre: string, post: string)
    requires url == pre + ("connectToken=" + post) && '\n' !in url && '\r' !in url
    ensures HasConnectToken(url)
  {
    UrlsAre(url);
    hide HasConnectToken, IsExtension;
  }

  lemma ExtensionUrl(url: string, pre: string, post: string)
    requires url == pre + ("extensionId=" + post) && '\n' !in url && '\r' !in url
    ensures IsExtension(url)
  {
    UrlsAre(url);
    hide HasConnectToken, IsExtension;
  }

  // An app, whose URL does not mention an extension.
  lemma AppHandshake(url: string, tokenPre: string, sent: string, tokenRest: string,
                     host: string, cloud: bool, token: string, loaded: set<string>, m: Maps, h: Handle)
    requires '\n' !in url && '\r' !in url && forall pre, post :: url != pre + ("extensionId=" + post)
    requires url == tokenPre + ("connectToken=" + (sent + tokenRest))
    requires sent != "" && (forall i :: 0 <= i < |sent| ==> ValueChar(sent[i]))
    requires tokenRest != "" ==> !ValueChar(tokenRest[0])
    requires forall i: nat :: i < |tokenPre| ==> !HasValueAt(url, "connectToken=", i)
    ensures Accepts(url, host, cloud, token, loaded) <==>
            (host == "localhost" || host == "127.0.0.1" || cloud) && sent == token
    ensures Connect(m, h, url) == Maps(m.app + {h}, m.ext, m.mode)
    ensures Disconnect(m, h, url) == Maps(m.app - {h}, m.ext, m.mode - {h})
  {
    hide ValueChar, HasValueAt, ParamValue, IsExtension, HasConnectToken, ExtensionId;
    ValueIsRead(tokenPre, "connectToken=", sent, tokenRest);
    UrlsAre(url);
    TokenUrl(url, tokenPre, sent + tokenRest);
  }

  // Without a token, or from elsewhere outside cloud mode, no handshake is accepted.
  lemma RefusedHandshake(url: string, host: string, cloud: bool, token: string, loaded: set<string>)
    requires (forall pre, post :: url != pre + ("connectToken=" + post))
             || (host != "localhost" && host != "127.0.0.1" && !cloud)
    ensures !Accepts(url, host, cloud, token, loaded)
  {
    UrlsAre(url);
    hide IsExtension, HasConnectToken, ExtensionId, ParamValue;
  }

  // ---------- Runs ----------

  datatype Event =
    | Load(id: string)                                                   // extensions::loadOne
    | Validate(h: Handle, url: string, host: string, cloud: bool)
    | Open(h: Handle)
    | Message(h: Handle, op: Opcode)
    | Close(h: Handle)

  // The server's maps, the loaded extensions, and what websocketpp knows: handshakes that were
  // accepted and connections that are open, with their URLs.
  datatype World = World(maps: Maps, loaded: set<string>, accepted: map<Handle, string>, open: map<Handle, string>)

  const INIT := World(Maps({}, map[], map[]), {}, map[], map[])

  // websocketpp opens only accepted connections, and messages and closes only open ones.
  predicate Enabled(w: World, e: Event) {
    match e
    case Load(_) => true
    case Validate(h, _, _, _) => h !in w.accepted && h !in w.open
    case Open(h) => h in w.accepted
    case Message(h, _) => h in w.open
    case Close(h) => h in w.open
  }

  function Step(token: string, w: World, e: Event): World
    requires Enabled(w, e)
  {
    match e
    case Load(id) => w.(loaded := w.loaded + {id})
    case Validate(h, url, host, cloud) =>
      if Accepts(url, host, cloud, token, w.loaded) then w.(accepted := w.accepted[h := url]) else w
    case Open(h) =>
      var url := w.accepted[h];
      w.(maps := Connect(w.maps, h, url), accepted := w.accepted - {h}, open := w.open[h := url])
    case Message(h, op) => w.(maps := Receive(w.maps, h, w.open[h], op))
    case Close(h) => w.(maps := Disconnect(w.maps, h, w.open[h]), open := w.open - {h})
  }

  predicate Legal(token: string, run: seq<Event>)
    decreases |run|, 0
  {
    run == [] ||
    (var pre := run[..|run| - 1]; Legal(token, pre) && Enabled(Exec(token, pre), run[|run| - 1]))
  }

  function Exec(token: string, run: seq<Event>): World
    requires Legal(token, run)
    decreases |run|
  {
    if run == [] then INIT else Step(token, Exec(token, run[..|run| - 1]), run[|run| - 1])
  }

  // ---------- What history says ----------

  // The first text or binary opcode a connection has sent since it was opened.
  function FirstOpcode(run: seq<Event>, h: Handle): Option<Opcode>
    decreases |run|
  {
    if run == [] then None
    else
      var before := FirstOpcode(run[..|run| - 1], h);
      match run[|run| - 1]
      case Open(k) => if k == h then None else before
      case Close(k) => if k == h then None else before
      case Message(k, op) => if k == h && before == None && op != OtherFrame then Some(op) else before
      case _ => before
  }

  lemma {:induction false} PrefixLegal(token: string, run: seq<Event>, i: nat)
    requires Legal(token, run) && i <= |run|
    ensures Legal(token, run[..i])
    decreases |run|
  {
    if i < |run| {
      PrefixLegal(token, run[..|run| - 1], i);
      assert run[..|run| - 1][..i] == run[..i];
    } else {
      assert run[..i] == run;
    }
  }

  // The i-th event opens or closes a connection whose URL carries the extension id.
  predicate Concerns(token: string, run: seq<Event>, i: nat, id: string)
    requires Legal(token, run) && i < |run|
  {
    PrefixLegal(token, run, i);
    var w := Exec(token, run[..i]);
    match run[i]
    case Open(h) => h in w.accepted && BelongsTo(w.accepted[h], id)
    case Close(h) => h in w.open && BelongsTo(w.open[h], id)
    case _ => false
  }

  // The i-th event opens a connection of the extension, and none of its connections is opened or
  // closed after that.
  predicate LastOpened(token: string, run: seq<Event>, i: nat, id: string)
    requires Legal(token, run)
  {
    && i < |run| && run[i].Open? && Concerns(token, run, i, id)
    && forall k: nat :: i < k < |run| ==> !Concerns(token, run, k, id)
  }

  predicate BelongsTo(url: string, id: string) {
    IsExtension(url) && ExtensionId(url) == id
  }

  // ---------- The invariant ----------

  ghost predicate Consistent(token: string, w: World) {
    && (forall h :: h in w.maps.app <==> h in w.open && !IsExtension(w.open[h]))
    && (forall id :: id in w.maps.ext ==>
          w.maps.ext[id] in w.open && BelongsTo(w.open[w.maps.ext[id]], id) && id in w.loaded)
    && (forall h :: h in w.maps.mode ==>
          h in w.open && IsExtension(w.open[h]) && w.maps.mode[h] != OtherFrame)
    && (forall h :: h in w.accepted ==> h !in w.open && Admitted(w.accepted[h], token, w.loaded))
    && (forall h :: h in w.open ==> Admitted(w.open[h], token, w.loaded))
  }

  // A URL that passed validation, whatever was loaded since.
  predicate Admitted(url: string, token: string, loaded: set<string>) {
    && HasConnectToken(url) && ParamValue(url, "connectToken=") == token
    && (IsExtension(url) ==> ExtensionId(url) in loaded)
  }

  lemma OpenKeepsConsistent(token: string, w: World, h: Handle)
    requires Consistent(token, w) && Enabled(w, Open(h))
    ensures Consistent(token, Step(token, w, Open(h)))
  {
    hide IsExtension, BelongsTo, Admitted, ExtensionId;
    var url := w.accepted[h];
    AdmittedIsLoaded(url, token, w.loaded);
    var w' := Step(token, w, Open(h));
    assert h !in w.open && h !in w.maps.app && h !in w.maps.mode;
    forall id | id in w'.maps.ext
      ensures w'.maps.ext[id] in w'.open && BelongsTo(w'.open[w'.maps.ext[id]], id) && id in w'.loaded
    {
      if w'.maps.ext[id] != h {
        assert id in w.maps.ext && w'.maps.ext[id] == w.maps.ext[id];
      }
    }
  }

  lemma AdmittedIsLoaded(url: string, token: string, loaded: set<string>)
    requires Admitted(url, token, loaded)
    ensures IsExtension(url) ==> BelongsTo(url, ExtensionId(url)) && ExtensionId(url) in loaded
  {
    hide IsExtension;
  }

  lemma CloseKeepsConsistent(token: string, w: World, h: Handle)
    requires Consistent(token, w) && Enabled(w, Close(h))
    ensures Consistent(token, Step(token, w, Close(h)))
  {
    hide Admitted, IsExtension, ExtensionId;
  }

  lemma OtherKeepsConsistent(token: string, w: World, e: Event)
    requires Consistent(token, w) && Enabled(w, e) && !e.Open? && !e.Close?
    ensures Consistent(token, Step(token, w, e))
  {
    hide IsExtension, HasConnectToken, ParamValue, BelongsTo;
  }

  lemma StepKeepsConsistent(token: string, w: World, e: Event)
    requires Consistent(token, w) && Enabled(w, e)
    ensures Consistent(token, Step(token, w, e))
  {
    hide Consistent, Step;
    match e
    case Open(h) => OpenKeepsConsistent(token, w, h);
    case Close(h) => CloseKeepsConsistent(token, w, h);
    case _ => OtherKeepsConsistent(token, w, e);
  }

  // Over every run: the app set is exactly the open app connections; every extension entry points
  // to an open connection whose URL carries that id, and the id is loaded; modes belong to open
  // extension connections.
  lemma {:induction false} AlwaysConsistent(token: string, run: seq<Event>)
    requires Legal(token, run)
    ensures Consistent(token, Exec(token, run))
    decreases |run|
  {
    if run != [] {
      AlwaysConsistent(token, run[..|run| - 1]);
      StepKeepsConsistent(token, Exec(token, run[..|run| - 1]), run[|run| - 1]);
    }
  }

  // The mode map is exactly the history of first opcodes of the open extension connections.
  ghost predicate ModesFollow(w: World, run: seq<Event>) {
    forall h :: h in w.open && IsExtension(w.open[h]) ==>
      (h in w.maps.mode <==> FirstOpcode(run, h).Some?)
      && (h in w.maps.mode ==> FirstOpcode(run, h) == Some(w.maps.mode[h]))
  }

  lemma {:induction false} ModeIsFirstOpcode(token: string, run: seq<Event>)
    requires Legal(token, run)
    ensures ModesFollow(Exec(token, run), run)
    decreases |run|
  {
    if run != [] {
      var pre, e := run[..|run| - 1], run[|run| - 1];
      ModeIsFirstOpcode(token, pre);
      AlwaysConsistent(token, pre);
      ModeStep(token, Exec(token, pre), pre, e);
      assert run == pre + [e];
      hide ModesFollow, Step;
    }
  }

  // How one event changes a connection's first opcode.
  lemma FirstOpcodeStep(pre: seq<Event>, e: Event, h: Handle)
    ensures FirstOpcode(pre + [e], h)
         == match e
            case Open(k) => if k == h then None else FirstOpcode(pre, h)
            case Close(k) => if k == h then None else FirstOpcode(pre, h)
            case Message(k, op) =>
              if k == h && FirstOpcode(pre, h) == None && op != OtherFrame then Some(op) else FirstOpcode(pre, h)
            case _ => FirstOpcode(pre, h)
  {
    assert (pre + [e])[..|pre|] == pre;
  }

  lemma ModeStep(token: string, w: World, pre: seq<Event>, e: Event)
    requires Consistent(token, w) && Enabled(w, e) && ModesFollow(w, pre)
    ensures ModesFollow(Step(token, w, e), pre + [e])
  {
    var w' := Step(token, w, e);
    forall h | h in w'.open && IsExtension(w'.open[h])
      ensures h in w'.maps.mode <==> FirstOpcode(pre + [e], h).Some?
      ensures h in w'.maps.mode ==> FirstOpcode(pre + [e], h) == Some(w'.maps.mode[h])
    {
      FirstOpcodeStep(pre, e, h);
      hide FirstOpcode, IsExtension, Admitted, BelongsTo, Accepts;
      if e == Open(h) {
        assert h !in w.open && h !in w.maps.mode;
      } else {
        assert h in w.open && w.open[h] == w'.open[h];
      }
    }
  }

  lemma ConcernsEarlier(token: string, run: seq<Event>, i: nat, id: string)
    requires Legal(token, run) && i < |run| - 1
    ensures Legal(token, run[..|run| - 1])
    ensures Concerns(token, run, i, id) <==> Concerns(token, run[..|run| - 1], i, id)
  {
    assert run[..|run| - 1][..i] == run[..i];
  }

  // What the last event of a run does to the entry of one extension.
  lemma EntryStep(token: string, run: seq<Event>, id: string)
    requires Legal(token, run) && run != []
    ensures var n := |run| - 1; var e := run[n];
      var before, after := Exec(token, run[..n]).maps.ext, Exec(token, run).maps.ext;
      if Concerns(token, run, n, id) then
        if e.Open? then id in after && after[id] == e.h else id !in after
      else (id in after <==> id in before) && (id in after ==> after[id] == before[id])
  {
    hide IsExtension, ExtensionId, HasConnectToken, ParamValue, Accepts;
  }

  // The last open of an extension, before and after one more event.
  lemma LastOpenedStep(token: string, run: seq<Event>, id: string)
    requires Legal(token, run) && run != []
    ensures var pre, n := run[..|run| - 1], |run| - 1;
      if Concerns(token, run, n, id) then
        forall i: nat :: LastOpened(token, run, i, id) <==> i == n && run[n].Open?
      else forall i: nat :: LastOpened(token, run, i, id) <==> LastOpened(token, pre, i, id)
  {
    var pre, n := run[..|run| - 1], |run| - 1;
    forall i: nat | i < n ensures Concerns(token, run, i, id) <==> Concerns(token, pre, i, id) {
      ConcernsEarlier(token, run, i, id);
    }
    hide Concerns, Exec, Legal;
    forall i: nat
      ensures Concerns(token, run, n, id) ==> (LastOpened(token, run, i, id) <==> i == n && run[n].Open?)
      ensures !Concerns(token, run, n, id) ==> (LastOpened(token, run, i, id) <==> LastOpened(token, pre, i, id))
    {
      if i < n {
        assert pre[i] == run[i];
      }
    }
  }

  // A registered extension is one whose last open or close in the run was an open, and the entry
  // is the connection that this opened.
  lemma {:induction false} ExtensionsFollowHistory(token: string, run: seq<Event>, id: string)
    requires Legal(token, run)
    ensures id in Exec(token, run).maps.ext <==> exists i: nat :: LastOpened(token, run, i, id)
    ensures forall i: nat :: LastOpened(token, run, i, id) ==>
              id in Exec(token, run).maps.ext && Exec(token, run).maps.ext[id] == run[i].h
    decreases |run|
  {
    if run != [] {
      var pre, n := run[..|run| - 1], |run| - 1;
      ExtensionsFollowHistory(token, pre, id);
      EntryStep(token, run, id);
      LastOpenedStep(token, run, id);
      forall i: nat ensures LastOpened(token, pre, i, id) ==> pre[i] == run[i] {
      }
      hide Exec, Legal, Concerns, LastOpened;
      assert Concerns(token, run, n, id) && run[n].Open? ==> LastOpened(token, run, n, id);
    }
  }

  // ---------- Sending ----------

  // What is sent: an event with its data, or some other text.
  datatype Message = Dispatched(name: string, data: Data) | Raw(text: string)
  datatype Data = Id(id: string) | Count(n: nat)

  // server->send with the opcode used.
  datatype Send = Send(to: Handle, op: Opcode, message: Message)

  function ModeOf(m: Maps, h: Handle): Opcode {
    if h in m.mode then m.mode[h] else TextFrame
  }

  ghost predicate Distinct<T>(s: seq<T>) {
    forall i, j :: 0 <= i < j < |s| ==> s[i] != s[j]
  }

  // One frame for each app connection and each registered extension.
  ghost predicate BroadcastsInOrder(m: Maps, message: Message, apps: seq<Handle>, ids: seq<string>, sends: seq<Send>) {
    && Distinct(apps) && (forall h :: h in apps <==> h in m.app)
    && Distinct(ids) && (forall id :: id in ids <==> id in m.ext)
    && |sends| == |apps| + |ids|
    && (forall i :: 0 <= i < |apps| ==> sends[i] == Send(apps[i], TextFrame, message))
    && (forall i :: 0 <= i < |ids| ==>
          ids[i] in m.ext && sends[|apps| + i] == Send(m.ext[ids[i]], ModeOf(m, m.ext[ids[i]]), message))
  }

  // The sends of one broadcast, in some order of the apps and of the extensions.
  ghost predicate Broadcasts(m: Maps, message: Message, sends: seq<Send>) {
    exists apps, ids :: BroadcastsInOrder(m, message, apps, ids, sends)
  }

  // Every broadcast reaches open connections only, each at most once, apps as text and extensions
  // in the opcode they first used; every open app connection is reached.
  lemma BroadcastReachesOpen(token: string, run: seq<Event>, message: Message, sends: seq<Send>)
    requires Legal(token, run) && Broadcasts(Exec(token, run).maps, message, sends)
    ensures forall i :: 0 <= i < |sends| ==> sends[i].to in Exec(token, run).open
    ensures forall i, j :: 0 <= i < j < |sends| ==> sends[i].to != sends[j].to
    ensures forall i :: 0 <= i < |sends| ==>
              sends[i].op == (if IsExtension(Exec(token, run).open[sends[i].to])
                                 && FirstOpcode(run, sends[i].to).Some?
                              then FirstOpcode(run, sends[i].to).value else TextFrame)
    ensures forall h :: h in Exec(token, run).open && !IsExtension(Exec(token, run).open[h]) ==>
              exists i :: 0 <= i < |sends| && sends[i].to == h
  {
    AlwaysConsistent(token, run);
    ModeIsFirstOpcode(token, run);
    var w := Exec(token, run);
    var apps, ids :| BroadcastsInOrder(w.maps, message, apps, ids, sends);
    hide IsExtension, HasConnectToken, ParamValue, Legal, Exec, FirstOpcode;
    forall i | 0 <= i < |sends|
      ensures i < |apps| ==> sends[i].to == apps[i] && apps[i] in w.maps.app
      ensures i >= |apps| ==> ids[i - |apps|] in w.maps.ext && sends[i].to == w.maps.ext[ids[i - |apps|]]
    {
      if i < |apps| {
        assert apps[i] in apps;
      } else {
        assert sends[i] == sends[|apps| + (i - |apps|)];
      }
    }
    forall h | h in w.open && !IsExtension(w.open[h]) ensures exists i :: 0 <= i < |sends| && sends[i].to == h {
      assert h in apps;
      var i :| 0 <= i < |apps| && apps[i] == h;
      assert sends[i].to == h;
    }
  }

  // And every broadcast reaches every registered extension, and sends nothing but its message.
  lemma BroadcastReachesExtensions(m: Maps, message: Message, sends: seq<Send>)
    requires Broadcasts(m, message, sends)
    ensures forall i :: 0 <= i < |sends| ==> sends[i].message == message
    ensures forall id :: id in m.ext ==> exists i :: 0 <= i < |sends| && sends[i].to == m.ext[id]
    ensures |sends| == |m.app| + |m.ext|
  {
    var apps, ids :| BroadcastsInOrder(m, message, apps, ids, sends);
    forall i | 0 <= i < |sends| ensures sends[i].message == message {
      if i < |apps| {
        assert sends[i] == Send(apps[i], TextFrame, message);
      } else {
        assert sends[i] == sends[|apps| + (i - |apps|)];
        assert ids[i - |apps|] in m.ext;
      }
    }
    forall id | id in m.ext ensures exists i :: 0 <= i < |sends| && sends[i].to == m.ext[id] {
      assert id in ids;
      var k :| 0 <= k < |ids| && ids[k] == id;
      assert sends[|apps| + k].to == m.ext[id];
    }
    DistinctCount(apps, m.app);
    DistinctCount(ids, m.ext.Keys);
  }

  lemma {:induction false} DistinctCount<T>(s: seq<T>, all: set<T>)
    requires Distinct(s) && forall x :: x in s <==> x in all
    ensures |s| == |all|
    decreases |s|
  {
    if s == [] {
      assert all == {};
    } else {
      var x := s[0];
      forall y ensures y in s[1..] <==> y in all - {x} {
        if y in s && y != x {
          assert y in s[1..];
        }
      }
      DistinctCount(s[1..], all - {x});
    }
  }

  // A send to a registered extension reaches an open connection that carries the id, in the opcode
  // it first used; a reply goes out in the opcode of its connection's first message.
  lemma SendReachesOpen(token: string, run: seq<Event>, id: string)
    requires Legal(token, run) && id in Exec(token, run).maps.ext
    ensures var w := Exec(token, run); var h := w.maps.ext[id];
      && h in w.open && IsExtension(w.open[h]) && ExtensionId(w.open[h]) == id && id in w.loaded
      && ModeOf(w.maps, h) == (if FirstOpcode(run, h).Some? then FirstOpcode(run, h).value else TextFrame)
  {
    AlwaysConsistent(token, run);
    ModeIsFirstOpcode(token, run);
    hide IsExtension, HasConnectToken, ParamValue, Legal, Exec, FirstOpcode, ExtensionId;
  }

  // ---------- The code ----------

  class NeuServer {
    var appConnections: set<Handle>
    var extConnections: map<string, Handle>
    var wsMode: map<Handle, Opcode>

    function View(): Maps
      reads this
    {
      Maps(appConnections, extConnections, wsMode)
    }

    constructor ()
      ensures View() == INIT.maps
    {
      appConnections, extConnections, wsMode := {}, map[], map[];
    }

    method HandleValidate(url: string, host: string, cloud: bool, token: string, loaded: set<string>)
      returns (ok: bool)
      ensures ok == Accepts(url, host, cloud, token, loaded)
    {
      hide IsExtension, HasConnectToken, ParamValue;
      if !(host == "localhost" || host == "127.0.0.1") && !cloud {
        return false;
      }
      if !HasConnectToken(url) {
        return false;
      }
      var connectToken := ParamValue(url, "connectToken=");
      if connectToken != token {
        return false;
      }
      if IsExtension(url) {
        var extensionId := ExtensionId(url);
        return extensionId in loaded;
      }
      return true;
    }

    // events::dispatch: broadcast to the apps, then to the extensions.
    method Broadcast(message: Message) returns (sends: seq<Send>)
      ensures Broadcasts(View(), message, sends)
    {
      sends := [];
      ghost var apps: seq<Handle>, ids: seq<string> := [], [];
      var rest := appConnections;
      while rest != {}
        invariant rest <= appConnections
        invariant Distinct(apps) && forall h :: h in apps <==> h in appConnections && h !in rest
        invariant |sends| == |apps| && forall i :: 0 <= i < |apps| ==> sends[i] == Send(apps[i], TextFrame, message)
        decreases rest
      {
        var connection := Choose(rest);
        sends := sends + [Send(connection, TextFrame, message)];
        apps := apps + [connection];
        rest := rest - {connection};
      }
      var left := extConnections.Keys;
      while left != {}
        invariant left <= extConnections.Keys
        invariant Distinct(ids) && forall id :: id in ids <==> id in extConnections && id !in left
        invariant |sends| == |apps| + |ids|
        invariant forall i :: 0 <= i < |apps| ==> sends[i] == Send(apps[i], TextFrame, message)
        invariant forall i :: 0 <= i < |ids| ==>
                    ids[i] in extConnections
                    && sends[|apps| + i] == Send(extConnections[ids[i]], ModeOf(View(), extConnections[ids[i]]), message)
        decreases left
      {
        var id := Choose(left);
        var connection := extConnections[id];
        var op := if connection in wsMode then wsMode[connection] else TextFrame;
        sends := sends + [Send(connection, op, message)];
        ids := ids + [id];
        left := left - {id};
      }
      assert BroadcastsInOrder(View(), message, apps, ids, sends);
    }

    // The maps change first; the two dispatches then see the new connection.
    method HandleConnect(handler: Handle, url: string) returns (sends: seq<Send>)
      modifies this
      ensures View() == Connect(old(View()), handler, url)
      ensures TwoBroadcasts(View(), Announced(View(), url, "extClientConnect", "appClientConnect"),
                            Dispatched("clientConnect", Count(Clients(View()))), sends)
    {
      hide IsExtension, ExtensionId, TwoBroadcasts;
      var event;
      if IsExtension(url) {
        var extensionId := ExtensionId(url);
        extConnections := extConnections[extensionId := handler];
        event := Dispatched("extClientConnect", Id(extensionId));
      } else {
        appConnections := appConnections + {handler};
        event := Dispatched("appClientConnect", Count(|appConnections|));
      }
      var clients := |appConnections| + |extConnections|;
      assert View() == Connect(old(View()), handler, url);
      assert event == Announced(View(), url, "extClientConnect", "appClientConnect");
      assert clients == Clients(View());
      hide Announced, Clients;
      sends := DispatchTwo(event, Dispatched("clientConnect", Count(clients)));
    }

    method DispatchTwo(first: Message, second: Message) returns (sends: seq<Send>)
      ensures TwoBroadcasts(View(), first, second, sends)
    {
      var one := Broadcast(first);
      var two := Broadcast(second);
      sends := one + two;
      assert sends[..|one|] == one && sends[|one|..] == two;
    }

    // `response` is what parsing the payload and executing the method give, None when they throw.
    // The mode is fixed even by a message that cannot be parsed; such a message gets no reply.
    method HandleMessage(handler: Handle, url: string, op: Opcode, response: Option<string>)
      returns (sends: seq<Send>)
      modifies this`wsMode
      ensures View() == Receive(old(View()), handler, url, op)
      ensures sends == if response == None then []
                       else [Send(handler, if IsExtension(url) then ModeOf(View(), handler) else TextFrame,
                                  Raw(response.value))]
    {
      hide IsExtension;
      if IsExtension(url) && handler !in wsMode {
        if op == TextFrame {
          wsMode := wsMode[handler := TextFrame];
        } else if op == BinaryFrame {
          wsMode := wsMode[handler := BinaryFrame];
        }
      }
      if response == None {
        return [];
      }
      var replyOp := TextFrame;
      if IsExtension(url) && handler in wsMode {
        replyOp := wsMode[handler];
      }
      return [Send(handler, replyOp, Raw(response.value))];
    }

    // The closing connection is out of the maps before anything is dispatched.
    // `browserLike` says whether the mode is browser or chrome; then __exitProcessIfIdle is called.
    method HandleDisconnect(handler: Handle, url: string, browserLike: bool)
      returns (sends: seq<Send>, idleCheck: bool)
      modifies this
      ensures View() == Disconnect(old(View()), handler, url)
      ensures TwoBroadcasts(View(), Announced(View(), url, "extClientDisconnect", "appClientDisconnect"),
                            Dispatched("clientDisconnect", Count(Clients(View()))), sends)
      ensures idleCheck <==> !IsExtension(url) && browserLike
    {
      hide IsExtension, ExtensionId, TwoBroadcasts, Disconnect;
      DisconnectedMaps(View(), handler, url);
      wsMode := wsMode - {handler};
      idleCheck := false;
      var event;
      if IsExtension(url) {
        var extensionId := ExtensionId(url);
        extConnections := extConnections - {extensionId};
        event := Dispatched("extClientDisconnect", Id(extensionId));
      } else {
        appConnections := appConnections - {handler};
        idleCheck := browserLike;
        event := Dispatched("appClientDisconnect", Count(|appConnections|));
      }
      var clients := |appConnections| + |extConnections|;
      assert View() == Disconnect(old(View()), handler, url);
      assert event == Announced(View(), url, "extClientDisconnect", "appClientDisconnect");
      assert clients == Clients(View());
      hide Announced, Clients;
      sends := DispatchTwo(event, Dispatched("clientDisconnect", Count(clients)));
    }

    method SendToExtension(extensionId: string, message: Message) returns (ok: bool, sends: seq<Send>)
      ensures ok <==> extensionId in View().ext
      ensures sends == if ok then
                         [Send(View().ext[extensionId], ModeOf(View(), View().ext[extensionId]), message)]
                       else []
    {
      if extensionId in extConnections {
        var hdl := extConnections[extensionId];
        var op := if hdl in wsMode then wsMode[hdl] else TextFrame;
        return true, [Send(hdl, op, message)];
      }
      return false, [];
    }
  }

  lemma DisconnectedMaps(m: Maps, h: Handle, url: string)
    ensures Disconnect(m, h, url)
         == if IsExtension(url) then Maps(m.app, m.ext - {ExtensionId(url)}, m.mode - {h})
            else Maps(m.app - {h}, m.ext, m.mode - {h})
  {
  }

  // The event about one connection: an extension's carries its id, an app's the number of apps.
  function Announced(m: Maps, url: string, extEvent: string, appEvent: string): (message: Message)
    ensures message.Dispatched?
    ensures IsExtension(url) ==> message.name == extEvent && message.data == Id(ExtensionId(url))
    ensures !IsExtension(url) ==> message.name == appEvent && message.data == Count(|m.app|)
  {
    if IsExtension(url) then Dispatched(extEvent, Id(ExtensionId(url))) else Dispatched(appEvent, Count(|m.app|))
  }

  function Clients(m: Maps): (n: nat)
    ensures n == |m.app| + |m.ext.Keys|
  {
    |m.app| + |m.ext|
  }

  ghost predicate TwoBroadcasts(m: Maps, first: Message, second: Message, sends: seq<Send>) {
    exists n :: 0 <= n <= |sends| && Broadcasts(m, first, sends[..n]) && Broadcasts(m, second, sends[n..])
  }

  // Iteration of a set visits some element next.
  method Choose<T(==)>(s: set<T>) returns (x: T)
    requires s != {}
    ensures x in s
  {
    x :| x in s;
  }
}
