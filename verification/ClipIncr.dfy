// Receiving clipboard content in lib/clip/clip_x11.cpp: in one reply, or in the chunks of an INCR
// transfer as in section 2.7.2 of the ICCCM.
module ClipIncr {
  import opened Common

  // m_reply_data (None is a null pointer), m_reply_offset, m_incr_process and m_incr_received.
  datatype State = State(replyData: Option<seq<byte>>, replyOffset: nat, incrProcess: bool, incrReceived: bool)

  // What get_and_delete_property returns for a SelectionNotify.
  datatype Selection =
    | NoReply
    | IncrStart(announced: Option<nat>)  // None: the INCR property is gone or not 4 bytes long
    | Whole(bytes: seq<byte>)

  // A PropertyNotify, and the property's bytes if it can be read.
  datatype Property = Property(newValue: bool, clipboard: bool, reply: Option<seq<byte>>)

  function Zeros(n: nat): (z: seq<byte>)
    ensures |z| == n && forall i :: 0 <= i < n ==> z[i] == 0
  {
    seq(n, _ => 0)
  }

  // ---------- Specification of the handlers ----------

  // copy_reply_data
  function CopyReply(s: State, bytes: seq<byte>): State {
    var req := s.replyOffset + |bytes|;
    var room := match s.replyData
      case None => Zeros(req)
      case Some(d) => if req > |d| then d + Zeros(req - |d|) else d;
    s.(replyData := Some(room[..s.replyOffset] + bytes + room[req..]), replyOffset := req)
  }

  // The new state, and the buffer the callback saw if it was called.
  function OnSelection(s: State, e: Selection): (State, Option<seq<byte>>) {
    match e
    case NoReply => (s, None)
    case IncrStart(None) => (s, None)
    case IncrStart(Some(n)) => (State(Some(Zeros(n)), 0, true, true), None)
    case Whole(bytes) =>
      var copied := CopyReply(s.(replyData := None, replyOffset := 0), bytes);
      (copied.(replyData := None), copied.replyData)
  }

  predicate Heard(s: State, e: Property) {
    s.incrProcess && e.newValue && e.clipboard && e.reply.Some?
  }

  function OnProperty(s: State, e: Property): (State, Option<seq<byte>>) {
    if !Heard(s, e) then (s, None)
    else if |e.reply.value| > 0 then (CopyReply(s.(incrReceived := true), e.reply.value), None)
    else (s.(incrReceived := true, replyData := None, incrProcess := false), s.replyData)
  }

  // ---------- The handlers ----------

  class Manager {
    var replyData: Option<seq<byte>>
    var replyOffset: nat
    var incrProcess: bool
    var incrReceived: bool

    function View(): State
      reads this
    {
      State(replyData, replyOffset, incrProcess, incrReceived)
    }

    constructor ()
      ensures View() == State(None, 0, false, false)
    {
      replyData, replyOffset, incrProcess, incrReceived := None, 0, false, false;
    }

    method CopyReplyData(src: seq<byte>)
      modifies this
      ensures View() == CopyReply(old(View()), src)
      ensures replyData.Some? && incrProcess == old(incrProcess) && incrReceived == old(incrReceived)
    {
      var n := |src|;
      var req := replyOffset + n;
      if replyData == None {
        replyData := Some(Zeros(req));
      } else if req > |replyData.value| {
        replyData := Some(replyData.value + Zeros(req - |replyData.value|));
      }
      replyData := Some(replyData.value[..replyOffset] + src + replyData.value[replyOffset + n..]);
      replyOffset := replyOffset + n;
    }

    // call_callback: what the callback sees.
    method CallCallback() returns (seen: Option<seq<byte>>)
      modifies this`replyData
      ensures seen == old(replyData) && replyData == None
    {
      seen := replyData;
      replyData := None;
    }

    method HandleSelectionNotify(e: Selection) returns (seen: Option<seq<byte>>)
      modifies this
      ensures (View(), seen) == OnSelection(old(View()), e)
    {
      seen := None;
      match e
      case NoReply =>
      case IncrStart(announced) =>
        if announced.Some? {
          replyData := Some(Zeros(announced.value));
          replyOffset := 0;
          incrProcess := true;
          incrReceived := true;
        }
      case Whole(bytes) =>
        replyData := None;
        replyOffset := 0;
        CopyReplyData(bytes);
        seen := CallCallback();
    }

    method HandlePropertyNotify(e: Property) returns (seen: Option<seq<byte>>)
      modifies this
      ensures (View(), seen) == OnProperty(old(View()), e)
    {
      seen := None;
      if incrProcess && e.newValue && e.clipboard {
        if e.reply.Some? {
          incrReceived := true;
          if |e.reply.value| > 0 {
            CopyReplyData(e.reply.value);
          } else {
            seen := CallCallback();
            incrProcess := false;
          }
        }
      }
    }
  }

  // ---------- One transfer ----------

  function RunProperties(s: State, events: seq<Property>): State
    decreases |events|
  {
    if events == [] then s else RunProperties(OnProperty(s, events[0]).0, events[1..])
  }

  // The chunks among some notifications: those that are heard.
  function Chunks(events: seq<Property>): seq<byte> {
    if events == [] then []
    else
      var e := events[0];
      (if e.newValue && e.clipboard && e.reply.Some? then e.reply.value else []) + Chunks(events[1..])
  }

  // None of the notifications ends the transfer.
  predicate NoEnd(events: seq<Property>) {
    forall i :: 0 <= i < |events| ==>
      !(events[i].newValue && events[i].clipboard && events[i].reply == Some([]))
  }

  function Max(a: int, b: int): int {
    if a < b then b else a
  }

  // The buffer of a transfer that announced n bytes and received `got` so far.
  function Buffer(n: nat, got: seq<byte>): seq<byte> {
    got + Zeros(Max(n - |got|, 0))
  }

  ghost predicate Receiving(s: State, n: nat, got: seq<byte>) {
    s.replyData == Some(Buffer(n, got)) && s.replyOffset == |got| && s.incrProcess
  }

  lemma ChunkIsAppended(s: State, n: nat, got: seq<byte>, e: Property)
    requires Receiving(s, n, got) && e.reply != Some([])
    ensures var chunk := if e.newValue && e.clipboard && e.reply.Some? then e.reply.value else [];
      Receiving(OnProperty(s, e).0, n, got + chunk) && OnProperty(s, e).1 == None
  {
    if Heard(s, e) {
      var chunk := e.reply.value;
      var s' := CopyReply(s.(incrReceived := true), chunk);
      assert s'.replyData.value == Buffer(n, got + chunk);
    } else {
      assert got + [] == got;
    }
  }

  lemma IgnoredIsHarmless(s: State, n: nat, got: seq<byte>, e: Property)
    requires Receiving(s, n, got) && !(e.newValue && e.clipboard && e.reply.Some?)
    ensures OnProperty(s, e) == (s, None)
  {
  }

  // While chunks arrive, the buffer up to the offset is always what was received, and the rest of
  // the announced size is zero; notifications of other kinds in between change nothing.
  lemma {:induction false} TransferReceives(s: State, n: nat, got: seq<byte>, events: seq<Property>)
    requires Receiving(s, n, got) && NoEnd(events)
    ensures Receiving(RunProperties(s, events), n, got + Chunks(events))
    decreases |events|
  {
    hide Receiving, OnProperty;
    if events == [] {
      assert got + [] == got;
    } else {
      var e := events[0];
      var chunk := if e.newValue && e.clipboard && e.reply.Some? then e.reply.value else [];
      if e.reply == Some([]) {
        IgnoredIsHarmless(s, n, got, e);
        assert got + chunk == got;
      } else {
        ChunkIsAppended(s, n, got, e);
      }
      TransferReceives(OnProperty(s, e).0, n, got + chunk, events[1..]);
      Assoc(got, chunk, Chunks(events[1..]));
    }
  }

  // Main theorem. Whatever state a transfer starts in: when the empty chunk arrives, the callback
  // sees the concatenation of all chunks, padded with zeros to the announced size; it is exactly
  // the concatenation when the announced size is a lower bound. Later notifications are ignored.
  lemma TransferDelivers(s: State, n: nat, events: seq<Property>, later: Property)
    requires NoEnd(events)
    ensures var start := OnSelection(s, IncrStart(Some(n))).0;
      var (after, seen) := OnProperty(RunProperties(start, events), Property(true, true, Some([])));
      && seen == Some(Buffer(n, Chunks(events)))
      && |seen.value| == Max(n, |Chunks(events)|)
      && (n <= |Chunks(events)| ==> seen.value == Chunks(events))
      && OnProperty(after, later) == (after, None)
  {
    var start := OnSelection(s, IncrStart(Some(n))).0;
    assert Buffer(n, []) == Zeros(n);
    TransferReceives(start, n, [], events);
    assert [] + Chunks(events) == Chunks(events);
  }

  // The simple path delivers exactly the reply, whatever was going on before.
  lemma WholeReplyDelivers(s: State, bytes: seq<byte>)
    ensures OnSelection(s, Whole(bytes)) == (State(None, |bytes|, s.incrProcess, s.incrReceived), Some(bytes))
  {
    var copied := CopyReply(s.(replyData := None, replyOffset := 0), bytes);
    assert copied.replyData.value == bytes;
  }

  // Nothing happens without a reply, for an INCR property that cannot be read, and for property
  // notifications outside a transfer, of other kinds, or that cannot be read.
  lemma NothingHappens(s: State, e: Property)
    ensures OnSelection(s, NoReply) == (s, None) && OnSelection(s, IncrStart(None)) == (s, None)
    ensures !s.incrProcess || !e.newValue || !e.clipboard || e.reply == None ==> OnProperty(s, e) == (s, None)
  {
  }
}
