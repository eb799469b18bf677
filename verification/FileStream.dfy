// The opened-file streams of api/fs/fs.cpp: an ifstream driven by read, readAll and seek events
// that emits data blocks and "end" messages.
module FileStream {
  import opened Common
  import Base64

  const DEFAULT_BUF_SIZE: int := 256

  // What an ifstream on a regular file remembers.
  datatype State = State(pos: nat, eof: bool, fail: bool)

  // __dispatchOpenedFileEvt with action "data", "dataBinary" or "end".
  datatype Message = Data(text: seq<byte>) | DataBinary(base64: string) | End

  datatype Event = Event(id: int, eventType: string, pos: int, size: int)

  // ---------- ifstream, as the C++ standard defines it ----------

  function Rest(content: seq<byte>, pos: nat): seq<byte> {
    content[Min(pos, |content|)..]
  }

  predicate Good(s: State) {
    !s.eof && !s.fail
  }

  // istream::peek: the next character, or None for EOF.
  function Peek(content: seq<byte>, s: State): (State, Option<byte>) {
    if !Good(s) then (s.(fail := true), None)
    else if s.pos >= |content| then (s.(eof := true), None)
    else (s, Some(content[s.pos]))
  }

  // istream::read of n characters; the block has gcount() of them.
  function Read(content: seq<byte>, s: State, n: nat): (State, seq<byte>) {
    if !Good(s) then (s.(fail := true), [])
    else
      var rest := Rest(content, s.pos);
      if n <= |rest| then (s.(pos := s.pos + n), rest[..n])
      else (State(s.pos + |rest|, true, true), rest)
  }

  class InputStream {
    const content: seq<byte>
    var state: State

    constructor (content: seq<byte>)
      ensures this.content == content && state == State(0, false, false)
    {
      this.content := content;
      state := State(0, false, false);
    }

    method PeekChar() returns (c: Option<byte>)
      modifies this
      ensures (state, c) == Peek(content, old(state))
    {
      var (next, found) := Peek(content, state);
      state, c := next, found;
    }

    method ReadBlock(n: nat) returns (block: seq<byte>)
      modifies this
      ensures (state, block) == Read(content, old(state), n)
    {
      var (next, got) := Read(content, state, n);
      state, block := next, got;
    }

    // clear() and then seekg(pos, ios::beg)
    method ClearAndSeek(pos: nat)
      modifies this
      ensures state == State(pos, false, false)
    {
      state := State(pos, false, false);
    }
  }

  // ---------- Specification of one event ----------

  // regex_match(type, ".*Binary$")
  predicate IsBinary(eventType: string) {
    |eventType| >= 6 && eventType[|eventType| - 6..] == "Binary"
  }

  predicate IsRead(eventType: string) {
    eventType == "read" || eventType == "readAll" || eventType == "readBinary" || eventType == "readAllBinary"
  }

  predicate IsSingle(eventType: string) {
    eventType == "read" || eventType == "readBinary"
  }

  function BlockSize(evt: Event): int {
    if evt.size > -1 then evt.size else DEFAULT_BUF_SIZE
  }

  // A readAll with blocks of size 0 never leaves its loop, unless there is nothing to read.
  predicate Ends(content: seq<byte>, s: State, evt: Event) {
    IsSingle(evt.eventType) || BlockSize(evt) >= 1 || Peek(content, s).1 == None
  }

  // A binary block longer than INT_MAX overflows the counters of the codec.
  predicate Encodable(content: seq<byte>, evt: Event) {
    IsBinary(evt.eventType) ==> Min(BlockSize(evt), |content|) <= INT_MAX
  }

  function BlockMessage(evt: Event, block: seq<byte>): Message {
    if IsBinary(evt.eventType) then DataBinary(Base64.Encode(block)) else Data(block)
  }

  // The `while(reader->peek() != eof)` loop.
  function ReadLoop(content: seq<byte>, s: State, evt: Event): (State, seq<Message>)
    requires Ends(content, s, evt)
    decreases if IsSingle(evt.eventType) then 0 else |Rest(content, s.pos)|
  {
    var (s1, c) := Peek(content, s);
    if c == None then (s1, [])
    else
      var (s2, block) := Read(content, s1, BlockSize(evt));
      if IsSingle(evt.eventType) then (s2, [BlockMessage(evt, block)])
      else
        var (s3, messages) := ReadLoop(content, s2, evt);
        (s3, [BlockMessage(evt, block)] + messages)
  }

  // __readStream
  function ReadStreamSpec(content: seq<byte>, s: State, evt: Event): (State, seq<Message>)
    requires Ends(content, s, evt)
  {
    if s.eof then (s, [End])
    else
      var (s1, messages) := ReadLoop(content, s, evt);
      (s1, if s1.eof then messages + [End] else messages)
  }

  method ReadStreamBlock(evt: Event, reader: InputStream) returns (message: Message)
    requires IsBinary(evt.eventType) ==> |Read(reader.content, reader.state, BlockSize(evt)).1| <= INT_MAX
    modifies reader
    ensures var (s, block) := Read(reader.content, old(reader.state), BlockSize(evt));
      reader.state == s && message == BlockMessage(evt, block)
  {
    var block := reader.ReadBlock(if evt.size > -1 then evt.size else DEFAULT_BUF_SIZE);
    if IsBinary(evt.eventType) {
      var text := Base64.ToBase64(block);
      message := DataBinary(text);
    } else {
      message := Data(block);
    }
  }

  method ReadStream(evt: Event, reader: InputStream) returns (messages: seq<Message>)
    requires Ends(reader.content, reader.state, evt) && Encodable(reader.content, evt)
    modifies reader
    ensures (reader.state, messages) == ReadStreamSpec(reader.content, old(reader.state), evt)
  {
    if reader.state.eof {
      return [End];
    }
    messages := [];
    ghost var content, start := reader.content, reader.state;
    assert ReadLoop(content, start, evt).1 == messages + ReadLoop(content, start, evt).1;
    while true
      invariant Ends(content, reader.state, evt)
      invariant ReadLoop(content, start, evt).0 == ReadLoop(content, reader.state, evt).0
      invariant ReadLoop(content, start, evt).1 == messages + ReadLoop(content, reader.state, evt).1
      decreases |Rest(content, reader.state.pos)|
    {
      ghost var before := reader.state;
      LoopUnfolded(content, before, evt);
      hide ReadLoop;
      var c := reader.PeekChar();
      if c == None {
        assert messages + [] == messages;
        break;
      }
      var message := ReadStreamBlock(evt, reader);
      ghost var later := ReadLoop(content, reader.state, evt).1;
      Assoc(messages, [message], later);
      messages := messages + [message];
      if evt.eventType == "read" || evt.eventType == "readBinary" {
        break;
      }
    }
    assert ReadLoop(content, start, evt) == (reader.state, messages);
    if reader.state.eof {
      messages := messages + [End];
    }
  }

  lemma LoopUnfolded(content: seq<byte>, s: State, evt: Event)
    requires Ends(content, s, evt)
    ensures var (s1, c) := Peek(content, s);
      if c == None then ReadLoop(content, s, evt) == (s1, [])
      else
        var (s2, block) := Read(content, s1, BlockSize(evt));
        if IsSingle(evt.eventType) then ReadLoop(content, s, evt) == (s2, [BlockMessage(evt, block)])
        else
          && |Rest(content, s2.pos)| < |Rest(content, s.pos)| && Ends(content, s2, evt)
          && ReadLoop(content, s, evt).0 == ReadLoop(content, s2, evt).0
          && ReadLoop(content, s, evt).1 == [BlockMessage(evt, block)] + ReadLoop(content, s2, evt).1
  {
  }

  // The loop, if it ends within n turns.
  function LoopWithin(content: seq<byte>, s: State, evt: Event, n: nat): Option<(State, seq<Message>)>
    decreases n
  {
    if n == 0 then None
    else
      var (s1, c) := Peek(content, s);
      if c == None then Some((s1, []))
      else
        var (s2, block) := Read(content, s1, BlockSize(evt));
        if IsSingle(evt.eventType) then Some((s2, [BlockMessage(evt, block)]))
        else match LoopWithin(content, s2, evt, n - 1)
          case None => None
          case Some((s3, messages)) => Some((s3, [BlockMessage(evt, block)] + messages))
  }

  lemma {:induction false} LoopEnds(content: seq<byte>, s: State, evt: Event)
    requires Ends(content, s, evt)
    ensures LoopWithin(content, s, evt, |Rest(content, s.pos)| + 1) == Some(ReadLoop(content, s, evt))
    decreases |Rest(content, s.pos)|
  {
    var (s1, c) := Peek(content, s);
    if c.Some? && !IsSingle(evt.eventType) {
      var (s2, block) := Read(content, s1, BlockSize(evt));
      LoopUnfolded(content, s, evt);
      LoopEnds(content, s2, evt);
      LongerLoop(content, s2, evt, |Rest(content, s2.pos)| + 1, |Rest(content, s.pos)|);
    }
  }

  lemma {:induction false} LongerLoop(content: seq<byte>, s: State, evt: Event, n: nat, m: nat)
    requires n <= m && LoopWithin(content, s, evt, n).Some?
    ensures LoopWithin(content, s, evt, m) == LoopWithin(content, s, evt, n)
    decreases n
  {
    var (s1, c) := Peek(content, s);
    if c.Some? && !IsSingle(evt.eventType) {
      LongerLoop(content, Read(content, s1, BlockSize(evt)).0, evt, n - 1, m - 1);
    }
  }

  lemma {:induction false} LoopStuck(content: seq<byte>, s: State, evt: Event, n: nat)
    requires !Ends(content, s, evt)
    ensures LoopWithin(content, s, evt, n) == None
    decreases n
  {
    if n > 0 {
      assert Read(content, s, 0).0 == s;
      LoopStuck(content, s, evt, n - 1);
    }
  }

  // Exactly when the loop of a read event ends: not for a readAll with blocks of size 0 while
  // there is something to read.
  lemma LoopEndsIff(content: seq<byte>, s: State, evt: Event)
    ensures Ends(content, s, evt) <==> exists n :: LoopWithin(content, s, evt, n).Some?
  {
    if Ends(content, s, evt) {
      LoopEnds(content, s, evt);
    } else {
      forall n ensures LoopWithin(content, s, evt, n) == None {
        LoopStuck(content, s, evt, n);
      }
    }
  }

  // ---------- The table of opened files ----------

  datatype Opened = Opened(content: seq<byte>, state: State)

  // updateOpenedFile on one opened file that is neither unknown nor closed by the event.
  function UpdateSpec(file: Opened, evt: Event): (Opened, seq<Message>)
    requires IsRead(evt.eventType) ==> Ends(file.content, file.state, evt)
  {
    if IsRead(evt.eventType) then
      var (s, messages) := ReadStreamSpec(file.content, file.state, evt);
      (Opened(file.content, s), messages)
    else if evt.eventType == "seek" then
      (Opened(file.content, State(if evt.pos > -1 then evt.pos else 0, false, false)), [])
    else (file, [])
  }

  class FileTable {
    var openedFiles: map<int, InputStream>

    ghost predicate Valid()
      reads this
    {
      forall i, j :: i in openedFiles && j in openedFiles && openedFiles[i] == openedFiles[j] ==> i == j
    }

    ghost function View(): map<int, Opened>
      reads this, openedFiles.Values
    {
      map id | id in openedFiles :: Opened(openedFiles[id].content, openedFiles[id].state)
    }

    constructor ()
      ensures Valid() && View() == map[]
    {
      openedFiles := map[];
    }

    twostate lemma OneFileChanged(id: int)
      requires old(Valid()) && openedFiles == old(openedFiles) && id in openedFiles
      requires forall j :: j in openedFiles && j != id ==> openedFiles[j].state == old(openedFiles[j].state)
      ensures View() == old(View())[id := Opened(openedFiles[id].content, openedFiles[id].state)]
    {
    }

    // openFile on an existing file; a missing file gives -1 and leaves the table alone.
    method OpenFile(file: Option<seq<byte>>) returns (id: int)
      requires Valid()
      modifies this
      ensures Valid()
      ensures file == None ==> id == -1 && View() == old(View())
      ensures file.Some? ==>
                id == |old(View())| && View() == old(View())[id := Opened(file.value, State(0, false, false))]
      ensures fresh(openedFiles.Values - old(openedFiles.Values))
    {
      var virtualFileId := |openedFiles|;
      assert |View()| == |openedFiles| by { assert View().Keys == openedFiles.Keys; }
      if file == None {
        return -1;
      }
      var reader := new InputStream(file.value);
      openedFiles := openedFiles[virtualFileId := reader];
      return virtualFileId;
    }

    method UpdateOpenedFile(evt: Event) returns (ok: bool, messages: seq<Message>)
      requires Valid()
      requires IsRead(evt.eventType) && evt.id in openedFiles ==>
                 var file := View()[evt.id]; Ends(file.content, file.state, evt) && Encodable(file.content, evt)
      modifies this, openedFiles.Values
      ensures Valid() && openedFiles.Values <= old(openedFiles.Values)
      ensures ok <==> evt.id in old(openedFiles)
                      && (|| evt.eventType == "read" || evt.eventType == "readAll" || evt.eventType == "readBinary"
                          || evt.eventType == "readAllBinary" || evt.eventType == "seek" || evt.eventType == "close")
      ensures !ok ==> View() == old(View()) && messages == []
      ensures ok && evt.eventType == "close" ==> View() == old(View()) - {evt.id} && messages == []
      ensures ok && evt.eventType != "close" ==>
                var (file, ms) := UpdateSpec(old(View()[evt.id]), evt);
                View() == old(View())[evt.id := file] && messages == ms
    {
      messages := [];
      if evt.id !in openedFiles {
        return false, messages;
      }
      var reader := openedFiles[evt.id];
      if evt.eventType == "close" {
        openedFiles := openedFiles - {evt.id};
        assert View() == old(View()) - {evt.id};
      } else if evt.eventType == "read" || evt.eventType == "readAll"
                || evt.eventType == "readBinary" || evt.eventType == "readAllBinary" {
        messages := ReadStream(evt, reader);
        OneFileChanged(evt.id);
      } else if evt.eventType == "seek" {
        reader.ClearAndSeek(if evt.pos > -1 then evt.pos else 0);
        OneFileChanged(evt.id);
      } else {
        return false, messages;
      }
      return true, messages;
    }
  }

  // ---------- What a reader of the messages sees ----------

  // The bytes a message carries, binary blocks decoded again.
  function Payload(m: Message): seq<byte> {
    match m
    case Data(text) => text
    case DataBinary(text) => Base64.Decode(text)
    case End => []
  }

  function Received(messages: seq<Message>): seq<byte> {
    if messages == [] then [] else Payload(messages[0]) + Received(messages[1..])
  }

  lemma {:induction false} ReceivedAppend(a: seq<Message>, b: seq<Message>)
    ensures Received(a + b) == Received(a) + Received(b)
  {
    if a == [] {
      assert a + b == b;
    } else {
      assert (a + b)[1..] == a[1..] + b;
      ReceivedAppend(a[1..], b);
    }
  }

  // A stream state as seeks and reads leave it.
  predicate Settled(content: seq<byte>, s: State) {
    (s.eof ==> s.pos >= |content|) && (s.fail ==> s.eof)
  }

  // Messages that carry data: none is "end", none is empty, none is longer than asked for.
  ghost predicate AllBlocks(messages: seq<Message>, size: int) {
    forall m :: m in messages ==> m != End && 1 <= |Payload(m)| <= size
  }

  lemma BlockPayload(evt: Event, block: seq<byte>)
    ensures Payload(BlockMessage(evt, block)) == block && BlockMessage(evt, block) != End
  {
    Base64.DecodeEncode(block);
  }

  // A block read after a successful peek is non-empty and is exactly what leaves the rest.
  lemma ReadTakes(content: seq<byte>, s: State, n: nat)
    requires Good(s) && s.pos < |content| && n >= 1
    ensures var (s', block) := Read(content, s, n);
      && Settled(content, s') && (s'.eof <==> n > |content| - s.pos)
      && |block| == Min(n, |content| - s.pos)
      && block + Rest(content, s'.pos) == Rest(content, s.pos)
  {
  }

  lemma {:induction false} LoopReads(content: seq<byte>, s: State, evt: Event)
    requires BlockSize(evt) >= 1 && Settled(content, s) && !s.eof
    ensures var (s', blocks) := ReadLoop(content, s, evt);
      && Settled(content, s') && AllBlocks(blocks, BlockSize(evt))
      && Received(blocks) + Rest(content, s'.pos) == Rest(content, s.pos)
      && (!IsSingle(evt.eventType) ==> s'.eof)
      && (IsSingle(evt.eventType) ==> |Received(blocks)| == Min(BlockSize(evt), |Rest(content, s.pos)|))
      && (IsSingle(evt.eventType) && s.pos < |content| ==> |blocks| == 1)
      && (s.pos >= |content| ==> blocks == [] && s'.eof)
    decreases |Rest(content, s.pos)|
  {
    LoopUnfolded(content, s, evt);
    if s.pos < |content| {
      var (s2, block) := Read(content, s, BlockSize(evt));
      ReadTakes(content, s, BlockSize(evt));
      BlockPayload(evt, block);
      var m := BlockMessage(evt, block);
      if IsSingle(evt.eventType) {
        assert [m][1..] == [] && Received([m]) == block;
      } else if s2.eof {
        assert ReadLoop(content, s2, evt) == (s2.(fail := true), []);
        assert [m] + [] == [m] && [m][1..] == [] && Received([m]) == block;
      } else {
        LoopReads(content, s2, evt);
        var (s3, later) := ReadLoop(content, s2, evt);
        assert ([m] + later)[1..] == later;
        Assoc(block, Received(later), Rest(content, s3.pos));
      }
    }
  }

  // One read event: its blocks are the next part of the file, and "end" comes exactly when the
  // stream has hit the end; after that only "end" is sent.
  lemma EventReads(content: seq<byte>, s: State, evt: Event)
    requires IsRead(evt.eventType) && BlockSize(evt) >= 1 && Settled(content, s)
    ensures var (s', messages) := ReadStreamSpec(content, s, evt);
      && Settled(content, s')
      && (s.eof ==> s' == s && messages == [End])
      && (!s.eof ==>
            var blocks := if s'.eof then messages[..|messages| - 1] else messages;
            && messages == blocks + (if s'.eof then [End] else [])
            && AllBlocks(blocks, BlockSize(evt))
            && Received(blocks) + Rest(content, s'.pos) == Rest(content, s.pos)
            && (if IsSingle(evt.eventType)
                then |Received(blocks)| == Min(BlockSize(evt), |Rest(content, s.pos)|) else s'.eof)
            && (s'.eof || |blocks| >= 1))
  {
    if !s.eof {
      LoopReads(content, s, evt);
      var (s', blocks) := ReadLoop(content, s, evt);
      assert (blocks + [End])[..|blocks|] == blocks;
    }
  }

  // ---------- Whole sessions ----------

  predicate ReadEvents(events: seq<Event>) {
    forall i :: 0 <= i < |events| ==>
      IsRead(events[i].eventType) && BlockSize(events[i]) >= 1
  }

  function Session(content: seq<byte>, s: State, events: seq<Event>): (State, seq<Message>)
    requires ReadEvents(events)
    decreases |events|
  {
    if events == [] then (s, [])
    else
      var (s1, first) := ReadStreamSpec(content, s, events[0]);
      var (s2, later) := Session(content, s1, events[1..]);
      (s2, first + later)
  }

  ghost predicate OnlyEnds(messages: seq<Message>) {
    forall i :: 0 <= i < |messages| ==> messages[i] == End
  }

  lemma {:induction false} SessionAtEnd(content: seq<byte>, s: State, events: seq<Event>)
    requires ReadEvents(events) && s.eof
    ensures var (s', messages) := Session(content, s, events);
      s' == s && OnlyEnds(messages) && |messages| == |events|
  {
    if events != [] {
      SessionAtEnd(content, s, events[1..]);
    }
  }

  // The messages of a session that started in s and ended in s', split into blocks and "end"s.
  ghost predicate Delivered(content: seq<byte>, s: State, s': State, blocks: seq<Message>, ends: seq<Message>) {
    && OnlyEnds(ends)
    && (forall m :: m in blocks ==> m != End && Payload(m) != [])
    && Received(blocks + ends) == Received(blocks)
    && Received(blocks) + Rest(content, s'.pos) == Rest(content, s.pos)
    && (ends != [] ==> Received(blocks) == Rest(content, s.pos))
  }

  // Main theorem. From any seek position, any sequence of reads sends first non-empty blocks and
  // then only "end"s; the blocks are always a prefix of the rest of the file, and all of it as
  // soon as one "end" was sent. A session without an "end" sent a block for every event.
  lemma {:induction false} SessionDelivers(content: seq<byte>, s: State, events: seq<Event>)
    returns (blocks: seq<Message>, ends: seq<Message>)
    requires ReadEvents(events) && Settled(content, s) && !s.eof
    ensures Session(content, s, events).1 == blocks + ends
    ensures Delivered(content, s, Session(content, s, events).0, blocks, ends)
    ensures ends == [] ==> |events| <= |blocks|
    decreases |events|
  {
    if events == [] {
      return [], [];
    }
    assert ReadEvents(events[1..]);
    EventReads(content, s, events[0]);
    SessionUnfolded(content, s, events);
    hide ReadStreamSpec, Session, Rest, Payload, Ends, BlockSize, Delivered, Received, Peek;
    var (s1, first) := ReadStreamSpec(content, s, events[0]);
    var (s2, later) := Session(content, s1, events[1..]);
    if s1.eof {
      blocks := first[..|first| - 1];
      ends := [End] + later;
      SessionAtEnd(content, s1, events[1..]);
      Assoc(blocks, [End], later);
      DeliveredLast(content, s, s1, blocks, ends, BlockSize(events[0]));
    } else {
      var restBlocks;
      restBlocks, ends := SessionDelivers(content, s1, events[1..]);
      blocks := first + restBlocks;
      Assoc(first, restBlocks, ends);
      DeliveredMore(content, s, s1, s2, first, restBlocks, ends, BlockSize(events[0]));
    }
  }

  lemma SessionUnfolded(content: seq<byte>, s: State, events: seq<Event>)
    requires ReadEvents(events) && events != []
    ensures ReadEvents(events[1..]) && Ends(content, s, events[0])
    ensures var (s1, first) := ReadStreamSpec(content, s, events[0]);
            var (s2, later) := Session(content, s1, events[1..]);
            Session(content, s, events) == (s2, first + later)
  {
  }

  lemma DeliveredLast(content: seq<byte>, s: State, s1: State, blocks: seq<Message>, ends: seq<Message>, size: int)
    requires OnlyEnds(ends) && AllBlocks(blocks, size) && Settled(content, s1) && s1.eof
    requires Received(blocks) + Rest(content, s1.pos) == Rest(content, s.pos)
    ensures Delivered(content, s, s1, blocks, ends)
  {
    hide Payload;
    ReceivedEnds(ends);
    ReceivedAppend(blocks, ends);
    EndOfRest(content, s1);
  }

  lemma DeliveredMore(content: seq<byte>, s: State, s1: State, s2: State,
                      first: seq<Message>, blocks: seq<Message>, ends: seq<Message>, size: int)
    requires AllBlocks(first, size) && Received(first) + Rest(content, s1.pos) == Rest(content, s.pos)
    requires Delivered(content, s1, s2, blocks, ends)
    ensures Delivered(content, s, s2, first + blocks, ends)
  {
    hide Payload, Rest;
    ReceivedAppend(first, blocks);
    ReceivedEnds(ends);
    ReceivedAppend(first + blocks, ends);
    Assoc(Received(first), Received(blocks), Rest(content, s2.pos));
  }

  lemma EndOfRest(content: seq<byte>, s: State)
    requires Settled(content, s) && s.eof
    ensures Rest(content, s.pos) == []
  {
  }

  lemma {:induction false} ReceivedEnds(ends: seq<Message>)
    requires OnlyEnds(ends)
    ensures Received(ends) == []
  {
    if ends != [] {
      ReceivedEnds(ends[1..]);
    }
  }

  lemma {:induction false} BlocksAreBounded(blocks: seq<Message>)
    requires forall m :: m in blocks ==> Payload(m) != []
    ensures |blocks| <= |Received(blocks)|
  {
    if blocks != [] {
      BlocksAreBounded(blocks[1..]);
    }
  }

  // The end is reached: more read events than bytes left always include one "end".
  lemma EndIsReached(content: seq<byte>, pos: nat, events: seq<Event>)
    requires ReadEvents(events) && |events| > |Rest(content, pos)|
    ensures End in Session(content, State(pos, false, false), events).1
    ensures Received(Session(content, State(pos, false, false), events).1) == Rest(content, pos)
  {
    hide ReadStreamSpec, Session, Rest, Payload, Received;
    var blocks, ends := SessionDelivers(content, State(pos, false, false), events);
    BlocksAreBounded(blocks);
    assert ends != [];
    assert (blocks + ends)[|blocks|] == End;
  }

  // One readAll sends the whole rest followed by a single "end".
  lemma ReadAllDelivers(content: seq<byte>, pos: nat, evt: Event)
    requires IsRead(evt.eventType) && !IsSingle(evt.eventType) && BlockSize(evt) >= 1
    ensures var (s', messages) := ReadStreamSpec(content, State(pos, false, false), evt);
      && messages != [] && messages[|messages| - 1] == End && End !in messages[..|messages| - 1]
      && Received(messages[..|messages| - 1]) == Rest(content, pos)
  {
    EventReads(content, State(pos, false, false), evt);
    var (s', messages) := ReadStreamSpec(content, State(pos, false, false), evt);
    assert Rest(content, s'.pos) == [];
  }

  // ---------- Seeks and reads on an opened file ----------

  // The events that drive an opened file; a read must ask for at least one byte.
  predicate DrivingEvents(events: seq<Event>) {
    forall i :: 0 <= i < |events| ==>
      || events[i].eventType == "seek"
      || (IsRead(events[i].eventType) && BlockSize(events[i]) >= 1)
  }

  // updateOpenedFile, event by event.
  function Drive(file: Opened, events: seq<Event>): (Opened, seq<Message>)
    requires DrivingEvents(events)
    decreases |events|
  {
    if events == [] then (file, [])
    else
      var (file1, first) := UpdateSpec(file, events[0]);
      var (file2, later) := Drive(file1, events[1..]);
      (file2, first + later)
  }

  lemma {:induction false} DriveReads(file: Opened, events: seq<Event>)
    requires ReadEvents(events)
    ensures DrivingEvents(events)
    ensures var (s, messages) := Session(file.content, file.state, events);
      Drive(file, events) == (Opened(file.content, s), messages)
    decreases |events|
  {
    if events != [] {
      SessionUnfolded(file.content, file.state, events);
      hide ReadStreamSpec, Session;
      var (s1, first) := ReadStreamSpec(file.content, file.state, events[0]);
      DriveReads(Opened(file.content, s1), events[1..]);
      assert UpdateSpec(file, events[0]) == (Opened(file.content, s1), first);
    }
  }

  lemma {:induction false} DriveAppend(file: Opened, a: seq<Event>, b: seq<Event>)
    requires DrivingEvents(a) && DrivingEvents(b)
    ensures DrivingEvents(a + b)
    ensures var (file1, first) := Drive(file, a); var (file2, later) := Drive(file1, b);
      file1.content == file.content && Drive(file, a + b) == (file2, first + later)
    decreases |a|
  {
    hide UpdateSpec;
    if a == [] {
      assert a + b == b;
      assert [] + Drive(file, b).1 == Drive(file, b).1;
    } else {
      assert (a + b)[0] == a[0] && (a + b)[1..] == a[1..] + b;
      assert UpdateSpec(file, a[0]).0.content == file.content by { ContentStays(file, a[0]); }
      var (file1, first) := UpdateSpec(file, a[0]);
      DriveAppend(file1, a[1..], b);
      var (file2, more) := Drive(file1, a[1..]);
      Assoc(first, more, Drive(file2, b).1);
    }
  }

  lemma ContentStays(file: Opened, evt: Event)
    requires IsRead(evt.eventType) ==> Ends(file.content, file.state, evt)
    ensures UpdateSpec(file, evt).0.content == file.content
  {
  }

  // Main theorem over events. Whatever was read and sought before, even past the end: after a seek
  // any sequence of reads sends the bytes from the position sought, in blocks and then only "end"s,
  // and all of them once an "end" was sent. A negative position counts as 0.
  lemma SeekDelivers(file: Opened, earlier: seq<Event>, seek: Event, events: seq<Event>)
    returns (blocks: seq<Message>, ends: seq<Message>)
    requires DrivingEvents(earlier) && seek.eventType == "seek" && ReadEvents(events)
    ensures DrivingEvents(earlier + ([seek] + events))
    ensures var p := if seek.pos < 0 then 0 else seek.pos;
      var before := Drive(file, earlier).1; var (after, messages) := Drive(file, earlier + ([seek] + events));
      && messages == before + (blocks + ends)
      && (forall m :: m in blocks ==> m != End && Payload(m) != [])
      && (forall m :: m in ends ==> m == End)
      && Received(blocks) <= file.content[Min(p, |file.content|)..]
      && (ends != [] ==> Received(blocks) == file.content[Min(p, |file.content|)..])
      && (ends == [] ==> |events| <= |blocks|)
  {
    var p: nat := if seek.pos < 0 then 0 else seek.pos;
    var file1 := Drive(file, earlier).0;
    var start := State(p, false, false);
    SeekGoesThere(file1, seek);
    DriveReads(Opened(file1.content, start), events);
    DriveAppend(file1, [seek], events);
    DriveAppend(file, earlier, [seek] + events);
    assert file1.content == file.content by {
      DriveAppend(file, earlier, []);
    }
    hide Drive, ReadStreamSpec, Session, Payload, Received, Ends, BlockSize;
    blocks, ends := SessionDelivers(file.content, start, events);
    assert [] + (blocks + ends) == blocks + ends;
    assert Rest(file.content, p) == file.content[Min(p, |file.content|)..];
  }

  lemma SeekGoesThere(file: Opened, seek: Event)
    requires seek.eventType == "seek"
    ensures DrivingEvents([seek])
    ensures Drive(file, [seek]) == (Opened(file.content, State(if seek.pos < 0 then 0 else seek.pos, false, false)), [])
  {
    assert [seek][1..] == [];
    var sought := UpdateSpec(file, seek);
    assert sought == (Opened(file.content, State(if seek.pos < 0 then 0 else seek.pos, false, false)), []);
    var none: seq<Message> := [];
    assert Drive(sought.0, [seek][1..]) == (sought.0, none) && none + none == none;
  }

  // A seek and one readAll: exactly the bytes from there, and one "end".
  lemma SeekThenReadAll(file: Opened, seek: Event, evt: Event)
    requires seek.eventType == "seek" && (evt.eventType == "readAll" || evt.eventType == "readAllBinary")
    requires evt.size != 0
    ensures DrivingEvents([seek, evt])
    ensures var p := if seek.pos < 0 then 0 else seek.pos; var messages := Drive(file, [seek, evt]).1;
      && messages != [] && messages[|messages| - 1] == End && End !in messages[..|messages| - 1]
      && Received(messages[..|messages| - 1]) == file.content[Min(p, |file.content|)..]
  {
    var p: nat := if seek.pos < 0 then 0 else seek.pos;
    var start := State(p, false, false);
    SeekGoesThere(file, seek);
    ReadAllDelivers(file.content, p, evt);
    assert [seek] + [evt] == [seek, evt];
    DriveAppend(file, [seek], [evt]);
    var (s, messages) := ReadStreamSpec(file.content, start, evt);
    assert Drive(Opened(file.content, start), [evt]).1 == messages by {
      assert [evt][1..] == [] && messages + [] == messages;
    }
    assert [] + messages == messages;
    assert Rest(file.content, p) == file.content[Min(p, |file.content|)..];
  }

  // What one "read" or "readBinary" sends: the next bytes, as many as asked for or 256, and an
  // "end" exactly when the file holds fewer.
  lemma ReadSendsOneBlock(content: seq<byte>, pos: nat, evt: Event)
    requires (evt.eventType == "read" || evt.eventType == "readBinary") && evt.size != 0 && pos < |content|
    ensures var n := if evt.size < 0 then 256 else evt.size;
      var messages := ReadStreamSpec(content, State(pos, false, false), evt).1;
      && |messages| == (if n > |content| - pos then 2 else 1)
      && messages[0] != End && Payload(messages[0]) == content[pos..Min(pos + n, |content|)]
      && (|messages| == 2 ==> messages[1] == End)
  {
    var n := if evt.size < 0 then 256 else evt.size;
    var s := State(pos, false, false);
    var (s', block) := Read(content, s, n);
    assert BlockSize(evt) == n;
    LoopUnfolded(content, s, evt);
    BlockPayload(evt, block);
    var rest := Rest(content, pos);
    assert rest[..Min(n, |rest|)] == content[pos..Min(pos + n, |content|)];
    hide ReadLoop, Payload;
  }

  // The binary events send binary blocks and the others text blocks, none longer than asked for.
  lemma {:induction false} KindOfBlocks(content: seq<byte>, s: State, evt: Event)
    requires IsRead(evt.eventType) && evt.size != 0 && Settled(content, s)
    ensures forall m :: m in ReadStreamSpec(content, s, evt).1 ==>
              || m == End
              || (&& |Payload(m)| <= (if evt.size < 0 then 256 else evt.size)
                  && (m.DataBinary? <==> evt.eventType == "readBinary" || evt.eventType == "readAllBinary"))
  {
    EventReads(content, s, evt);
    BinaryEvents(evt.eventType);
    hide IsBinary;
    if !s.eof {
      LoopKinds(content, s, evt);
      var (s', blocks) := ReadLoop(content, s, evt);
      assert AllBlocks(blocks, BlockSize(evt)) by {
        LoopReads(content, s, evt);
      }
    }
  }

  lemma BinaryEvents(eventType: string)
    requires IsRead(eventType)
    ensures IsBinary(eventType) <==> eventType == "readBinary" || eventType == "readAllBinary"
  {
    assert "readBinary"[4..] == "Binary" && "readAllBinary"[7..] == "Binary";
    assert "readAll"[1..] != "Binary" by {
      assert "readAll"[1..][0] == 'e';
    }
  }

  lemma {:induction false} LoopKinds(content: seq<byte>, s: State, evt: Event)
    requires Ends(content, s, evt)
    ensures forall m :: m in ReadLoop(content, s, evt).1 ==> m != End && (m.DataBinary? <==> IsBinary(evt.eventType))
    decreases |Rest(content, s.pos)|
  {
    LoopUnfolded(content, s, evt);
    var (s1, c) := Peek(content, s);
    if c.Some? && !IsSingle(evt.eventType) {
      LoopKinds(content, Read(content, s1, BlockSize(evt)).0, evt);
    }
  }
}
