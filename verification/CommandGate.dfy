// tokenizeCommand of helpers.cpp and the command allow list of auth/permission.cpp.
module CommandGate {
  import opened Common
  import opened Strings
  import Glob

  datatype Mode = Plain | InSingle | InDouble

  // strchr(";|&><$`(){}\\\n\r", c) != nullptr, which also finds the terminating NUL.
  predicate IsMeta(c: char) {
    || c == ';' || c == '|' || c == '&' || c == '>' || c == '<' || c == '$' || c == '`'
    || c == '(' || c == ')' || c == '{' || c == '}' || c == '\\' || c == '\n' || c == '\r' || c == '\0'
  }

  // ---------- The tokenizer ----------

  datatype Scan = Scan(mode: Mode, current: string, tokens: seq<string>)

  function Flush(s: Scan): Scan {
    if s.current == "" then s else s.(current := "", tokens := s.tokens + [s.current])
  }

  // One character; None when the command is rejected.
  function Next(s: Scan, c: char): Option<Scan> {
    match s.mode
    case Plain =>
      if IsSpace(c) then Some(Flush(s))
      else if c == '\'' then Some(s.(mode := InSingle))
      else if c == '"' then Some(s.(mode := InDouble))
      else if IsMeta(c) then None
      else Some(s.(current := s.current + [c]))
    case InSingle =>
      Some(if c == '\'' then s.(mode := Plain) else s.(current := s.current + [c]))
    case InDouble =>
      Some(if c == '"' then s.(mode := Plain) else s.(current := s.current + [c]))
  }

  // The tokens; None for a metacharacter outside quotes or a quote left open.
  function TokenizeFrom(s: Scan, command: string): Option<seq<string>>
    decreases |command|
  {
    if command == "" then
      if s.mode == Plain then Some(Flush(s).tokens) else None
    else match Next(s, command[0])
      case None => None
      case Some(s') => TokenizeFrom(s', command[1..])
  }

  const START := Scan(Plain, "", [])

  // A rejected command has no tokens.
  function Tokens(command: string): seq<string> {
    match TokenizeFrom(START, command)
    case None => []
    case Some(tokens) => tokens
  }

  method TokenizeCommand(command: string) returns (tokens: seq<string>)
    ensures tokens == Tokens(command)
  {
    tokens := [];
    var current := "";
    var inSingle, inDouble := false, false;
    assert command[0..] == command;
    for i := 0 to |command|
      invariant !(inSingle && inDouble)
      invariant TokenizeFrom(START, command)
             == TokenizeFrom(Scan(if inSingle then InSingle else if inDouble then InDouble else Plain,
                                  current, tokens), command[i..])
    {
      var c := command[i];
      assert command[i..][0] == c && command[i..][1..] == command[i + 1..];
      if !inSingle && !inDouble {
        if IsSpace(c) {
          if current != "" {
            tokens := tokens + [current];
            current := "";
          }
        } else if c == '\'' {
          inSingle := true;
        } else if c == '"' {
          inDouble := true;
        } else if IsMeta(c) {
          return [];
        } else {
          current := current + [c];
        }
      } else if inSingle {
        if c == '\'' {
          inSingle := false;
        } else {
          current := current + [c];
        }
      } else {
        if c == '"' {
          inDouble := false;
        } else {
          current := current + [c];
        }
      }
    }
    if inSingle || inDouble {
      return [];
    }
    if current != "" {
      tokens := tokens + [current];
    }
  }

  // ---------- Words come back ----------

  // A word is written in segments, each bare or between quotes; whitespace follows it.
  datatype Segment = Bare(text: string) | Quoted(text: string, quote: char)
  datatype Word = Word(segments: seq<Segment>, gap: string)

  predicate AllSpace(s: string) {
    forall i :: 0 <= i < |s| ==> IsSpace(s[i])
  }

  // A character that stands for itself outside quotes.
  predicate Ordinary(c: char) {
    !IsSpace(c) && c != '\'' && c != '"' && !IsMeta(c)
  }

  predicate WellWritten(seg: Segment) {
    match seg
    case Bare(text) => forall i :: 0 <= i < |text| ==> Ordinary(text[i])
    case Quoted(text, quote) => (quote == '\'' || quote == '"') && quote !in text
  }

  predicate WellFormed(w: Word, last: bool) {
    && (forall i :: 0 <= i < |w.segments| ==> WellWritten(w.segments[i]))
    && AllSpace(w.gap) && (w.gap != "" || last)
  }

  predicate WellFormedLine(ws: seq<Word>) {
    forall i :: 0 <= i < |ws| ==> WellFormed(ws[i], i == |ws| - 1)
  }

  function Spelling(seg: Segment): string {
    match seg
    case Bare(text) => text
    case Quoted(text, quote) => [quote] + (text + [quote])
  }

  function Spelled(segs: seq<Segment>): string {
    if segs == [] then "" else Spelling(segs[0]) + Spelled(segs[1..])
  }

  // The text that the segments of a word stand for.
  function TextOf(segs: seq<Segment>): string {
    if segs == [] then "" else segs[0].text + TextOf(segs[1..])
  }

  function Line(ws: seq<Word>): string {
    if ws == [] then "" else Spelled(ws[0].segments) + (ws[0].gap + Line(ws[1..]))
  }

  // The words' texts; a word like '' that stands for no text is dropped.
  function Args(ws: seq<Word>): seq<string> {
    if ws == [] then []
    else (if TextOf(ws[0].segments) == "" then [] else [TextOf(ws[0].segments)]) + Args(ws[1..])
  }

  lemma {:induction false} QuotedText(s: Scan, arg: string, quote: char, rest: string)
    requires quote == '\'' || quote == '"'
    requires s.mode == (if quote == '\'' then InSingle else InDouble) && quote !in arg
    ensures TokenizeFrom(s, arg + ([quote] + rest))
         == TokenizeFrom(Scan(Plain, s.current + arg, s.tokens), rest)
    decreases |arg|
  {
    var t := arg + ([quote] + rest);
    if arg == "" {
      assert t == [quote] + rest && t[1..] == rest && s.current + arg == s.current;
    } else {
      assert t[1..] == arg[1..] + ([quote] + rest);
      QuotedText(s.(current := s.current + [arg[0]]), arg[1..], quote, rest);
      assert s.current + [arg[0]] + arg[1..] == s.current + arg;
    }
  }

  lemma {:induction false} BareText(s: Scan, text: string, rest: string)
    requires s.mode == Plain && WellWritten(Bare(text))
    ensures TokenizeFrom(s, text + rest) == TokenizeFrom(s.(current := s.current + text), rest)
    decreases |text|
  {
    if text == "" {
      assert text + rest == rest && s.current + text == s.current;
    } else {
      assert (text + rest)[0] == text[0] && (text + rest)[1..] == text[1..] + rest;
      assert WellWritten(Bare(text[1..]));
      BareText(s.(current := s.current + [text[0]]), text[1..], rest);
      assert s.current + [text[0]] + text[1..] == s.current + text;
    }
  }

  lemma {:induction false} Gap(s: Scan, gap: string, rest: string)
    requires s.mode == Plain && AllSpace(gap) && gap != ""
    ensures TokenizeFrom(s, gap + rest) == TokenizeFrom(Flush(s), rest)
    decreases |gap|
  {
    assert (gap + rest)[0] == gap[0] && (gap + rest)[1..] == gap[1..] + rest;
    if |gap| == 1 {
      assert gap[1..] + rest == rest;
    } else {
      assert AllSpace(gap[1..]);
      Gap(Flush(s), gap[1..], rest);
    }
  }

  lemma QuoteOpens(s: Scan, quote: char)
    requires s.mode == Plain && (quote == '\'' || quote == '"')
    ensures Next(s, quote) == Some(s.(mode := if quote == '\'' then InSingle else InDouble))
  {
  }

  lemma OneSegment(s: Scan, seg: Segment, rest: string)
    requires s.mode == Plain && WellWritten(seg)
    ensures TokenizeFrom(s, Spelling(seg) + rest) == TokenizeFrom(s.(current := s.current + seg.text), rest)
  {
    match seg
    case Bare(text) => BareText(s, text, rest);
    case Quoted(text, quote) =>
      var t := Spelling(seg) + rest;
      assert t[0] == quote && t[1..] == text + ([quote] + rest);
      QuoteOpens(s, quote);
      QuotedText(s.(mode := if quote == '\'' then InSingle else InDouble), text, quote, rest);
  }

  lemma {:induction false} SegmentsText(s: Scan, segs: seq<Segment>, rest: string)
    requires s.mode == Plain && forall i :: 0 <= i < |segs| ==> WellWritten(segs[i])
    ensures TokenizeFrom(s, Spelled(segs) + rest) == TokenizeFrom(s.(current := s.current + TextOf(segs)), rest)
    decreases |segs|
  {
    hide TokenizeFrom, Spelling, WellWritten;
    if segs == [] {
      assert "" + rest == rest && s.current + "" == s.current;
    } else {
      Assoc(Spelling(segs[0]), Spelled(segs[1..]), rest);
      OneSegment(s, segs[0], Spelled(segs[1..]) + rest);
      SegmentsText(s.(current := s.current + segs[0].text), segs[1..], rest);
      Assoc(s.current, segs[0].text, TextOf(segs[1..]));
    }
  }

  lemma TailWellFormed(ws: seq<Word>)
    requires WellFormedLine(ws) && ws != []
    ensures WellFormedLine(ws[1..]) && WellFormed(ws[0], |ws| == 1)
  {
    forall i | 0 <= i < |ws[1..]| ensures WellFormed(ws[1..][i], i == |ws[1..]| - 1) {
      assert ws[1..][i] == ws[i + 1];
    }
  }

  // The end of one word, before the rest of the line.
  lemma EndOfWord(tokens: seq<string>, w: Word, line: string)
    requires WellFormed(w, line == "")
    ensures var text := TextOf(w.segments);
      TokenizeFrom(Scan(Plain, text, tokens), w.gap + line)
      == TokenizeFrom(Scan(Plain, "", tokens + if text == "" then [] else [text]), line)
  {
    var after := Scan(Plain, TextOf(w.segments), tokens);
    assert tokens + [] == tokens;
    if w.gap == "" {
      assert w.gap + line == "";
    } else {
      Gap(after, w.gap, line);
    }
  }

  lemma {:induction false} LineTokens(tokens: seq<string>, ws: seq<Word>)
    requires WellFormedLine(ws)
    ensures TokenizeFrom(Scan(Plain, "", tokens), Line(ws)) == Some(tokens + Args(ws))
    decreases |ws|
  {
    if ws == [] {
      assert tokens + [] == tokens;
    } else {
      TailWellFormed(ws);
      var w, line := ws[0], Line(ws[1..]);
      var text := TextOf(w.segments);
      var mine := if text == "" then [] else [text];
      assert |ws| == 1 ==> line == "";
      assert WellFormed(w, line == "");
      hide TokenizeFrom, WellFormed, WellFormedLine, Spelled, TextOf, Args, Line;
      SegmentsText(Scan(Plain, "", tokens), w.segments, w.gap + line);
      assert "" + text == text;
      EndOfWord(tokens, w, line);
      LineTokens(tokens + mine, ws[1..]);
      Assoc(tokens, mine, Args(ws[1..]));
      LineAndArgs(ws);
    }
  }

  lemma LineAndArgs(ws: seq<Word>)
    requires ws != []
    ensures Line(ws) == Spelled(ws[0].segments) + (ws[0].gap + Line(ws[1..]))
    ensures Args(ws) == (if TextOf(ws[0].segments) == "" then [] else [TextOf(ws[0].segments)]) + Args(ws[1..])
  {
  }

  // Words come back, however they are quoted: bare words, quoted arguments, and words put
  // together of both. A quoted argument is a word of one quoted segment.
  lemma WordsComeBack(lead: string, ws: seq<Word>)
    requires AllSpace(lead) && WellFormedLine(ws)
    ensures TokenizeFrom(START, lead + Line(ws)) == Some(Args(ws))
    ensures Tokens(lead + Line(ws)) == Args(ws)
  {
    LineTokens([], ws);
    assert [] + Args(ws) == Args(ws);
    if lead == "" {
      assert lead + Line(ws) == Line(ws);
    } else {
      Gap(START, lead, Line(ws));
    }
  }

  // Arguments between quotes that they do not contain, with whitespace between them.
  function QuotedWords(args: seq<string>, quotes: seq<char>, gaps: seq<string>): seq<Word>
    requires |args| == |quotes| == |gaps|
  {
    seq(|args|, i requires 0 <= i < |args| => Word([Quoted(args[i], quotes[i])], gaps[i]))
  }

  // Quoting every non-empty argument and joining with whitespace is undone.
  lemma QuotingIsUndone(lead: string, args: seq<string>, quotes: seq<char>, gaps: seq<string>)
    requires |args| == |quotes| == |gaps| && AllSpace(lead)
    requires forall i :: 0 <= i < |args| ==>
               && args[i] != "" && (quotes[i] == '\'' || quotes[i] == '"') && quotes[i] !in args[i]
               && AllSpace(gaps[i]) && (gaps[i] != "" || i == |args| - 1)
    ensures WellFormedLine(QuotedWords(args, quotes, gaps))
    ensures Tokens(lead + Line(QuotedWords(args, quotes, gaps))) == args
  {
    var ws := QuotedWords(args, quotes, gaps);
    forall i | 0 <= i < |ws|
      ensures WellFormed(ws[i], i == |ws| - 1) && TextOf(ws[i].segments) == args[i]
    {
      assert ws[i].segments[1..] == [];
      assert args[i] + "" == args[i];
    }
    WordsComeBack(lead, ws);
    ArgsOfTexts(ws, args);
  }

  lemma {:induction false} ArgsOfTexts(ws: seq<Word>, args: seq<string>)
    requires |ws| == |args|
    requires forall i :: 0 <= i < |ws| ==> args[i] != "" && TextOf(ws[i].segments) == args[i]
    ensures Args(ws) == args
  {
    hide TextOf;
    if ws != [] {
      ArgsOfTexts(ws[1..], args[1..]);
      assert args == [args[0]] + args[1..];
    }
  }

  // ---------- When there are no tokens ----------

  // The quoting state before position i, from the quotes alone.
  function ModeAt(command: string, i: nat): Mode
    requires i <= |command|
  {
    if i == 0 then Plain
    else
      var m := ModeAt(command, i - 1);
      var c := command[i - 1];
      if m == Plain then (if c == '\'' then InSingle else if c == '"' then InDouble else Plain)
      else if m == InSingle then (if c == '\'' then Plain else m)
      else (if c == '"' then Plain else m)
  }

  predicate UnquotedMeta(command: string, i: nat)
    requires i < |command|
  {
    ModeAt(command, i) == Plain && IsMeta(command[i]) && !IsSpace(command[i])
  }

  // Position i puts its character into a token.
  predicate Contributes(command: string, i: nat)
    requires i < |command|
  {
    match ModeAt(command, i)
    case Plain => !IsSpace(command[i]) && command[i] != '\'' && command[i] != '"'
    case InSingle => command[i] != '\''
    case InDouble => command[i] != '"'
  }

  // The contributed characters of command[i..], in order.
  function Contribution(command: string, i: nat): string
    requires i <= |command|
    decreases |command| - i
  {
    if i == |command| then ""
    else (if Contributes(command, i) then [command[i]] else "") + Contribution(command, i + 1)
  }

  predicate Rejected(command: string, i: nat)
    requires i <= |command|
  {
    (exists k :: i <= k < |command| && UnquotedMeta(command, k)) || ModeAt(command, |command|) != Plain
  }

  ghost predicate NoneEmpty(tokens: seq<string>) {
    forall k :: 0 <= k < |tokens| ==> tokens[k] != ""
  }

  lemma {:induction false} ScanFacts(command: string, i: nat, s: Scan)
    requires i <= |command| && s.mode == ModeAt(command, i) && NoneEmpty(s.tokens)
    ensures var ts := TokenizeFrom(s, command[i..]);
      && (Rejected(command, i) <==> ts == None)
      && (ts.Some? ==> NoneEmpty(ts.value) && Concat(ts.value) == Text(s) + Contribution(command, i))
    decreases |command| - i
  {
    hide IsSpace, IsMeta, Text, Contributes, UnquotedMeta;
    if i == |command| {
      FlushKeepsText(s);
      assert Text(Flush(s)) == Concat(Flush(s).tokens) + "" by { TextOfFlushed(Flush(s)); }
    } else {
      var c := command[i];
      assert command[i..][0] == c && command[i..][1..] == command[i + 1..];
      var next := Next(s, c);
      NextAgrees(command, i, s);
      if next.Some? {
        NextText(command, i, s);
        assert NoneEmpty(next.value.tokens);
        hide Next;
        ScanFacts(command, i + 1, next.value);
        assert Rejected(command, i) <==> Rejected(command, i + 1);
        Assoc(Text(s), if Contributes(command, i) then [c] else "", Contribution(command, i + 1));
      }
    }
  }

  lemma TextOfFlushed(s: Scan)
    requires s.current == ""
    ensures Text(s) == Concat(s.tokens) + ""
  {
  }

  // The characters a scan has collected.
  function Text(s: Scan): string {
    Concat(s.tokens) + s.current
  }

  lemma FlushKeepsText(s: Scan)
    ensures Text(Flush(s)) == Text(s)
  {
    ConcatAppend(s.tokens, [s.current]);
    assert [s.current][1..] == [] && Concat([s.current]) == s.current + Concat([]);
    assert Concat(s.tokens) + s.current + "" == Concat(s.tokens) + s.current;
  }

  lemma NextAgrees(command: string, i: nat, s: Scan)
    requires i < |command| && s.mode == ModeAt(command, i)
    ensures Next(s, command[i]) == None <==> UnquotedMeta(command, i)
    ensures Next(s, command[i]).Some? ==> Next(s, command[i]).value.mode == ModeAt(command, i + 1)
  {
  }

  lemma NextText(command: string, i: nat, s: Scan)
    requires i < |command| && s.mode == ModeAt(command, i) && Next(s, command[i]).Some?
    ensures Text(Next(s, command[i]).value)
         == Text(s) + if Contributes(command, i) then [command[i]] else ""
  {
    hide IsMeta, ModeAt, Concat, Text;
    FlushKeepsText(s);
    assert Text(s) + "" == Text(s);
    GrowText(s, command[i]);
    TextIgnoresMode(s);
  }

  lemma GrowText(s: Scan, c: char)
    ensures Text(s.(current := s.current + [c])) == Text(s) + [c]
  {
  }

  lemma TextIgnoresMode(s: Scan)
    ensures forall m :: Text(s.(mode := m)) == Text(s)
  {
  }

  lemma {:induction false} NoContribution(command: string, i: nat)
    requires i <= |command|
    ensures Contribution(command, i) == "" <==> forall k :: i <= k < |command| ==> !Contributes(command, k)
    decreases |command| - i
  {
    hide Contributes;
    if i < |command| {
      NoContribution(command, i + 1);
    }
  }

  // Nothing is lost or invented: unless the command is rejected, its tokens are non-empty and
  // together hold exactly the contributed characters, in order.
  lemma TokensKeepText(command: string)
    ensures NoneEmpty(Tokens(command))
    ensures Rejected(command, 0) ==> Tokens(command) == []
    ensures !Rejected(command, 0) ==> Concat(Tokens(command)) == Contribution(command, 0)
  {
    ScanFacts(command, 0, START);
    assert command[0..] == command;
    assert "" + "" + Contribution(command, 0) == Contribution(command, 0);
  }

  // The tokenizer returns nothing exactly when an unquoted metacharacter occurs, a quote is
  // open at the end, or no character belongs to a token.
  lemma NoTokensIff(command: string)
    ensures Tokens(command) == [] <==>
            || (exists k :: 0 <= k < |command| && UnquotedMeta(command, k))
            || ModeAt(command, |command|) != Plain
            || (forall k :: 0 <= k < |command| ==> !Contributes(command, k))
  {
    TokensKeepText(command);
    NoContribution(command, 0);
    var ts := Tokens(command);
    assert ts != [] ==> |Concat(ts)| >= |ts[0]|;
  }

  // ---------- Every accepted command is a line of words ----------

  // Puts one more segment in front of a line.
  function Attach(seg: Segment, lead: string, ws: seq<Word>): seq<Word> {
    if lead == "" && ws != [] then [ws[0].(segments := [seg] + ws[0].segments)] + ws[1..]
    else [Word([seg], lead)] + ws
  }

  lemma AttachSpells(seg: Segment, lead: string, ws: seq<Word>)
    requires WellWritten(seg) && AllSpace(lead) && WellFormedLine(ws)
    ensures WellFormedLine(Attach(seg, lead, ws))
    ensures Line(Attach(seg, lead, ws)) == Spelling(seg) + (lead + Line(ws))
  {
    var all := Attach(seg, lead, ws);
    hide WellWritten, Spelling;
    if lead == "" && ws != [] {
      TailWellFormed(ws);
      var segs := [seg] + ws[0].segments;
      assert segs[1..] == ws[0].segments && all[1..] == ws[1..];
      assert Spelled(segs) == Spelling(seg) + Spelled(ws[0].segments);
      Assoc(Spelling(seg), Spelled(ws[0].segments), ws[0].gap + Line(ws[1..]));
      assert lead + Line(ws) == Line(ws);
    } else {
      assert all[1..] == ws && [seg][1..] == [];
      assert Spelled([seg]) == Spelling(seg) + "" == Spelling(seg);
    }
  }

  // What is left of a command at position i: the rest of the quoted text the position is in, its
  // closing quote, and then whitespace and words.
  ghost predicate Splits(command: string, i: nat, text: string, lead: string, ws: seq<Word>)
    requires i <= |command|
  {
    && AllSpace(lead) && WellFormedLine(ws)
    && match ModeAt(command, i)
       case Plain => text == "" && command[i..] == lead + Line(ws)
       case InSingle => '\'' !in text && command[i..] == text + (['\''] + (lead + Line(ws)))
       case InDouble => '"' !in text && command[i..] == text + (['"'] + (lead + Line(ws)))
  }

  lemma {:induction false} SplitFrom(command: string, i: nat) returns (text: string, lead: string, ws: seq<Word>)
    requires i <= |command| && !Rejected(command, i)
    ensures Splits(command, i, text, lead, ws)
    decreases |command| - i
  {
    if i == |command| {
      text, lead, ws := "", "", [];
    } else {
      text, lead, ws := SplitFrom(command, i + 1);
      if ModeAt(command, i) == Plain {
        lead, ws := SplitOutside(command, i, text, lead, ws);
        text := "";
      } else {
        text := SplitInside(command, i, text, lead, ws);
      }
    }
  }

  lemma SplitOutside(command: string, i: nat, text: string, lead: string, ws: seq<Word>)
    returns (lead': string, ws': seq<Word>)
    requires i < |command| && !Rejected(command, i) && ModeAt(command, i) == Plain
    requires Splits(command, i + 1, text, lead, ws)
    ensures Splits(command, i, "", lead', ws')
  {
    var c := command[i];
    assert command[i..] == [c] + command[i + 1..];
    assert IsMeta(c) ==> IsSpace(c) by {
      assert !UnquotedMeta(command, i);
    }
    hide IsMeta, WellFormedLine, Line, Rejected;
    if IsSpace(c) {
      Assoc([c], lead, Line(ws));
      lead', ws' := [c] + lead, ws;
    } else {
      var seg := if c == '\'' || c == '"' then Quoted(text, c) else Bare([c]);
      assert WellWritten(seg);
      SegmentSpells(c, text, lead + Line(ws));
      hide IsSpace, WellWritten;
      AttachSpells(seg, lead, ws);
      lead', ws' := "", Attach(seg, lead, ws);
      assert lead' + Line(ws') == Line(ws');
    }
  }

  lemma SplitInside(command: string, i: nat, text: string, lead: string, ws: seq<Word>) returns (text': string)
    requires i < |command| && ModeAt(command, i) != Plain
    requires Splits(command, i + 1, text, lead, ws)
    ensures Splits(command, i, text', lead, ws)
  {
    var c := command[i];
    var quote := if ModeAt(command, i) == InSingle then '\'' else '"';
    assert command[i..] == [c] + command[i + 1..];
    if c == quote {
      text' := "";
    } else {
      Assoc([c], text, [quote] + (lead + Line(ws)));
      text' := [c] + text;
    }
  }

  lemma SegmentSpells(c: char, text: string, rest: string)
    ensures [c] + (text + ([c] + rest)) == Spelling(Quoted(text, c)) + rest
  {
    Assoc([c], text + [c], rest);
    Assoc(text, [c], rest);
  }

  // The tokenizer, completely: a command is accepted exactly when it is whitespace and words, and
  // then the tokens are the texts of the words.
  lemma AcceptedIffWords(command: string)
    ensures !Rejected(command, 0) <==> exists lead, ws :: IsLine(command, lead, ws)
    ensures forall lead, ws :: IsLine(command, lead, ws) ==> Tokens(command) == Args(ws)
  {
    if !Rejected(command, 0) {
      var text, lead, ws := SplitFrom(command, 0);
      assert command[0..] == command;
      assert IsLine(command, lead, ws);
    }
    forall lead, ws | IsLine(command, lead, ws)
      ensures Tokens(command) == Args(ws) && !Rejected(command, 0)
    {
      WordsComeBack(lead, ws);
      ScanFacts(command, 0, START);
      assert command[0..] == command;
    }
  }

  ghost predicate IsLine(command: string, lead: string, ws: seq<Word>) {
    AllSpace(lead) && WellFormedLine(ws) && command == lead + Line(ws)
  }

  // ---------- The characters, written out ----------

  // The characters of the code's strchr, without the two that isspace takes first.
  lemma MetaAre(c: char)
    ensures IsMeta(c) && !IsSpace(c) <==> c in ";|&><$`(){}\\" || c == '\0'
  {
    var metas := ";|&><$`(){}\\";
    assert metas[0] == ';' && metas[1] == '|' && metas[2] == '&' && metas[3] == '>' && metas[4] == '<' && metas[5] == '$';
    assert metas[6] == '`' && metas[7] == '(' && metas[8] == ')' && metas[9] == '{' && metas[10] == '}' && metas[11] == '\\';
    assert |metas| == 12;
  }

  // The quotes alone decide which characters are unquoted; one of the metacharacters among them, or
  // a NUL, leaves no tokens, and so does a quote that is open at the end; nothing else rejects.
  lemma MetacharactersReject(command: string)
    ensures TokenizeFrom(START, command) == None <==>
            || (exists k :: 0 <= k < |command| && ModeAt(command, k) == Plain
                            && (command[k] in ";|&><$`(){}\\" || command[k] == '\0'))
            || ModeAt(command, |command|) != Plain
    ensures TokenizeFrom(START, command) == None ==> Tokens(command) == []
  {
    ScanFacts(command, 0, START);
    assert command[0..] == command;
    forall k | 0 <= k < |command|
      ensures UnquotedMeta(command, k) <==>
              ModeAt(command, k) == Plain && (command[k] in ";|&><$`(){}\\" || command[k] == '\0')
    {
      MetaAre(command[k]);
    }
    hide UnquotedMeta, ModeAt, TokenizeFrom;
  }

  // A bare word of other characters is one token.
  lemma PlainWordIsOneToken(word: string)
    requires word != "" && forall i :: 0 <= i < |word| ==>
               && word[i] !in ";|&><$`(){}\\" && word[i] != '\0' && word[i] != '\'' && word[i] != '"'
               && word[i] !in " \t\n\U{000B}\U{000C}\r"
    ensures Tokens(word) == [word]
  {
    var ws := [Word([Bare(word)], "")];
    forall i | 0 <= i < |word| ensures Ordinary(word[i]) {
      MetaAre(word[i]);
      SpacesAre(word[i]);
    }
    hide Ordinary;
    assert WellFormed(ws[0], true);
    assert [Bare(word)][1..] == [] && ws[1..] == [];
    var seg := Bare(word);
    assert TextOf([seg]) == seg.text + TextOf([]) == word;
    assert Spelled([seg]) == Spelling(seg) + Spelled([]) == word;
    assert Line(ws) == word + ("" + "") && word + ("" + "") == word && "" + word == word;
    WordsComeBack("", ws);
  }

  // Where a scan stands after a text; None when it was rejected.
  function ScanTo(s: Scan, text: string): Option<Scan>
    decreases |text|
  {
    if text == "" then Some(s)
    else match Next(s, text[0])
      case None => None
      case Some(s') => ScanTo(s', text[1..])
  }

  lemma {:induction false} ScanInTwo(s: Scan, a: string, b: string)
    ensures TokenizeFrom(s, a + b) == if ScanTo(s, a) == None then None else TokenizeFrom(ScanTo(s, a).value, b)
    decreases |a|
  {
    if a == "" {
      assert a + b == b;
    } else {
      assert (a + b)[0] == a[0] && (a + b)[1..] == a[1..] + b;
      hide Next;
      if Next(s, a[0]).Some? {
        ScanInTwo(Next(s, a[0]).value, a[1..], b);
      }
    }
  }

  lemma {:induction false} EarlierTokens(s: Scan, earlier: seq<string>, b: string)
    ensures var later := TokenizeFrom(s, b);
      TokenizeFrom(s.(tokens := earlier + s.tokens), b) == if later == None then None else Some(earlier + later.value)
    decreases |b|
  {
    var t := s.(tokens := earlier + s.tokens);
    if b == "" {
      Assoc(earlier, s.tokens, [s.current]);
    } else {
      NextWithEarlier(s, earlier, b[0]);
      hide Next;
      if Next(s, b[0]).Some? {
        EarlierTokens(Next(s, b[0]).value, earlier, b[1..]);
      }
    }
  }

  lemma NextWithEarlier(s: Scan, earlier: seq<string>, c: char)
    ensures var t := s.(tokens := earlier + s.tokens);
      Next(t, c) == match Next(s, c)
                    case None => None
                    case Some(s') => Some(s'.(tokens := earlier + s'.tokens))
  {
    hide IsSpace, IsMeta;
    Assoc(earlier, s.tokens, [s.current]);
  }

  // Outside quotes a space, tab, newline, vertical tab, form feed or carriage return only separates:
  // the tokens are those of the two parts.
  lemma WhitespaceSeparates(a: string, c: char, b: string)
    requires TokenizeFrom(START, a).Some? && c in " \t\n\U{000B}\U{000C}\r"
    ensures TokenizeFrom(START, a + ([c] + b))
         == if TokenizeFrom(START, b) == None then None else Some(Tokens(a) + Tokens(b))
  {
    SpacesAre(c);
    ScanInTwo(START, a, "");
    assert a + "" == a;
    ScanInTwo(START, a, [c] + b);
    var s := ScanTo(START, a).value;
    assert s.mode == Plain && Tokens(a) == Flush(s).tokens;
    Gap(s, [c], b);
    EarlierTokens(START, Tokens(a), b);
    assert Tokens(a) + [] == Tokens(a);
    assert Flush(s) == START.(tokens := Tokens(a) + START.tokens);
  }

  // ---------- The gate ----------

  method GlobalMatch(value: string, pattern: string) returns (ok: bool)
    ensures ok <==> Glob.RegexMatch(Glob.Compile(pattern), value)
  {
    var regexStr := Glob.CompileGlob(pattern);
    // std::regex_match(value, regex(regexStr)); the engine is represented by its meaning.
    Glob.CompilationPreservesMeaning(pattern, value);
    ok := Glob.Glob(pattern, value, false);
  }

  // `patterns` is None when no commandAllowList is configured.
  method HasCommandExecutionAccess(patterns: Option<seq<string>>, command: string) returns (ok: bool)
    ensures ok <==>
            || patterns == None
            || patterns.value == []
            || (Tokens(command) != [] &&
                exists i :: 0 <= i < |patterns.value|
                            && Glob.RegexMatch(Glob.Compile(patterns.value[i]), Tokens(command)[0]))
    ensures patterns.Some? && patterns.value != []
            && (exists k :: 0 <= k < |command| && ModeAt(command, k) == Plain
                            && (command[k] in ";|&><$`(){}\\" || command[k] == '\0'))
            ==> !ok
  {
    MetacharactersReject(command);
    hide ModeAt, TokenizeFrom;
    if patterns == None || patterns.value == [] {
      return true;
    }
    var tokens := TokenizeCommand(command);
    if tokens == [] {
      return false;
    }
    var program := tokens[0];
    for i := 0 to |patterns.value|
      invariant forall k :: 0 <= k < i ==> !Glob.RegexMatch(Glob.Compile(patterns.value[k]), program)
    {
      var matched := GlobalMatch(program, patterns.value[i]);
      if matched {
        return true;
      }
    }
    return false;
  }

  // End to end: a command of words whose first is a program name without line terminators passes a
  // pattern exactly when the pattern globs the name, however the words are quoted.
  lemma ProgramGate(lead: string, ws: seq<Word>, pattern: string)
    requires AllSpace(lead) && WellFormedLine(ws) && Args(ws) != [] && Glob.NoLineTerminators(Args(ws)[0])
    ensures Tokens(lead + Line(ws)) != []
    ensures Glob.RegexMatch(Glob.Compile(pattern), Tokens(lead + Line(ws))[0])
       <==> Glob.Glob(pattern, Args(ws)[0], true)
  {
    WordsComeBack(lead, ws);
    Glob.CompilationPreservesMeaning(pattern, Args(ws)[0]);
    Glob.LinesDoNotMatter(pattern, Args(ws)[0]);
  }
}
