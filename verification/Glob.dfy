// globalMatch of helpers.cpp: a glob is compiled to regex text, which is then matched.
// The text is read back with the grammar of section 15.10.1 of ECMA-262, 3rd edition.
module Glob {
  import opened Common

  // ---------- The compiler ----------

  predicate NeedsEscape(c: char) {
    || c == '.' || c == '\\' || c == '+' || c == '(' || c == ')' || c == '[' || c == ']'
    || c == '{' || c == '}' || c == '|' || c == '^' || c == '$' || c == '#'
  }

  // The characters that the code escapes, written out.
  lemma EscapesAre(c: char)
    ensures NeedsEscape(c) <==> c in ".\\+()[]{}|^$#"
  {
    var s := ".\\+()[]{}|^$#";
    assert s[0] == '.' && s[1] == '\\' && s[2] == '+' && s[3] == '(' && s[4] == ')' && s[5] == '[' && s[6] == ']';
    assert s[7] == '{' && s[8] == '}' && s[9] == '|' && s[10] == '^' && s[11] == '$' && s[12] == '#' && |s| == 13;
  }

  function Translate(c: char): string {
    if c == '*' then ".*"
    else if c == '?' then "."
    else if NeedsEscape(c) then ['\\', c]
    else [c]
  }

  function Body(pattern: string): string {
    if pattern == "" then "" else Translate(pattern[0]) + Body(pattern[1..])
  }

  function Compile(pattern: string): string {
    "^" + Body(pattern) + "$"
  }

  method CompileGlob(pattern: string) returns (regexStr: string)
    ensures regexStr == Compile(pattern)
  {
    regexStr := "^";
    assert pattern[0..] == pattern;
    for i := 0 to |pattern|
      invariant regexStr + Body(pattern[i..]) == "^" + Body(pattern)
    {
      var c := pattern[i];
      ghost var before := regexStr;
      assert pattern[i..][1..] == pattern[i + 1..];
      if c == '*' {
        regexStr := regexStr + ".*";
      } else if c == '?' {
        regexStr := regexStr + ".";
      } else {
        if NeedsEscape(c) {
          regexStr := regexStr + "\\";
          regexStr := regexStr + [c];
        } else {
          regexStr := regexStr + [c];
        }
      }
      assert regexStr == before + Translate(c);
      Assoc(before, Translate(c), Body(pattern[i + 1..]));
    }
    regexStr := regexStr + "$";
  }

  // ---------- Regex text: grammar and meaning ----------

  datatype Atom = Any | Literal(c: char)
  datatype Quantifier = Once | Star(greedy: bool) | Plus(greedy: bool) | Optional(greedy: bool)
  datatype Item = LineStart | LineEnd | Term(atom: Atom, quantifier: Quantifier)

  predicate SyntaxChar(c: char) {
    || c == '^' || c == '$' || c == '\\' || c == '.' || c == '*' || c == '+' || c == '?'
    || c == '(' || c == ')' || c == '[' || c == ']' || c == '{' || c == '}' || c == '|'
  }

  // After a backslash these stand for themselves rather than for a class or a control character.
  predicate IdentityEscape(c: char) {
    !('a' <= c <= 'z') && !('A' <= c <= 'Z') && !('0' <= c <= '9') && c != '_'
  }

  // An atom at the front of `t`, and how many characters it takes.
  function ParseAtom(t: string): Option<(Atom, nat)> {
    if t == "" then None
    else if t[0] == '\\' then
      if |t| >= 2 && IdentityEscape(t[1]) then Some((Literal(t[1]), 2)) else None
    else if t[0] == '.' then Some((Any, 1))
    else if SyntaxChar(t[0]) then None
    else Some((Literal(t[0]), 1))
  }

  predicate QuantifierChar(c: char) {
    c == '*' || c == '+' || c == '?'
  }

  // A quantifier at the front of `t`, if any; a '?' after it makes it lazy.
  function ParseQuantifier(t: string): (Quantifier, nat) {
    if t == "" || !QuantifierChar(t[0]) then (Once, 0)
    else
      var greedy := |t| < 2 || t[1] != '?';
      var q := if t[0] == '*' then Star(greedy) else if t[0] == '+' then Plus(greedy) else Optional(greedy);
      (q, if greedy then 1 else 2)
  }

  // None where std::regex throws regex_error, or where the text leaves this fragment.
  function Parse(t: string): Option<seq<Item>>
    decreases |t|
  {
    if t == "" then Some([])
    else if t[0] == '^' then Cons(LineStart, Parse(t[1..]))
    else if t[0] == '$' then Cons(LineEnd, Parse(t[1..]))
    else match ParseAtom(t)
      case None => None
      case Some((atom, n)) =>
        var (q, m) := ParseQuantifier(t[n..]);
        Cons(Term(atom, q), Parse(t[n + m..]))
  }

  function Cons(item: Item, rest: Option<seq<Item>>): Option<seq<Item>> {
    if rest == None then None else Some([item] + rest.value)
  }

  predicate LineTerminator(c: char) {
    c == '\n' || c == '\r'
  }

  predicate AtomMatches(atom: Atom, c: char) {
    match atom
    case Any => !LineTerminator(c)
    case Literal(d) => c == d
  }

  // The items match v from position i to its end.
  ghost predicate Matches(items: seq<Item>, v: string, i: nat)
    requires i <= |v|
    decreases |items|
  {
    if items == [] then i == |v|
    else match items[0]
      case LineStart => i == 0 && Matches(items[1..], v, i)
      case LineEnd => i == |v| && Matches(items[1..], v, i)
      case Term(atom, Once) => i < |v| && AtomMatches(atom, v[i]) && Matches(items[1..], v, i + 1)
      case Term(atom, Star(_)) => exists n: nat :: Repeats(atom, v, i, n) && Matches(items[1..], v, n)
      case Term(atom, Plus(_)) => exists n: nat :: n > i && Repeats(atom, v, i, n) && Matches(items[1..], v, n)
      case Term(atom, Optional(_)) =>
        Matches(items[1..], v, i) || (i < |v| && AtomMatches(atom, v[i]) && Matches(items[1..], v, i + 1))
  }

  ghost predicate Repeats(atom: Atom, v: string, i: nat, n: nat) {
    i <= n <= |v| && forall k :: i <= k < n ==> AtomMatches(atom, v[k])
  }

  // regex_match(v, regex(t)), with regex_error caught and turned into false.
  ghost predicate RegexMatch(t: string, v: string) {
    var items := Parse(t);
    items.Some? && Matches(items.value, v, 0)
  }

  // ---------- Direct glob matching ----------

  // `lines` says whether '*' and '?' also match line terminators.
  predicate Glob(pattern: string, v: string, lines: bool)
    decreases |pattern|, |v|
  {
    if pattern == "" then v == ""
    else if pattern[0] == '*' then
      Glob(pattern[1..], v, lines) || (v != "" && (lines || !LineTerminator(v[0])) && Glob(pattern, v[1..], lines))
    else
      && v != ""
      && (if pattern[0] == '?' then lines || !LineTerminator(v[0]) else v[0] == pattern[0])
      && Glob(pattern[1..], v[1..], lines)
  }

  predicate NoLineTerminators(v: string) {
    forall i :: 0 <= i < |v| ==> !LineTerminator(v[i])
  }

  // ---------- The compiler preserves meaning ----------

  // One atom for each pattern character.
  function ItemOf(c: char): Item {
    if c == '*' then Term(Any, Star(true))
    else if c == '?' then Term(Any, Once)
    else Term(Literal(c), Once)
  }

  function Items(pattern: string): seq<Item> {
    if pattern == "" then [LineEnd] else [ItemOf(pattern[0])] + Items(pattern[1..])
  }

  // What follows an emitted atom never reads as one of its quantifiers.
  lemma NoStrayQuantifier(pattern: string)
    ensures !QuantifierChar((Body(pattern) + "$")[0])
  {
    if pattern != "" {
      assert (Body(pattern) + "$")[0] == Translate(pattern[0])[0];
    }
  }

  lemma {:induction false} ParseBody(pattern: string)
    ensures Parse(Body(pattern) + "$") == Some(Items(pattern))
    decreases |pattern|
  {
    if pattern == "" {
      assert Body(pattern) + "$" == "$" && "$"[1..] == "";
      assert [LineEnd] + [] == [LineEnd];
    } else {
      var c := pattern[0];
      var rest := Body(pattern[1..]) + "$";
      ParseBody(pattern[1..]);
      NoStrayQuantifier(pattern[1..]);
      Assoc(Translate(c), Body(pattern[1..]), "$");
      ParseOne(c, rest);
    }
  }

  lemma ParseOne(c: char, rest: string)
    requires rest != "" && !QuantifierChar(rest[0])
    ensures Parse(Translate(c) + rest) == Cons(ItemOf(c), Parse(rest))
  {
    var t := Translate(c) + rest;
    if c == '*' {
      assert t[1..] == "*" + rest && t[2..] == rest;
      assert ParseQuantifier(t[1..]) == (Star(true), 1);
    } else {
      var n := |Translate(c)|;
      assert t[n..] == rest;
      assert ParseQuantifier(rest) == (Once, 0);
    }
  }

  // The emitted text parses to one item per pattern character, between the two anchors.
  lemma CompiledTextParses(pattern: string)
    ensures Parse(Compile(pattern)) == Some([LineStart] + Items(pattern))
  {
    ParseBody(pattern);
    var t := Compile(pattern);
    Assoc("^", Body(pattern), "$");
    assert t[0] == '^' && t[1..] == Body(pattern) + "$";
  }

  lemma {:induction false} ItemsMatch(pattern: string, v: string, i: nat)
    requires i <= |v|
    ensures Matches(Items(pattern), v, i) <==> Glob(pattern, v[i..], false)
    decreases |pattern|, |v| - i
  {
    var items := Items(pattern);
    var w := v[i..];
    if pattern == "" {
      assert items[1..] == [];
    } else {
      assert items[1..] == Items(pattern[1..]);
      if i < |v| {
        assert w[0] == v[i] && w[1..] == v[i + 1..];
      }
      if pattern[0] == '*' {
        ItemsMatch(pattern[1..], v, i);
        if i < |v| {
          ItemsMatch(pattern, v, i + 1);
        }
        StarUnrolled(items, v, i);
      } else if i < |v| {
        ItemsMatch(pattern[1..], v, i + 1);
      }
    }
  }

  lemma StarMeans(items: seq<Item>, v: string, i: nat)
    requires i <= |v| && items != [] && items[0] == Term(Any, Star(true))
    ensures Matches(items, v, i) <==> exists n: nat :: Repeats(Any, v, i, n) && Matches(items[1..], v, n)
  {
  }

  // A star matches nothing, or one character and then again a star.
  lemma StarUnrolled(items: seq<Item>, v: string, i: nat)
    requires i <= |v| && items != [] && items[0] == Term(Any, Star(true))
    ensures Matches(items, v, i) <==>
            Matches(items[1..], v, i) || (i < |v| && !LineTerminator(v[i]) && Matches(items, v, i + 1))
  {
    if Matches(items[1..], v, i) {
      assert Repeats(Any, v, i, i);
    }
    if i < |v| && !LineTerminator(v[i]) && Matches(items, v, i + 1) {
      StarMeans(items, v, i + 1);
      var n: nat :| Repeats(Any, v, i + 1, n) && Matches(items[1..], v, n);
      assert Repeats(Any, v, i, n);
    }
    if Matches(items, v, i) && !Matches(items[1..], v, i) {
      var n: nat :| Repeats(Any, v, i, n) && Matches(items[1..], v, n);
      assert AtomMatches(Any, v[i]);
      assert Repeats(Any, v, i + 1, n);
    }
  }

  // Main theorem, on all values: matching the compiled text is glob matching in which the
  // wildcards do not cross line terminators.
  lemma CompilationPreservesMeaning(pattern: string, v: string)
    ensures RegexMatch(Compile(pattern), v) <==> Glob(pattern, v, false)
  {
    CompiledTextParses(pattern);
    var items := [LineStart] + Items(pattern);
    assert items[1..] == Items(pattern);
    ItemsMatch(pattern, v, 0);
    assert v[0..] == v;
  }

  lemma {:induction false} LinesDoNotMatter(pattern: string, v: string)
    requires NoLineTerminators(v)
    ensures Glob(pattern, v, false) == Glob(pattern, v, true)
    decreases |pattern|, |v|
  {
    if pattern != "" {
      if v != "" {
        assert NoLineTerminators(v[1..]) by {
          forall i | 0 <= i < |v[1..]| ensures !LineTerminator(v[1..][i]) {
            assert v[1..][i] == v[i + 1];
          }
        }
        LinesDoNotMatter(pattern[1..], v[1..]);
        LinesDoNotMatter(pattern, v[1..]);
      }
      LinesDoNotMatter(pattern[1..], v);
    }
  }

  lemma {:induction false} StarMatchesAll(v: string)
    ensures Glob("*", v, true)
    ensures Glob("*", v, false) <==> NoLineTerminators(v)
    decreases |v|
  {
    assert "*"[1..] == "";
    if v != "" {
      StarMatchesAll(v[1..]);
      assert NoLineTerminators(v) <==> !LineTerminator(v[0]) && NoLineTerminators(v[1..]) by {
        forall i | 1 <= i < |v| ensures v[i] == v[1..][i - 1] {
        }
      }
    }
  }

  // Exactly the values without line terminators are matched as a plain glob by every pattern.
  lemma ExactlyPlainGlob(v: string)
    ensures NoLineTerminators(v) <==>
            forall pattern :: RegexMatch(Compile(pattern), v) <==> Glob(pattern, v, true)
  {
    if NoLineTerminators(v) {
      forall pattern ensures RegexMatch(Compile(pattern), v) <==> Glob(pattern, v, true) {
        CompilationPreservesMeaning(pattern, v);
        LinesDoNotMatter(pattern, v);
      }
    } else {
      CompilationPreservesMeaning("*", v);
      StarMatchesAll(v);
      assert !(RegexMatch(Compile("*"), v) <==> Glob("*", v, true));
    }
  }

  // ---------- What patterns match ----------

  // A pattern without wildcards matches itself only.
  lemma {:induction false} LiteralPattern(pattern: string, v: string)
    requires '*' !in pattern && '?' !in pattern
    ensures RegexMatch(Compile(pattern), v) <==> v == pattern
  {
    CompilationPreservesMeaning(pattern, v);
    LiteralGlob(pattern, v);
  }

  lemma {:induction false} LiteralGlob(pattern: string, v: string)
    requires '*' !in pattern && '?' !in pattern
    ensures Glob(pattern, v, false) <==> v == pattern
    decreases |pattern|
  {
    if pattern != "" && v != "" {
      LiteralGlob(pattern[1..], v[1..]);
      assert pattern == [pattern[0]] + pattern[1..] && v == [v[0]] + v[1..];
    }
  }

  // A question mark matches any one character but a line feed and a carriage return.
  lemma QuestionMark(pattern: string, v: string)
    ensures RegexMatch(Compile("?" + pattern), v) <==>
            v != "" && v[0] != '\n' && v[0] != '\r' && RegexMatch(Compile(pattern), v[1..])
  {
    CompilationPreservesMeaning("?" + pattern, v);
    assert ("?" + pattern)[1..] == pattern;
    if v != "" {
      CompilationPreservesMeaning(pattern, v[1..]);
    }
    hide RegexMatch, Compile;
  }

  // A star matches any text of such characters.
  lemma StarPattern(pattern: string, v: string)
    ensures RegexMatch(Compile("*" + pattern), v) <==>
            exists k :: 0 <= k <= |v| && '\n' !in v[..k] && '\r' !in v[..k] && RegexMatch(Compile(pattern), v[k..])
  {
    CompilationPreservesMeaning("*" + pattern, v);
    StarGlob(pattern, v);
    forall k | 0 <= k <= |v| ensures RegexMatch(Compile(pattern), v[k..]) <==> Glob(pattern, v[k..], false) {
      CompilationPreservesMeaning(pattern, v[k..]);
    }
    hide RegexMatch, Compile, Glob;
  }

  lemma {:induction false} StarGlob(pattern: string, v: string)
    ensures Glob("*" + pattern, v, false) <==>
            exists k :: 0 <= k <= |v| && '\n' !in v[..k] && '\r' !in v[..k] && Glob(pattern, v[k..], false)
    decreases |v|
  {
    var p := "*" + pattern;
    assert p[1..] == pattern;
    StarGlobStep(pattern, v);
    hide Glob;
    if v == "" {
      assert v[0..] == v && v[..0] == "";
    } else {
      StarGlob(pattern, v[1..]);
      forall k | 1 <= k <= |v|
        ensures v[k..] == v[1..][k - 1..] && v[..k] == [v[0]] + v[1..][..k - 1]
      {
      }
      if Glob(p, v, false) {
        if Glob(pattern, v, false) {
          assert v[0..] == v && v[..0] == "";
        } else {
          var k :| 0 <= k <= |v[1..]| && '\n' !in v[1..][..k] && '\r' !in v[1..][..k] && Glob(pattern, v[1..][k..], false);
          assert v[k + 1..] == v[1..][k..] && v[..k + 1] == [v[0]] + v[1..][..k];
        }
      }
      if k :| 0 <= k <= |v| && '\n' !in v[..k] && '\r' !in v[..k] && Glob(pattern, v[k..], false) {
        if k == 0 {
          assert v[0..] == v;
        } else {
          assert v[0] in v[..k];
          assert v[1..][k - 1..] == v[k..] && v[..k] == [v[0]] + v[1..][..k - 1];
        }
      }
    }
  }

  lemma StarGlobStep(pattern: string, v: string)
    ensures Glob("*" + pattern, v, false) <==>
            Glob(pattern, v, false) || (v != "" && v[0] != '\n' && v[0] != '\r' && Glob("*" + pattern, v[1..], false))
  {
    assert ("*" + pattern)[1..] == pattern;
  }
}
