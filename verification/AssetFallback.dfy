// How getAsset of server/router.cpp calls itself: the index page for a path without an
// extension, and the single-page fallback for an index page that cannot be read.
module AssetFallback {
  import opened Common
  import opened Strings

  // singlePageServe, documentRoot and the navigation URL; and which paths can be read.
  datatype Config = Config(singlePage: bool, documentRoot: Option<string>, navigationUrl: string)

  // helpers::split(path, '.').size() >= 2
  predicate Dotted(path: string) {
    |Fields(path, '.')| >= 2
  }

  predicate LineTerminator(c: char) {
    c == '\n' || c == '\r'
  }

  // regex_match(path, ".*index.html$"); the dot before "html" is any character.
  predicate IsIndex(path: string) {
    var n := |path|;
    && n >= 10 && path[n - 10..n - 5] == "index" && path[n - 4..] == "html"
    && forall i :: 0 <= i <= n - 5 ==> !LineTerminator(path[i])
  }

  function Target(c: Config): string {
    if c.documentRoot.Some? then c.documentRoot.value + "index.html" else c.navigationUrl
  }

  function WithIndex(path: string): string
    requires path != ""
  {
    (if path[|path| - 1] != '/' then path + "/" else path) + "index.html"
  }

  // The path of the next activation; None when this one answers.
  function Next(c: Config, readable: string -> bool, path: string): Option<string>
    requires path != ""
  {
    if !Dotted(path) then Some(WithIndex(path))
    else if !readable(path) && c.singlePage && IsIndex(path) && Target(c) != path then Some(Target(c))
    else None
  }

  // At most n activations answer the request.
  predicate Answers(c: Config, readable: string -> bool, path: string, n: nat)
    requires path != "" && Target(c) != ""
    decreases n
  {
    n > 0 && (Next(c, readable, path) == None || Answers(c, readable, Next(c, readable, path).value, n - 1))
  }

  // ---------- Extensions ----------

  lemma {:induction false} DottedSuffix(a: string, b: string)
    requires b != ""
    ensures Dotted(a + ("." + b))
    decreases |a|
  {
    var t := a + ("." + b);
    hide Fields, GetLine, Find;
    if '.' !in a {
      FindIn(a, '.', b);
      MoreFields(t, '.', a, b);
      SomeFields(b, '.');
    } else {
      var i := Find(a, '.');
      var head, left := a[..i], a[i + 1..];
      assert a == head + ("." + left);
      Assoc(head, "." + left, "." + b);
      Assoc(".", left, "." + b);
      assert t == head + ("." + (left + ("." + b)));
      FindIn(head, '.', left + ("." + b));
      DottedSuffix(left, b);
      MoreFields(t, '.', head, left + ("." + b));
    }
  }

  lemma SomeFields(s: string, d: char)
    requires s != ""
    ensures |Fields(s, d)| >= 1
  {
  }

  lemma MoreFields(s: string, d: char, first: string, rest: string)
    requires s != "" && GetLine(s, d) == (first, rest)
    ensures |Fields(s, d)| == 1 + |Fields(rest, d)|
  {
  }

  lemma IndexIsDotted(path: string)
    requires path != ""
    ensures Dotted(WithIndex(path)) && WithIndex(path) != ""
  {
    hide Dotted;
    var base := if path[|path| - 1] != '/' then path + "/" else path;
    assert "index.html" == "index" + ("." + "html");
    assert base + "index.html" == (base + "index") + ("." + "html");
    DottedSuffix(base + "index", "html");
  }

  // With a document root the fallback target always has an extension.
  lemma RootTargetIsDotted(c: Config)
    requires c.documentRoot.Some?
    ensures Dotted(Target(c)) && Target(c) != ""
  {
    var r := c.documentRoot.value;
    assert r + "index.html" == (r + "index") + ("." + "html");
    DottedSuffix(r + "index", "html");
  }

  // The n-th activation, counted from the one for `path`, is for `final`, and it answers.
  predicate Reaches(c: Config, readable: string -> bool, path: string, final: string, n: nat)
    requires path != "" && Target(c) != ""
    decreases n
  {
    match Next(c, readable, path)
    case None => n == 1 && path == final
    case Some(next) => n > 1 && next != "" && Reaches(c, readable, next, final, n - 1)
  }

  // ---------- Termination ----------

  // The tail-recursive function itself: the path it finally answers for, and its number of activations.
  method GetAsset(c: Config, readable: string -> bool, path: string) returns (final: string, activations: nat)
    requires path != "" && Dotted(Target(c)) && Target(c) != ""
    ensures 1 <= activations <= 3
    ensures final != "" && Reaches(c, readable, path, final, activations)
    ensures Dotted(path) ==> activations <= 2
    ensures path == Target(c) ==> activations == 1
    decreases !Dotted(path), path != Target(c)
  {
    if !Dotted(path) {
      IndexIsDotted(path);
      final, activations := GetAsset(c, readable, WithIndex(path));
      activations := activations + 1;
    } else if !readable(path) && c.singlePage && IsIndex(path) && Target(c) != path {
      final, activations := GetAsset(c, readable, Target(c));
      activations := activations + 1;
    } else {
      final, activations := path, 1;
    }
  }

  // Three activations suffice for every path and every answer of the readers.
  lemma ThreeActivationsSuffice(c: Config, readable: string -> bool, path: string)
    requires path != "" && Target(c) != "" && Dotted(Target(c))
    ensures Answers(c, readable, path, 3)
  {
    hide IsIndex, Dotted, WithIndex;
    if !Dotted(path) {
      IndexIsDotted(path);
      var q := WithIndex(path);
      TargetAnswers(c, readable);
      assert Answers(c, readable, q, 2);
    } else {
      TargetAnswers(c, readable);
      assert Answers(c, readable, path, 2);
    }
  }

  lemma TargetAnswers(c: Config, readable: string -> bool)
    requires Target(c) != "" && Dotted(Target(c))
    ensures Answers(c, readable, Target(c), 1)
  {
  }

  // The page a path stands for: itself, or its index page.
  function Page(path: string): string
    requires path != ""
  {
    if Dotted(path) then path else WithIndex(path)
  }

  // The request reaches an unreadable index page, is sent to a target without an extension, and
  // the target's own index page cannot be read either.
  predicate Loops(c: Config, readable: string -> bool, path: string)
    requires path != "" && Target(c) != ""
  {
    && c.singlePage && !Dotted(Target(c))
    && !readable(Page(path)) && IsIndex(Page(path)) && Page(path) != Target(c)
    && !readable(Page(Target(c))) && IsIndex(Page(Target(c)))
  }

  lemma PageIsDotted(path: string)
    requires path != ""
    ensures Dotted(Page(path)) && Page(path) != ""
  {
    IndexIsDotted(path);
  }

  lemma {:induction false} LoopNeverAnswers(c: Config, readable: string -> bool, path: string, n: nat)
    requires path != "" && Target(c) != ""
    requires c.singlePage && !Dotted(Target(c))
    requires !readable(Page(path)) && IsIndex(Page(path)) && Page(path) != Target(c)
    requires !readable(Page(Target(c))) && IsIndex(Page(Target(c)))
    ensures !Answers(c, readable, path, n)
    decreases n
  {
    hide IsIndex, Dotted, WithIndex;
    if n > 0 {
      PageIsDotted(path);
      PageIsDotted(Target(c));
      if Dotted(path) {
        LoopNeverAnswers(c, readable, Target(c), n - 1);
      } else {
        LoopNeverAnswers(c, readable, Page(path), n - 1);
      }
    }
  }

  lemma AnswersOtherwise(c: Config, readable: string -> bool, path: string)
    requires path != "" && Target(c) != "" && !Loops(c, readable, path)
    ensures Answers(c, readable, path, 4)
  {
    if Dotted(Target(c)) {
      ThreeActivationsSuffice(c, readable, path);
      AnswersMonotone(c, readable, path, 3);
    } else {
      PageIsDotted(path);
      PageIsDotted(Target(c));
      hide IsIndex, Dotted, WithIndex;
      var t := Target(c);
      assert Next(c, readable, t) == Some(Page(t));
      if Next(c, readable, Page(path)) == None {
        assert Answers(c, readable, Page(path), 1);
      } else {
        assert Next(c, readable, Page(t)) == None;
        assert Answers(c, readable, Page(t), 1);
        assert Answers(c, readable, t, 2);
        assert Answers(c, readable, Page(path), 3);
      }
      hide Next;
      if Dotted(path) {
        AnswersMonotone(c, readable, path, 1);
        AnswersMonotone(c, readable, path, 2);
        AnswersMonotone(c, readable, path, 3);
      } else {
        AnswersMonotone(c, readable, Page(path), 1);
        AnswersMonotone(c, readable, Page(path), 2);
        UndottedStep(c, readable, path, 3);
      }
    }
  }

  lemma UndottedStep(c: Config, readable: string -> bool, path: string, n: nat)
    requires path != "" && Target(c) != "" && !Dotted(path) && Page(path) != ""
    ensures Answers(c, readable, path, n + 1) <==> Answers(c, readable, Page(path), n)
  {
  }

  lemma {:induction false} AnswersMonotone(c: Config, readable: string -> bool, path: string, n: nat)
    requires path != "" && Target(c) != ""
    ensures Answers(c, readable, path, n) ==> Answers(c, readable, path, n + 1)
    decreases n
  {
    hide IsIndex, Dotted, WithIndex;
    if n > 0 && Next(c, readable, path).Some? {
      NextIsNotEmpty(c, readable, path);
      AnswersMonotone(c, readable, Next(c, readable, path).value, n - 1);
    }
  }

  lemma NextIsNotEmpty(c: Config, readable: string -> bool, path: string)
    requires path != "" && Target(c) != "" && Next(c, readable, path).Some?
    ensures Next(c, readable, path).value != ""
  {
  }

  // Exactly when: a request is answered, and then within four activations, unless it loops.
  lemma AnswersIff(c: Config, readable: string -> bool, path: string)
    requires path != "" && Target(c) != ""
    ensures (exists n :: Answers(c, readable, path, n)) <==> !Loops(c, readable, path)
    ensures (exists n :: Answers(c, readable, path, n)) ==> Answers(c, readable, path, 4)
  {
    if Loops(c, readable, path) {
      forall n ensures !Answers(c, readable, path, n) {
        LoopNeverAnswers(c, readable, path, n);
      }
    } else {
      AnswersOtherwise(c, readable, path);
    }
  }

  // A request that is never answered: "/a" in a single-page application whose url is "/", with no
  // document root and no index page to read.
  lemma RootUrlLoops(readable: string -> bool)
    requires !readable("/a/index.html") && !readable("/index.html")
    ensures Loops(Config(true, None, "/"), readable, "/a")
    ensures forall n :: !Answers(Config(true, None, "/"), readable, "/a", n)
  {
    var c := Config(true, None, "/");
    RootPages();
    hide IsIndex, WithIndex, Dotted;
    forall n ensures !Answers(c, readable, "/a", n) {
      hide Answers;
      LoopNeverAnswers(c, readable, "/a", n);
    }
  }

  lemma RootPages()
    ensures !Dotted("/") && !Dotted("/a")
    ensures Page("/") == "/index.html" && Page("/a") == "/a/index.html"
    ensures Page("/a") != "/" && IsIndex(Page("/")) && IsIndex(Page("/a"))
  {
    UndottedPath("/a");
    UndottedPath("/");
    hide Dotted, IsIndex;
    assert "/a/" + "index.html" == "/a/index.html" && "/" + "index.html" == "/index.html";
    SlashIndex("/a/");
    SlashIndex("/");
  }

  lemma UndottedPath(path: string)
    requires path != "" && '.' !in path
    ensures !Dotted(path)
  {
    FindIn(path, '.', "");
    assert path[..|path|] == path;
    assert Fields("", '.') == [];
    MoreFields(path, '.', path, "");
  }

  lemma SlashIndex(base: string)
    requires forall i :: 0 <= i < |base| ==> !LineTerminator(base[i])
    ensures IsIndex(base + "index.html")
  {
    var path := base + "index.html";
    var n := |path|;
    assert path[n - 10..n - 5] == "index" && path[n - 4..] == "html";
  }

  // ---------- Which page is served ----------

  // A path counts as one with an extension when a dot stands before its last character.
  lemma {:induction false} DottedIff(path: string)
    ensures Dotted(path) <==> exists i :: 0 <= i < |path| - 1 && path[i] == '.'
    decreases |path|
  {
    hide Fields;
    if path != "" {
      LineOf(path, '.');
      var (first, rest) := GetLine(path, '.');
      MoreFields(path, '.', first, rest);
      NoFieldsIff(rest, '.');
      assert '.' in path ==> path[|first|] == '.';
    } else {
      NoFieldsIff(path, '.');
    }
  }

  lemma NoFieldsIff(s: string, d: char)
    ensures Fields(s, d) == [] <==> s == ""
  {
  }

  // A directory is answered with its index page, when that can be read.
  lemma IndexIsServed(c: Config, readable: string -> bool, path: string)
    requires path != "" && Target(c) != "" && forall i :: 0 <= i < |path| - 1 ==> path[i] != '.'
    ensures var page := (if path[|path| - 1] == '/' then path else path + "/") + "index.html";
      && Next(c, readable, path) == Some(page)
      && (readable(page) ==> Next(c, readable, page) == None)
  {
    DottedIff(path);
    IndexIsDotted(path);
    hide Dotted, IsIndex;
  }

  // In a single-page application an index page that cannot be read is answered with the index page
  // of the document root, or of the url without one; anything else that cannot be read is not.
  lemma FallbackIsServed(c: Config, readable: string -> bool, base: string)
    requires !readable(base + "index.html") && forall i :: 0 <= i < |base| ==> base[i] != '\n' && base[i] != '\r'
    ensures var page := base + "index.html";
      var target := if c.documentRoot.Some? then c.documentRoot.value + "index.html" else c.navigationUrl;
      Next(c, readable, page) == if c.singlePage && target != page then Some(target) else None
  {
    var page := base + "index.html";
    assert page == (base + "index") + ("." + "html");
    DottedSuffix(base + "index", "html");
    SlashIndex(base);
    hide Dotted, IsIndex;
  }

  lemma OthersStay(c: Config, readable: string -> bool, path: string)
    requires path != "" && exists i :: 0 <= i < |path| - 1 && path[i] == '.'
    requires readable(path) || |path| < 10 || path[|path| - 4..] != "html" || path[|path| - 10..|path| - 5] != "index"
    ensures Next(c, readable, path) == None
  {
    DottedIff(path);
    hide Dotted;
  }

  // The index pages: any character may stand before "html".
  lemma IndexPagesAre(base: string, c: char)
    requires forall i :: 0 <= i < |base| ==> base[i] != '\n' && base[i] != '\r'
    requires c != '\n' && c != '\r'
    ensures IsIndex(base + ("index" + ([c] + "html")))
  {
    var path := base + ("index" + ([c] + "html"));
    var n := |path|;
    assert path[n - 10..n - 5] == "index" && path[n - 4..] == "html" && path[n - 5] == c;
  }
}
