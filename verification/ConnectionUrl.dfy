// What server/neuserver.cpp reads from the URL of a connection: the extension id and the connect
// token.
module ConnectionUrl {
  import opened Common

  predicate StartsWith(s: string, prefix: string) {
    prefix <= s
  }

  predicate Contains(s: string, part: string) {
    StartsWith(s, part) || (s != "" && Contains(s[1..], part))
  }

  predicate OneLine(s: string) {
    forall i :: 0 <= i < |s| ==> s[i] != '\n' && s[i] != '\r'
  }

  // regex_match(url, ".*extensionId=.*")
  predicate IsExtension(url: string) {
    OneLine(url) && Contains(url, "extensionId=")
  }

  predicate HasConnectToken(url: string) {
    OneLine(url) && Contains(url, "connectToken=")
  }

  // [\w.\-_]
  predicate ParamChar(c: char) {
    || 'a' <= c <= 'z' || 'A' <= c <= 'Z' || '0' <= c <= '9'
    || c == '_' || c == '.' || c == '-'
  }

  function ParamRun(s: string): string {
    if s == "" || !ParamChar(s[0]) then "" else [s[0]] + ParamRun(s[1..])
  }

  // The first non-empty value after "param="; "" when there is none.
  function ParamValue(url: string, param: string): string
    decreases |url|
  {
    if StartsWith(url, param) && ParamRun(url[|param|..]) != "" then ParamRun(url[|param|..])
    else if url == "" then ""
    else ParamValue(url[1..], param)
  }

  function ExtensionId(url: string): string {
    ParamValue(url, "extensionId=")
  }

  // ---------- What that means ----------

  // The letters, digits and other characters that a value may have.
  predicate ValueChar(c: char) {
    c in Lower() || c in Upper() || c in Figures() || c in "_.-"
  }

  lemma ValueCharsAre(c: char)
    ensures ParamChar(c) <==> ValueChar(c)
  {
    hide Lower, Upper, Figures;
    LowerAre(c);
    UpperAre(c);
    FiguresAre(c);
    assert "_.-"[0] == '_' && "_.-"[1] == '.' && "_.-"[2] == '-';
  }

  // At position i the URL has the parameter with a value.
  predicate HasValueAt(url: string, param: string, i: nat) {
    i + |param| < |url| && url[i..i + |param|] == param && ValueChar(url[i + |param|])
  }

  lemma {:induction false} RunOf(value: string, rest: string)
    requires forall i :: 0 <= i < |value| ==> ValueChar(value[i])
    requires rest != "" ==> !ValueChar(rest[0])
    ensures ParamRun(value + rest) == value
    decreases |value|
  {
    hide ValueChar, ParamChar;
    if value == "" {
      assert value + rest == rest;
      if rest != "" {
        ValueCharsAre(rest[0]);
      }
    } else {
      ValueCharsAre(value[0]);
      assert (value + rest)[0] == value[0] && (value + rest)[1..] == value[1..] + rest;
      RunOf(value[1..], rest);
    }
  }

  lemma {:induction false} RunIs(s: string)
    ensures ParamRun(s) <= s
    ensures forall i :: 0 <= i < |ParamRun(s)| ==> ValueChar(s[i])
    ensures |ParamRun(s)| < |s| ==> !ValueChar(s[|ParamRun(s)|])
  {
    hide ValueChar, ParamChar;
    if s != "" {
      ValueCharsAre(s[0]);
      if ParamRun(s) != "" {
        RunIs(s[1..]);
        assert ParamRun(s) == [s[0]] + ParamRun(s[1..]);
        forall i | 0 <= i < |ParamRun(s)| ensures ValueChar(s[i]) && ParamRun(s)[i] == s[i] {
          if i > 0 {
            assert s[i] == s[1..][i - 1];
          }
        }
      }
    }
  }

  lemma ValueHere(url: string, param: string)
    ensures HasValueAt(url, param, 0) <==> param <= url && ParamRun(url[|param|..]) != ""
  {
    hide ValueChar, ParamChar;
    if param <= url {
      RunIs(url[|param|..]);
      if |param| < |url| {
        ValueCharsAre(url[|param|]);
      }
    }
  }

  // The value of a parameter is that of the first place where it has one: for a URL that carries
  // a value of letters, digits, '_', '.' and '-' and no earlier one, it is just this value.
  lemma {:induction false} ValueIsRead(pre: string, param: string, value: string, rest: string)
    requires value != "" && forall i :: 0 <= i < |value| ==> ValueChar(value[i])
    requires rest != "" ==> !ValueChar(rest[0])
    requires forall i: nat :: i < |pre| ==> !HasValueAt(pre + (param + (value + rest)), param, i)
    ensures ParamValue(pre + (param + (value + rest)), param) == value
    decreases |pre|
  {
    hide ValueChar, ParamChar;
    var url := pre + (param + (value + rest));
    if pre == "" {
      assert url == param + (value + rest) && url[|param|..] == value + rest;
      RunOf(value, rest);
    } else {
      assert !HasValueAt(url, param, 0);
      ValueHere(url, param);
      assert url[1..] == pre[1..] + (param + (value + rest));
      forall i: nat | i < |pre[1..]| ensures !HasValueAt(url[1..], param, i) {
        assert !HasValueAt(url, param, i + 1);
        Shifted(url, param, i);
      }
      ValueIsRead(pre[1..], param, value, rest);
    }
  }

  lemma Shifted(url: string, param: string, i: nat)
    requires url != ""
    ensures HasValueAt(url[1..], param, i) <==> HasValueAt(url, param, i + 1)
  {
    hide ValueChar;
    if i + 1 + |param| < |url| {
      assert url[1..][i..i + |param|] == url[i + 1..i + 1 + |param|];
    }
  }

  // The converse: a value that is read stands in the URL in this way, and without one there is no
  // such place.
  lemma {:induction false} ValueWasThere(url: string, param: string) returns (pre: string, rest: string)
    requires param != ""
    ensures ParamValue(url, param) == "" ==> forall i: nat :: !HasValueAt(url, param, i)
    ensures ParamValue(url, param) != "" ==>
              && url == pre + (param + (ParamValue(url, param) + rest))
              && (forall i :: 0 <= i < |ParamValue(url, param)| ==> ValueChar(ParamValue(url, param)[i]))
              && (rest != "" ==> !ValueChar(rest[0]))
              && (forall i: nat :: i < |pre| ==> !HasValueAt(url, param, i))
    decreases |url|
  {
    hide ValueChar, ParamChar, HasValueAt;
    pre, rest := "", "";
    ValueHere(url, param);
    NoValueInNothing(param);
    if HasValueAt(url, param, 0) {
      var tail := url[|param|..];
      RunIs(tail);
      rest := tail[|ParamRun(tail)|..];
      assert url == param + tail && tail == ParamRun(tail) + rest;
      assert pre + (param + (ParamRun(tail) + rest)) == url;
    } else if url != "" {
      var pre1;
      pre1, rest := ValueWasThere(url[1..], param);
      pre := [url[0]] + pre1;
      forall i: nat ensures HasValueAt(url, param, i + 1) <==> HasValueAt(url[1..], param, i) {
        Shifted(url, param, i);
      }
      ShiftedAway(url, param, pre);
      var value := ParamValue(url, param);
      if value != "" {
        hide ParamValue, ParamRun;
        assert url == [url[0]] + url[1..];
        Assoc([url[0]], pre1, param + (value + rest));
      }
    }
  }

  lemma NoValueInNothing(param: string)
    ensures forall i: nat :: !HasValueAt("", param, i)
  {
  }

  lemma ShiftedAway(url: string, param: string, pre: string)
    requires !HasValueAt(url, param, 0) && pre != "" && url != ""
    requires forall i: nat :: HasValueAt(url, param, i + 1) <==> HasValueAt(url[1..], param, i)
    ensures (forall i: nat :: !HasValueAt(url[1..], param, i)) ==> forall i: nat :: !HasValueAt(url, param, i)
    ensures (forall i: nat :: i < |pre| - 1 ==> !HasValueAt(url[1..], param, i)) ==>
              forall i: nat :: i < |pre| ==> !HasValueAt(url, param, i)
  {
    hide HasValueAt;
    forall i: nat | i > 0 ensures HasValueAt(url, param, i) <==> HasValueAt(url[1..], param, i - 1) {
      assert HasValueAt(url, param, (i - 1) + 1) <==> HasValueAt(url[1..], param, i - 1);
    }
  }

  lemma {:induction false} ContainsMeans(s: string, part: string)
    ensures Contains(s, part) <==> exists pre, post :: s == pre + (part + post)
    decreases |s|
  {
    if Contains(s, part) {
      var pre, post := PlaceOf(s, part);
    } else if pre, post :| s == pre + (part + post) {
      ContainedThere(pre, part, post);
    }
  }

  lemma {:induction false} PlaceOf(s: string, part: string) returns (pre: string, post: string)
    requires Contains(s, part)
    ensures s == pre + (part + post)
    decreases |s|
  {
    if StartsWith(s, part) {
      pre, post := "", s[|part|..];
    } else {
      pre, post := PlaceOf(s[1..], part);
      assert s == [s[0]] + s[1..];
      Assoc([s[0]], pre, part + post);
      pre := [s[0]] + pre;
    }
  }

  lemma {:induction false} ContainedThere(pre: string, part: string, post: string)
    ensures Contains(pre + (part + post), part)
    decreases |pre|
  {
    var s := pre + (part + post);
    if pre == "" {
      assert s == part + post;
    } else {
      assert s[1..] == pre[1..] + (part + post);
      ContainedThere(pre[1..], part, post);
    }
  }

  // The two kinds of URL, written out: one line with the parameter's name in it.
  lemma UrlsAre(url: string)
    ensures IsExtension(url) <==>
            '\n' !in url && '\r' !in url && exists pre, post :: url == pre + ("extensionId=" + post)
    ensures HasConnectToken(url) <==>
            '\n' !in url && '\r' !in url && exists pre, post :: url == pre + ("connectToken=" + post)
  {
    ContainsMeans(url, "extensionId=");
    ContainsMeans(url, "connectToken=");
    assert OneLine(url) <==> '\n' !in url && '\r' !in url;
    hide Contains;
  }

  // The extension id and the token of a URL that carries each once.
  lemma IdAndToken(url: string, idPre: string, id: string, idRest: string,
                   tokenPre: string, token: string, tokenRest: string)
    requires url == idPre + ("extensionId=" + (id + idRest)) == tokenPre + ("connectToken=" + (token + tokenRest))
    requires id != "" && (forall i :: 0 <= i < |id| ==> ValueChar(id[i])) && (idRest != "" ==> !ValueChar(idRest[0]))
    requires token != "" && (forall i :: 0 <= i < |token| ==> ValueChar(token[i]))
    requires tokenRest != "" ==> !ValueChar(tokenRest[0])
    requires forall i: nat :: i < |idPre| ==> !HasValueAt(url, "extensionId=", i)
    requires forall i: nat :: i < |tokenPre| ==> !HasValueAt(url, "connectToken=", i)
    ensures ExtensionId(url) == id && ParamValue(url, "connectToken=") == token
  {
    hide ValueChar, HasValueAt, ParamValue;
    ValueIsRead(idPre, "extensionId=", id, idRest);
    ValueIsRead(tokenPre, "connectToken=", token, tokenRest);
  }
}
