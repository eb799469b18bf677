// helpers::split and helpers::splitTwo of helpers.cpp, and decimal text.
module Strings {
  import opened Common

  // The position of the first `d`, or the length.
  function Find(s: string, d: char): (i: nat)
    ensures i <= |s| && d !in s[..i] && (i < |s| ==> s[i] == d)
  {
    if s == "" then 0 else if s[0] == d then 0 else 1 + Find(s[1..], d)
  }

  // One getline: the field and what is left in the stream.
  function GetLine(s: string, d: char): (string, string) {
    var i := Find(s, d);
    (s[..i], if i < |s| then s[i + 1..] else "")
  }

  // All fields; a delimiter at the very end opens no further field.
  function Fields(s: string, d: char): seq<string>
    decreases |s|
  {
    if s == "" then [] else [GetLine(s, d).0] + Fields(GetLine(s, d).1, d)
  }

  // After `stopAfter - 1` fields the delimiter becomes a newline.
  function FieldsUpTo(s: string, d: char, count: nat, stopAfter: Option<nat>): seq<string>
    decreases |s|
  {
    if s == "" then []
    else
      var (field, rest) := GetLine(s, d);
      var d' := if stopAfter.Some? && count + 1 == stopAfter.value - 1 then '\n' else d;
      [field] + FieldsUpTo(rest, d', count + 1, stopAfter)
  }

  method Split(s: string, delim: char, stopAfter: Option<nat>) returns (tokens: seq<string>)
    ensures tokens == FieldsUpTo(s, delim, 0, stopAfter)
    ensures stopAfter == None ==> tokens == Fields(s, delim)
  {
    hide FieldsUpTo, Fields, GetLine;
    tokens := [];
    var rest, d := s, delim;
    if stopAfter == None {
      UnlimitedFields(s, delim, 0, stopAfter);
    }
    ghost var all := FieldsUpTo(s, delim, 0, stopAfter);
    assert all == [] + all;
    while rest != ""
      invariant all == tokens + FieldsUpTo(rest, d, |tokens|, stopAfter)
      decreases |rest|
    {
      var (item, left) := GetLine(rest, d);
      UpToStep(rest, d, |tokens|, stopAfter);
      var next := if stopAfter.Some? && |tokens| + 1 == stopAfter.value - 1 then '\n' else d;
      Assoc(tokens, [item], FieldsUpTo(left, next, |tokens| + 1, stopAfter));
      tokens := tokens + [item];
      rest := left;
      if stopAfter.Some? && |tokens| == stopAfter.value - 1 {
        d := '\n';
      }
      assert d == next;
    }
    NothingLeft(d, |tokens|, stopAfter);
    assert tokens + [] == tokens;
  }

  lemma NothingLeft(d: char, count: nat, stopAfter: Option<nat>)
    ensures FieldsUpTo("", d, count, stopAfter) == []
  {
  }

  lemma UpToStep(s: string, d: char, count: nat, stopAfter: Option<nat>)
    requires s != ""
    ensures var (field, rest) := GetLine(s, d);
      && |rest| < |s|
      && FieldsUpTo(s, d, count, stopAfter)
         == [field] + FieldsUpTo(rest, if stopAfter.Some? && count + 1 == stopAfter.value - 1 then '\n' else d,
                                 count + 1, stopAfter)
  {
  }

  // Without a limit, or past it, the delimiter stays.
  lemma {:induction false} UnlimitedFields(s: string, d: char, count: nat, stopAfter: Option<nat>)
    requires stopAfter.Some? ==> count >= stopAfter.value - 1
    ensures FieldsUpTo(s, d, count, stopAfter) == Fields(s, d)
    decreases |s|
  {
    if s != "" {
      UnlimitedFields(GetLine(s, d).1, d, count + 1, stopAfter);
    }
  }

  lemma {:induction false} FindIn(a: string, d: char, rest: string)
    requires d !in a
    ensures Find(a + ([d] + rest), d) == |a| && GetLine(a + ([d] + rest), d) == (a, rest)
    ensures Find(a, d) == |a|
  {
    var t := a + ([d] + rest);
    if a != "" {
      assert t[1..] == a[1..] + ([d] + rest);
      FindIn(a[1..], d, rest);
    }
    assert t[..|a|] == a && t[|a| + 1..] == rest;
  }

  // ---------- Path segments ----------

  function NonEmpty(fields: seq<string>): seq<string> {
    if fields == [] then []
    else (if fields[0] == "" then [] else [fields[0]]) + NonEmpty(fields[1..])
  }

  // The segments a path is walked by: its fields between slashes, empty ones skipped.
  function Segments(path: string): seq<string> {
    NonEmpty(Fields(path, '/'))
  }

  function One(name: string): seq<string> {
    if name == "" then [] else [name]
  }

  lemma SegmentsBare(name: string)
    requires '/' !in name
    ensures Segments(name) == One(name)
  {
    if name != "" {
      FindIn(name, '/', "");
      hide Find;
      assert name[..|name|] == name;
      assert Fields(name, '/') == [name] + Fields("", '/');
      assert [name] + [] == [name] && [name][1..] == [];
      assert Fields(name, '/') == [name];
      assert NonEmpty([name][1..]) == [];
      assert NonEmpty([name]) == [name];
    }
  }

  lemma SegmentsCons(name: string, rest: string)
    requires '/' !in name
    ensures Segments(name + ("/" + rest)) == One(name) + Segments(rest)
  {
    var t := name + ("/" + rest);
    FindIn(name, '/', rest);
    hide Find, GetLine;
    assert Fields(t, '/') == [name] + Fields(rest, '/');
    assert ([name] + Fields(rest, '/'))[1..] == Fields(rest, '/');
  }

  lemma {:induction false} SegmentsAppend(a: string, b: string)
    ensures Segments(a + ("/" + b)) == Segments(a) + Segments(b)
    decreases |a|
  {
    var i := Find(a, '/');
    hide Find, Segments;
    if i == |a| {
      assert a[..i] == a;
      SegmentsBare(a);
      SegmentsCons(a, b);
    } else {
      var name, left := a[..i], a[i + 1..];
      assert a == name + ("/" + left);
      assert a + ("/" + b) == name + ("/" + (left + ("/" + b)));
      SegmentsCons(name, left + ("/" + b));
      SegmentsCons(name, left);
      SegmentsAppend(left, b);
      Assoc(One(name), Segments(left), Segments(b));
    }
  }

  // ---------- Decimal text ----------

  predicate IsDigit(c: char) {
    '0' <= c <= '9'
  }

  predicate AllDigits(s: string) {
    forall i :: 0 <= i < |s| ==> IsDigit(s[i])
  }

  // to_string of a non-negative number
  function Decimal(n: nat): (s: string)
    ensures s != ""
  {
    if n < 10 then [(n + 48) as char] else Decimal(n / 10) + [(n % 10 + 48) as char]
  }

  function DigitsValue(s: string): nat
    requires AllDigits(s)
  {
    if s == "" then 0 else 10 * DigitsValue(s[..|s| - 1]) + (s[|s| - 1] as int - 48)
  }

  lemma {:induction false} DecimalValue(n: nat)
    ensures AllDigits(Decimal(n)) && DigitsValue(Decimal(n)) == n
  {
    if n < 10 {
      assert Decimal(n)[..0] == "";
    } else {
      DecimalValue(n / 10);
      var s := Decimal(n);
      assert s[..|s| - 1] == Decimal(n / 10);
    }
  }

  // isspace in the "C" locale.
  predicate IsSpace(c: char) {
    c == ' ' || c == '\t' || c == '\n' || (11 as char) == c || (12 as char) == c || c == '\r'
  }

  function DigitCount(s: string): (n: nat)
    ensures n <= |s| && AllDigits(s[..n])
  {
    if s == "" || !IsDigit(s[0]) then 0 else 1 + DigitCount(s[1..])
  }

  // std::stoi; None where it throws invalid_argument or out_of_range.
  function Stoi(s: string): Option<int>
    decreases |s|
  {
    if s != "" && IsSpace(s[0]) then Stoi(s[1..])
    else
      var signed := s != "" && (s[0] == '-' || s[0] == '+');
      var digits := if signed then s[1..] else s;
      var n := DigitCount(digits);
      if n == 0 then None
      else
        var magnitude: int := DigitsValue(digits[..n]);
        var x := if signed && s[0] == '-' then -magnitude else magnitude;
        if -INT_MAX - 1 <= x <= INT_MAX then Some(x) else None
  }

  // ---------- What the texts are ----------

  lemma {:induction false} AllCounted(s: string)
    requires AllDigits(s)
    ensures DigitCount(s) == |s|
  {
    if s != "" {
      assert AllDigits(s[1..]) by {
        forall i | 0 <= i < |s[1..]| ensures IsDigit(s[1..][i]) {
          assert s[1..][i] == s[i + 1];
        }
      }
      AllCounted(s[1..]);
    }
  }

  lemma {:induction false} CountedUpTo(s: string, rest: string)
    requires AllDigits(s) && rest != "" && !IsDigit(rest[0])
    ensures DigitCount(s + rest) == |s|
  {
    if s == "" {
      assert s + rest == rest;
    } else {
      assert (s + rest)[1..] == s[1..] + rest;
      assert AllDigits(s[1..]) by {
        forall i | 0 <= i < |s[1..]| ensures IsDigit(s[1..][i]) {
          assert s[1..][i] == s[i + 1];
        }
      }
      CountedUpTo(s[1..], rest);
    }
  }

  // Decimal text ends in the digit of the units, and starts with the text of the tens.
  lemma DecimalDigits(n: nat, d: nat)
    requires d < 10
    ensures Decimal(10 * n + d) == (if n == 0 then "" else Decimal(n)) + ["0123456789"[d]]
  {
    var m := 10 * n + d;
    assert m / 10 == n && m % 10 == d;
    assert "0123456789"[d] == (d + 48) as char;
  }

  // The whitespace of isspace, written out.
  lemma SpacesAre(c: char)
    ensures IsSpace(c) <==> c in " \t\n\U{000B}\U{000C}\r"
  {
    var spaces := " \t\n\U{000B}\U{000C}\r";
    assert spaces[0] == ' ' && spaces[1] == '\t' && spaces[2] == '\n' && spaces[3] == 11 as char
      && spaces[4] == 12 as char && spaces[5] == '\r';
  }

  // stoi takes a sign and digits, and ignores the rest; it throws without a digit and for numbers
  // that need more than 32 bits.
  lemma StoiOfText(sign: string, digits: string, rest: string)
    requires sign == "" || sign == "-" || sign == "+"
    requires AllDigits(digits) && digits != "" && (rest != "" ==> !IsDigit(rest[0]))
    ensures var n: int := DigitsValue(digits); var x := if sign == "-" then -n else n;
      Stoi(sign + (digits + rest)) == if -0x8000_0000 <= x <= 0x7fff_ffff then Some(x) else None
  {
    var t := digits + rest;
    DigitsInFront(digits, rest);
    if sign == "" {
      assert sign + t == t;
      StoiUnfolded(t, "", t, |digits|);
    } else {
      StoiUnfolded(sign + t, sign, t, |digits|);
    }
  }

  lemma StoiUnfolded(s: string, sign: string, t: string, n: nat)
    requires s == sign + t && (sign == "" || sign == "-" || sign == "+")
    requires t != "" && IsDigit(t[0]) && n == DigitCount(t) && n > 0
    ensures var m: int := DigitsValue(t[..n]); var x := if sign == "-" then -m else m;
      Stoi(s) == if -0x8000_0000 <= x <= 0x7fff_ffff then Some(x) else None
  {
    if sign == "" {
      assert s == t;
    } else {
      assert s[0] == sign[0] && s[1..] == t;
    }
    hide DigitCount, AllDigits, DigitsValue;
  }

  lemma DigitsInFront(digits: string, rest: string)
    requires AllDigits(digits) && digits != "" && (rest != "" ==> !IsDigit(rest[0]))
    ensures var t := digits + rest;
      t != "" && IsDigit(t[0]) && DigitCount(t) == |digits| && t[..|digits|] == digits
  {
    if rest == "" {
      assert digits + rest == digits;
      AllCounted(digits);
    } else {
      CountedUpTo(digits, rest);
    }
  }

  lemma StoiWithoutDigits(s: string)
    requires forall i :: 0 <= i < |s| ==> !IsDigit(s[i])
    ensures Stoi(s) == None
    decreases |s|
  {
    if s != "" && IsSpace(s[0]) {
      StoiWithoutDigits(s[1..]);
    } else {
      assert s != "" && |s| > 1 ==> !IsDigit(s[1]);
    }
  }

  // The decimal text of a number, with a minus sign where it is negative.
  function Signed(x: int): string {
    if x < 0 then "-" + Decimal(-x) else Decimal(x)
  }

  lemma StoiOfSigned(x: int)
    ensures Stoi(Signed(x)) == if -0x8000_0000 <= x <= 0x7fff_ffff then Some(x) else None
  {
    var n: nat := if x < 0 then -x else x;
    var sign := if x < 0 then "-" else "";
    DecimalValue(n);
    StoiOfText(sign, Decimal(n), "");
    assert sign + (Decimal(n) + "") == Signed(x);
  }

  lemma StoiSkipsSpaces(space: char, s: string)
    requires space in " \t\n\U{000B}\U{000C}\r"
    ensures Stoi([space] + s) == Stoi(s)
  {
    SpacesAre(space);
    assert ([space] + s)[1..] == s;
    hide IsSpace, DigitCount, DigitsValue, AllDigits;
  }

  // ---------- Fields and the text ----------

  function Ended(fields: seq<string>, d: char): string {
    if fields == [] then "" else fields[0] + ([d] + Ended(fields[1..], d))
  }

  lemma {:induction false} FieldsAreFree(s: string, d: char)
    ensures forall i :: 0 <= i < |Fields(s, d)| ==> d !in Fields(s, d)[i]
    decreases |s|
  {
    if s != "" {
      FieldsAreFree(GetLine(s, d).1, d);
    }
  }

  lemma EndedStep(s: string, d: char)
    requires s != ""
    ensures var (first, rest) := GetLine(s, d);
      Ended(Fields(s, d), d) == first + ([d] + Ended(Fields(rest, d), d))
  {
    assert Fields(s, d)[1..] == Fields(GetLine(s, d).1, d);
  }

  lemma LineOf(s: string, d: char)
    requires s != ""
    ensures var (first, rest) := GetLine(s, d);
      && |rest| < |s|
      && (d !in s ==> first == s && rest == "" && s[|s| - 1] != d)
      && (d in s ==> s == first + ([d] + rest))
      && (d in s && rest != "" ==> s[|s| - 1] == rest[|rest| - 1])
      && (d in s && rest == "" ==> s[|s| - 1] == d)
  {
    var i := Find(s, d);
    if i < |s| {
      assert s[i] == d;
    } else {
      assert s[..i] == s;
    }
  }

  // Fields contain no delimiter, and each followed by the delimiter they are the text again, where
  // a missing one at the end is added.
  lemma {:induction false} FieldsAreTheText(s: string, d: char)
    ensures Ended(Fields(s, d), d) == if s == "" || s[|s| - 1] == d then s else s + [d]
    decreases |s|
  {
    if s != "" {
      LineOf(s, d);
      EndedStep(s, d);
      var (first, rest) := GetLine(s, d);
      FieldsAreTheText(rest, d);
      hide Fields, Ended, GetLine;
      assert [d] + "" == [d];
      if d in s && rest != "" && rest[|rest| - 1] != d {
        Assoc([d], rest, [d]);
        Assoc(first, [d] + rest, [d]);
      }
      if d !in s {
        NoFields(d);
      }
    }
  }

  lemma NoFields(d: char)
    ensures Ended(Fields("", d), d) == ""
  {
  }
}
