// Byte ranges: the Range header of server/neuserver.cpp, the readers, and the response of
// getAsset in server/router.cpp, against sections 14.2 and 14.4 of RFC 9110.
module RangeServing {
  import opened Common
  import opened Strings
  import opened Readers

  const HTTP_OK: int := 200
  const HTTP_PARTIAL: int := 206
  const HTTP_NOT_FOUND: int := 404
  const HTTP_UNSATISFIABLE: int := 416

  datatype Response = Response(status: int, data: seq<byte>, headers: map<string, string>)

  // ---------- The Range header ----------

  // Two's complement 64-bit arithmetic.
  function Wrap64(x: int): int {
    (x + LLONG_MAX + 1) % (2 * (LLONG_MAX + 1)) - (LLONG_MAX + 1)
  }

  // regex_match(header, "bytes=(\d+)-(\d*)?"): the two groups.
  function MatchRange(header: string): Option<(string, string)> {
    if !("bytes=" <= header) then None
    else
      var rest := header[6..];
      var n := DigitCount(rest);
      if n == 0 || n == |rest| || rest[n] != '-' || !AllDigits(rest[n + 1..]) then None
      else Some((rest[..n], rest[n + 1..]))
  }

  // std::stoll of digits; None where it throws out_of_range.
  function Stoll(digits: string): Option<int>
    requires AllDigits(digits)
  {
    if DigitsValue(digits) > LLONG_MAX then None else Some(DigitsValue(digits))
  }

  // __getFileReaderOptionsFromHeaders; `range` is None without a Range header, and the result
  // is None where stoll throws.
  method GetFileReaderOptions(range: Option<string>) returns (o: Option<Options>)
    ensures o == RangeOptions(range)
  {
    var pos, size := -1, -1;
    if range == None {
      return Some(Options(pos, size));
    }
    var groups := MatchRange(range.value);
    if groups.Some? {
      var first := Stoll(groups.value.0);
      if first == None {
        return None;
      }
      pos := first.value;
      if groups.value.1 != "" {
        var end := Stoll(groups.value.1);
        if end == None {
          return None;
        }
        if end.value >= pos {
          size := Wrap64(end.value - pos + 1);
        }
      }
    }
    return Some(Options(pos, size));
  }

  function RangeOptions(range: Option<string>): Option<Options> {
    if range == None || MatchRange(range.value) == None then Some(Options(-1, -1))
    else
      var (a, b) := MatchRange(range.value).value;
      if Stoll(a) == None || (b != "" && Stoll(b) == None) then None
      else if b == "" || Stoll(b).value < Stoll(a).value then Some(Options(Stoll(a).value, -1))
      else Some(Options(Stoll(a).value, Wrap64(Stoll(b).value - Stoll(a).value + 1)))
  }

  // ---------- The response ----------

  // The part of getAsset after the file was read.
  method MakeResponse(file: FileResult, prependData: seq<byte>, o: Options) returns (response: Response)
    ensures response == ResponseFor(file, prependData, o)
    // a file that was not read
    ensures file.status != Ok ==> response == Response(404, prependData + file.data, map[])
    // the whole file
    ensures file.status == Ok && o.pos < 0 ==> response == Response(200, prependData + file.data, map[])
    // a range behind its end
    ensures file.status == Ok && o.pos >= 0 && o.pos >= file.size ==>
              response == Response(416, prependData,
                                   map["Accept-Ranges" := "bytes",
                                       "Content-Range" := "bytes */" + Signed(file.size),
                                       "Content-Length" := "0"])
    // a range of it
    ensures file.status == Ok && 0 <= o.pos < file.size ==>
              response == Response(206, prependData + file.data,
                                   map["Accept-Ranges" := "bytes",
                                       "Content-Range" := "bytes " + Signed(o.pos) + "-"
                                                          + Signed(o.pos + |file.data| - 1) + "/" + Signed(file.size),
                                       "Content-Length" := Signed(|file.data|)])
  {
    var status, data, headers := HTTP_OK, file.data, map[];
    if file.status != Ok {
      status := HTTP_NOT_FOUND;
    } else if o.pos > -1 {
      if o.pos >= file.size {
        status, data := HTTP_UNSATISFIABLE, [];
        headers := headers["Accept-Ranges" := "bytes"];
        headers := headers["Content-Range" := "bytes */" + Signed(file.size)];
        headers := headers["Content-Length" := "0"];
      } else {
        var bytesRead := |data|;
        var end := o.pos + bytesRead - 1;
        status := HTTP_PARTIAL;
        headers := headers["Accept-Ranges" := "bytes"];
        headers := headers["Content-Range" :=
          "bytes " + Signed(o.pos) + "-" + Signed(end) + "/" + Signed(file.size)];
        headers := headers["Content-Length" := Signed(bytesRead)];
      }
    }
    if prependData != [] {
      data := prependData + data;
    }
    response := Response(status, data, headers);
  }

  // "bytes first-last/size" (section 14.4 of RFC 9110)
  function ContentRange(first: int, last: int, size: int): string {
    "bytes " + Signed(first) + "-" + Signed(last) + "/" + Signed(size)
  }

  // "bytes */size", the unsatisfied form
  function NoRange(size: int): string {
    "bytes */" + Signed(size)
  }

  function RangeHeaders(contentRange: string, contentLength: string): map<string, string> {
    map["Accept-Ranges" := "bytes", "Content-Range" := contentRange, "Content-Length" := contentLength]
  }

  function ResponseFor(file: FileResult, prependData: seq<byte>, o: Options): Response {
    if file.status != Ok then Response(HTTP_NOT_FOUND, prependData + file.data, map[])
    else if o.pos <= -1 then Response(HTTP_OK, prependData + file.data, map[])
    else if o.pos >= file.size then
      Response(HTTP_UNSATISFIABLE, prependData, RangeHeaders(NoRange(file.size), "0"))
    else
      Response(HTTP_PARTIAL, prependData + file.data,
               RangeHeaders(ContentRange(o.pos, o.pos + |file.data| - 1, file.size), Signed(|file.data|)))
  }

  // Prepended data stands before whatever the response holds without it, and changes nothing else.
  lemma PrependedResponse(file: FileResult, prependData: seq<byte>, o: Options)
    ensures ResponseFor(file, prependData, o)
         == ResponseFor(file, [], o).(data := prependData + ResponseFor(file, [], o).data)
  {
    var none: seq<byte> := [];
    assert none + file.data == file.data && prependData + none == prependData;
  }

  // A request for a readable file, from header to response. None where an exception escapes.
  function Serve(content: seq<byte>, range: Option<string>): Option<Response> {
    var o := RangeOptions(range);
    if o == None then None
    else Some(ResponseFor(FileResult(Ok, Slice(content, o.value), |content|), [], o.value))
  }

  // ---------- Ranges mean what they say ----------

  // A Range header from its two groups of digits; the second may be empty.
  function RangeText(first: string, last: string): string {
    "bytes=" + (first + ("-" + last))
  }

  predicate Digits(s: string) {
    s != "" && AllDigits(s)
  }

  // The regular expression matches exactly the range texts, and its groups are their parts.
  lemma MatchIff(header: string, first: string, last: string)
    ensures MatchRange(header) == Some((first, last)) <==>
            header == RangeText(first, last) && Digits(first) && AllDigits(last)
  {
    hide MatchRange, RangeText, AllDigits, Digits;
    if header == RangeText(first, last) && Digits(first) && AllDigits(last) {
      TextMatches(first, last);
    }
    if MatchRange(header) == Some((first, last)) {
      MatchIsText(header);
    }
  }

  lemma TextMatches(first: string, last: string)
    requires Digits(first) && AllDigits(last)
    ensures MatchRange(RangeText(first, last)) == Some((first, last))
  {
    var header := RangeText(first, last);
    var rest := first + ("-" + last);
    assert header[6..] == rest && header[..6] == "bytes=";
    CountedUpTo(first, "-" + last);
    var n := |first|;
    assert rest[..n] == first && rest[n] == '-' && rest[n + 1..] == last;
    hide AllDigits, DigitCount;
  }

  lemma MatchIsText(header: string)
    requires MatchRange(header).Some?
    ensures var (first, last) := MatchRange(header).value;
      header == RangeText(first, last) && Digits(first) && AllDigits(last)
  {
    var (first, last) := MatchRange(header).value;
    var rest := header[6..];
    var n := DigitCount(rest);
    assert header == "bytes=" + rest;
    assert rest == first + ("-" + last) by {
      assert first == rest[..n] && last == rest[n + 1..] && rest[n] == '-';
    }
    hide DigitCount;
  }

  lemma NoDigits(s: string)
    requires s == ""
    ensures AllDigits(s) && DigitsValue(s) == 0
  {
  }

  lemma WrappedSize(n: int)
    requires 1 <= n <= LLONG_MAX + 1
    ensures Wrap64(n) == if n == LLONG_MAX + 1 then -LLONG_MAX - 1 else n
  {
  }

  // What a range text asks for: nothing when a number does not fit, all from the first byte on
  // without a usable end, and else the bytes between. The largest size overflows to a negative
  // one, which also counts as not given.
  lemma RangeTextOptions(first: string, last: string)
    requires Digits(first) && AllDigits(last)
    ensures var a, b := DigitsValue(first), DigitsValue(last);
      RangeOptions(Some(RangeText(first, last)))
      == if a > LLONG_MAX || b > LLONG_MAX then None
         else if last == "" || b < a then Some(Options(a, -1))
         else Some(Options(a, if b - a == LLONG_MAX then -LLONG_MAX - 1 else b - a + 1))
  {
    MatchIff(RangeText(first, last), first, last);
    if last == "" {
      NoDigits(last);
    }
    var a, b := DigitsValue(first), DigitsValue(last);
    if a <= b <= LLONG_MAX {
      WrappedSize(b - a + 1);
    }
    hide MatchRange, RangeText, DigitsValue, AllDigits, Wrap64;
  }

  // The bytes first to last of a file, answered with 206 and a matching Content-Range, or 416
  // with the size when the file ends before them.
  function Answer(content: seq<byte>, first: nat, last: nat): Response
    requires first <= last
  {
    if first >= |content| then Response(HTTP_UNSATISFIABLE, [], RangeHeaders(NoRange(|content|), "0"))
    else
      var end := Min(last, |content| - 1);
      Response(HTTP_PARTIAL, content[first..end + 1],
               RangeHeaders(ContentRange(first, end, |content|), Signed(end + 1 - first)))
  }

  lemma AnswerOfOptions(content: seq<byte>, a: nat, b: nat, o: Options)
    requires a <= b && |content| <= LLONG_MAX
    requires o.pos == a && ((o.size < 0 && |content| - 1 <= b) || o.size == b - a + 1)
    ensures ResponseFor(FileResult(Ok, Slice(content, o), |content|), [], o) == Answer(content, a, b)
  {
    hide RangeHeaders, ContentRange, NoRange, Signed;
    var data := Slice(content, o);
    assert [] + data == data;
    if a < |content| {
      var rest := content[a..];
      assert rest == rest[..|rest|];
      assert data == content[a..Min(b, |content| - 1) + 1] by {
        assert rest[..Min(b - a + 1, |rest|)] == content[a..Min(b, |content| - 1) + 1];
      }
    } else {
      assert data == [];
    }
  }

  // The answer, written out.
  lemma AnswerIs(content: seq<byte>, first: nat, last: nat)
    requires first <= last
    ensures first < |content| ==>
              var end := Min(last, |content| - 1);
              Answer(content, first, last)
              == Response(206, content[first..end + 1],
                          map["Accept-Ranges" := "bytes",
                              "Content-Range" := "bytes " + Decimal(first) + "-" + Decimal(end) + "/" + Decimal(|content|),
                              "Content-Length" := Decimal(end + 1 - first)])
    ensures first >= |content| ==>
              Answer(content, first, last)
              == Response(416, [],
                          map["Accept-Ranges" := "bytes",
                              "Content-Range" := "bytes */" + Decimal(|content|),
                              "Content-Length" := "0"])
  {
    hide Decimal;
  }

  // Main theorem, for all digit strings: "bytes=a-b" with a <= b is answered, with the bytes from
  // a to min(b, size - 1), exactly when b fits a long long; otherwise stoll throws.
  lemma RangeIsServed(content: seq<byte>, first: string, last: string)
    requires Digits(first) && Digits(last) && |content| <= LLONG_MAX
    requires DigitsValue(first) <= DigitsValue(last)
    ensures Serve(content, Some(RangeText(first, last)))
         == if DigitsValue(last) <= LLONG_MAX then Some(Answer(content, DigitsValue(first), DigitsValue(last))) else None
  {
    RangeTextOptions(first, last);
    hide RangeText, RangeOptions, Slice, ResponseFor, Answer, DigitsValue;
    var o := RangeOptions(Some(RangeText(first, last)));
    if o.Some? {
      AnswerOfOptions(content, DigitsValue(first), DigitsValue(last), o.value);
    }
  }

  // A range that is not answered: "bytes=0-9223372036854775808".
  lemma HugeRangeThrows(content: seq<byte>)
    requires |content| <= LLONG_MAX
    ensures Serve(content, Some(RangeText("0", Decimal(LLONG_MAX + 1)))) == None
  {
    DecimalValue(LLONG_MAX + 1);
    assert DigitsValue("0") == 0 by {
      DecimalValue(0);
      assert Decimal(0) == "0";
    }
    hide Decimal, DigitsValue;
    RangeIsServed(content, "0", Decimal(LLONG_MAX + 1));
  }

  // "bytes=a-", and "bytes=a-b" with b < a, are answered with everything from a on, exactly when
  // the numbers fit a long long.
  lemma OpenRangeIsServed(content: seq<byte>, first: string, last: string)
    requires Digits(first) && AllDigits(last) && |content| <= LLONG_MAX
    requires last == "" || DigitsValue(last) < DigitsValue(first)
    ensures Serve(content, Some(RangeText(first, last)))
         == if DigitsValue(first) > LLONG_MAX then None
            else Some(Answer(content, DigitsValue(first), DigitsValue(first) + |content|))
  {
    OpenRangeOptions(first, last);
    hide RangeText, RangeOptions, Slice, ResponseFor, Answer, DigitsValue, AllDigits;
    var a := DigitsValue(first);
    if a <= LLONG_MAX {
      AnswerOfOptions(content, a, a + |content|, Options(a, -1));
    }
  }

  lemma OpenRangeOptions(first: string, last: string)
    requires Digits(first) && AllDigits(last)
    requires last == "" || DigitsValue(last) < DigitsValue(first)
    ensures RangeOptions(Some(RangeText(first, last)))
         == if DigitsValue(first) > LLONG_MAX then None else Some(Options(DigitsValue(first), -1))
  {
    hide RangeText, RangeOptions, DigitsValue, AllDigits;
    RangeTextOptions(first, last);
    if last == "" {
      NoDigits(last);
    }
  }

  // Without a Range header, or with one of another form, the whole file is sent.
  lemma NoRangeIsWhole(content: seq<byte>, range: Option<string>)
    requires range == None || forall first, last :: Digits(first) && AllDigits(last) ==> range.value != RangeText(first, last)
    ensures Serve(content, range) == Some(Response(200, content, map[]))
  {
    if range.Some? && MatchRange(range.value).Some? {
      var (first, last) := MatchRange(range.value).value;
      MatchIff(range.value, first, last);
      assert false;
    }
    assert Slice(content, Options(-1, -1)) == content;
    assert [] + content == content;
  }

  // ---------- Fetching a file in consecutive ranges ----------

  function Sum(lengths: seq<nat>): nat {
    if lengths == [] then 0 else lengths[0] + Sum(lengths[1..])
  }

  // A client that asks for ranges of the given lengths one after the other, until it gets a 416
  // or no answer.
  function Fetch(content: seq<byte>, pos: nat, lengths: seq<nat>): seq<byte>
    requires Positive(lengths)
    decreases |lengths|
  {
    if lengths == [] then []
    else
      var r := Serve(content, Some(RangeText(Decimal(pos), Decimal(pos + lengths[0] - 1))));
      if r == None || r.value.status == HTTP_UNSATISFIABLE then []
      else r.value.data + Fetch(content, pos + lengths[0], lengths[1..])
  }

  predicate Positive(lengths: seq<nat>) {
    forall i :: 0 <= i < |lengths| ==> lengths[i] >= 1
  }

  // Every range that starts inside the file ends at a number that fits a long long.
  predicate Fits(pos: nat, lengths: seq<nat>, size: nat)
    decreases |lengths|
  {
    lengths == [] || pos >= size
    || (pos + lengths[0] - 1 <= LLONG_MAX && Fits(pos + lengths[0], lengths[1..], size))
  }

  lemma FetchStep(content: seq<byte>, pos: nat, lengths: seq<nat>)
    requires Positive(lengths) && |content| <= LLONG_MAX && lengths != []
    ensures Positive(lengths[1..]) && Sum(lengths) == lengths[0] + Sum(lengths[1..])
    ensures pos >= |content| || pos + lengths[0] - 1 > LLONG_MAX ==> Fetch(content, pos, lengths) == []
    ensures pos < |content| && pos + lengths[0] - 1 <= LLONG_MAX ==>
              Fetch(content, pos, lengths)
              == content[pos..Min(pos + lengths[0], |content|)] + Fetch(content, pos + lengths[0], lengths[1..])
  {
    var last: nat := pos + lengths[0] - 1;
    DecimalValue(pos);
    DecimalValue(last);
    hide Serve, RangeText, RangeHeaders, ContentRange, NoRange, Signed, Decimal, DigitsValue, AllDigits;
    RangeIsServed(content, Decimal(pos), Decimal(last));
    assert Serve(content, Some(RangeText(Decimal(pos), Decimal(last))))
        == if last <= LLONG_MAX then Some(Answer(content, pos, last)) else None;
    assert pos < |content| ==> Min(last, |content| - 1) + 1 == Min(pos + lengths[0], |content|);
  }

  // The pieces put together are the file up to where the lengths reach, exactly when all ranges
  // needed for that fit.
  lemma {:induction false} RangesReassemble(content: seq<byte>, pos: nat, lengths: seq<nat>)
    requires Positive(lengths) && |content| <= LLONG_MAX
    ensures Fetch(content, pos, lengths) == content[Min(pos, |content|)..Min(pos + Sum(lengths), |content|)]
       <==> Fits(pos, lengths, |content|)
    decreases |lengths|
  {
    hide Fetch;
    if lengths == [] {
      FetchNothing(content, pos);
    } else {
      FetchStep(content, pos, lengths);
      if pos < |content| && pos + lengths[0] - 1 <= LLONG_MAX {
        var next, end := Min(pos + lengths[0], |content|), Min(pos + Sum(lengths), |content|);
        RangesReassemble(content, pos + lengths[0], lengths[1..]);
        Abut(content, pos, next, end);
        SameTail(content[pos..next], Fetch(content, pos + lengths[0], lengths[1..]), content[next..end]);
      }
    }
  }

  lemma FetchNothing(content: seq<byte>, pos: nat)
    ensures Fetch(content, pos, []) == []
  {
  }

  lemma Abut(content: seq<byte>, a: nat, b: nat, c: nat)
    requires a <= b <= c <= |content|
    ensures content[a..b] + content[b..c] == content[a..c]
  {
  }

  lemma SameTail(a: seq<byte>, b: seq<byte>, c: seq<byte>)
    ensures a + b == a + c <==> b == c
  {
    if a + b == a + c {
      assert (a + b)[|a|..] == b && (a + c)[|a|..] == c;
    }
  }
}
