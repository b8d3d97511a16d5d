/** The response object and http_response_write, which first settles the Content-Length header. */
module HttpResponses {
  import opened Basics
  import opened Strings
  import opened Numbers
  import opened Splitting
  import opened HttpHeaders
  import opened HttpHead
  import opened HttpGrammar
  import opened HttpHeaderText
  import opened HttpRoundTrip

  /** An output stream that takes a number of writes and then fails. */
  class Output {
    var written: string
    var accepts: nat

    method Write(bytes: string) returns (result: int)
      modifies this
      ensures if old(accepts) == 0 then result < 0 && written == old(written) && accepts == 0
              else result == |bytes| && written == old(written) + bytes && accepts == old(accepts) - 1
    {
      if accepts == 0 {
        return -1;
      }
      written, accepts := written + bytes, accepts - 1;
      return |bytes|;
    }
  }

  /** What has come out is all of the text, or what precedes the first failed write. */
  twostate predicate Wrote(out: Output, text: string, ok: bool)
    reads out
  {
    && (ok ==> out.written == old(out.written) + text)
    && (!ok ==> out.accepts == 0 && Partly(old(out.written), text, out.written))
  }

  /** Some of the text has been added to what was there. */
  predicate Partly(was: string, text: string, now: string) {
    was <= now && now <= was + text
  }

  lemma PartlyNothing(was: string, text: string)
    ensures Partly(was, text, was)
  {
  }

  /** All of a, then some of b. */
  lemma PartlyAfter(was: string, a: string, b: string, c: string, now: string)
    requires Partly(was + a, b, now)
    ensures Partly(was, a + b + c, now)
  {
    assert was + a + b <= was + (a + b + c);
  }

  /** The values from index j on with the commas before them. */
  function ValuesRest(values: seq<string>, j: nat): string
    requires j <= |values|
  {
    if j == |values| then "" else (if j > 0 then "," else "") + Join(values[j..], ",")
  }

  lemma ValuesRestStep(values: seq<string>, j: nat)
    requires j < |values|
    ensures ValuesRest(values, j) == (if j > 0 then "," else "") + (values[j] + ValuesRest(values, j + 1))
  {
    if j + 1 == |values| {
      assert values[j..] == [values[j]];
      assert values[j] + "" == values[j];
    } else {
      var rest := Join(values[j + 1..], ",");
      JoinCons(values[j], values[j + 1..]);
      assert values[j..] == [values[j]] + values[j + 1..];
      assert values[j] + "," + rest == values[j] + ("," + rest);
    }
  }

  lemma AllValues(values: seq<string>)
    ensures ValuesRest(values, 0) == Join(values, ",") && ValuesRest(values, |values|) == ""
  {
    assert values[0..] == values;
  }

  lemma Grows(was: string, now: string, x: string, rest: string, all: string)
    requires now + (x + rest) == was + all && was <= now
    ensures now + x + rest == was + all && was <= now + x
  {
    assert now + x + rest == now + (x + rest);
  }

  lemma PartlyLeft(was: string, now: string, rest: string, all: string, more: string)
    requires now + rest == was + all && was <= now
    ensures Partly(was, all + more, now) && (rest == "" ==> now + more == was + (all + more))
  {
    assert was + (all + more) == was + all + more == now + (rest + more);
  }

  lemma NoLines()
    ensures AllLines([]) == ""
  {
  }

  function AllLines(lines: seq<string>): string {
    if lines == [] then "" else AllLines(lines[..|lines| - 1]) + (lines[|lines| - 1] + CRLF)
  }

  lemma {:induction false} AllLinesCons(line: string, lines: seq<string>)
    ensures AllLines([line] + lines) == line + CRLF + AllLines(lines)
    decreases |lines|
  {
    var all := [line] + lines;
    if lines == [] {
      assert all == [line] && all[..0] == [];
    } else {
      var init, last := lines[..|lines| - 1], lines[|lines| - 1];
      AllLinesCons(line, init);
      assert all[..|all| - 1] == [line] + init && all[|all| - 1] == last;
      assert line + CRLF + AllLines(init) + (last + CRLF) == line + CRLF + (AllLines(init) + (last + CRLF));
    }
  }

  lemma {:induction false} BlockIsLines(lines: seq<string>)
    ensures Block(lines) == AllLines(lines) + CRLF
    decreases |lines|
  {
    if lines != [] {
      BlockIsLines(lines[1..]);
      AllLinesCons(lines[0], lines[1..]);
      assert [lines[0]] + lines[1..] == lines;
    }
  }

  lemma {:induction false} LinesSplit(lines: seq<string>, i: nat)
    requires i <= |lines|
    ensures AllLines(lines) == AllLines(lines[..i]) + AllLines(lines[i..])
    decreases |lines|
  {
    if i == |lines| {
      assert lines[..i] == lines;
    } else {
      var init, last := lines[..|lines| - 1], lines[|lines| - 1];
      LinesSplit(init, i);
      assert init[..i] == lines[..i] && lines[i..][..|lines| - i - 1] == init[i..];
      var front, back := AllLines(init[..i]), AllLines(init[i..]);
      assert front + back + (last + CRLF) == front + (back + (last + CRLF));
    }
  }

  lemma LinesSnoc(lines: seq<string>, i: nat)
    requires i < |lines|
    ensures AllLines(lines[..i + 1]) == AllLines(lines[..i]) + (lines[i] + CRLF)
  {
    assert lines[..i + 1][..i] == lines[..i];
  }

  /** The lines before one, the line, and the lines behind it. */
  lemma LinesStep(was: string, lines: seq<string>, i: nat)
    requires i < |lines|
    ensures was + AllLines(lines[..i + 1]) == was + AllLines(lines[..i]) + (lines[i] + CRLF)
    ensures AllLines(lines) == AllLines(lines[..i]) + (lines[i] + CRLF) + AllLines(lines[i + 1..])
  {
    hide AllLines;
    LinesSplit(lines, i + 1);
    LinesSnoc(lines, i);
  }

  /** The four parts that are written one after the other. */
  lemma ResponseParts(was: string, first: string, lines: string, body: string)
    ensures var all := first + CRLF + (lines + CRLF) + body;
      && all == (first + CRLF) + lines + (CRLF + body) == (first + CRLF + lines) + CRLF + body
      && all == (first + CRLF + lines + CRLF) + body + ""
      && all == "" + (first + CRLF) + (lines + (CRLF + body))
      && was + (first + CRLF) + lines == was + (first + CRLF + lines)
      && was + (first + CRLF + lines) + CRLF == was + (first + CRLF + lines + CRLF)
      && was + (first + CRLF + lines + CRLF) + body == was + all
  {
  }

  class HttpResponse {
    var status: int
    var reason: string
    var body: string
    const headers: HttpHeaders

    constructor ()
      ensures headers.Valid() && fresh(headers) && headers.slots == []
      ensures status == 200 && reason == "OK" && body == ""
    {
      headers := new HttpHeaders();
      status, reason, body := 200, "OK", "";
    }

    method SettleValue(header: HttpHeader)
      requires header.Valid()
      modifies header
      ensures header.Valid() && header.name == old(header.name)
      ensures var was := old(header.Live().values);
        header.Live().values == if |was| == 1 && ScanSize(was[0]) == Some(|body|) then was else [Decimal(|body|)]
    {
      hide ScanSize, Decimal;
      if header.length != 1 {
        header.Clear();
      } else {
        var value := header.GetValue(0);
        if ScanSize(value.value) != Some(|body|) {
          header.Clear();
        }
      }
      if header.length == 0 {
        var i := header.AppendValue();
        header.SetValue(i, Decimal(|body|));
      }
    }

    /** Gives the response one Content-Length value that tells the size of the body. */
    method SettleLength()
      requires headers.Valid()
      modifies headers, headers.slots
      ensures headers.Valid()
      ensures forall k :: 0 <= k < |headers.slots| ==> headers.slots[k] in old(headers.slots) || fresh(headers.slots[k])
      ensures headers.Live() == WithLength(old(headers.Live()), |body|)
    {
      hide IndexOf, ScanSize, Decimal, ToLower;
      ghost var i := IndexOf(headers.Live(), CONTENT_LENGTH);
      var header := headers.GetByName(CONTENT_LENGTH, true);
      ghost var g := headers.Live();
      assert header.Live() == g[i];
      SettleValue(header);
      assert headers.Live() == g[i := header.Live()];
    }

    method WriteHeader(header: HttpHeader, out: Output) returns (ok: bool)
      requires header.Valid()
      modifies out
      ensures Wrote(out, HeaderText(header.Live()) + CRLF, ok)
    {
      hide CStr, Join, HeaderText, ValuesRest, Partly;
      ghost var was, cs, text := out.written, CStrs(header.values[..header.length]), HeaderText(header.Live());
      TextOf(header.Live());
      AllValues(cs);
      PartlyNothing(was, text + CRLF);
      var result := out.Write(CStr(header.name) + ": ");
      if result < 0 {
        return false;
      }
      var j := 0;
      while j < header.length
        invariant j <= header.length == |cs|
        invariant out.written + ValuesRest(cs, j) == was + text && was <= out.written
      {
        ValuesRestStep(cs, j);
        PartlyLeft(was, out.written, ValuesRest(cs, j), text, CRLF);
        if j > 0 {
          Grows(was, out.written, ",", cs[j] + ValuesRest(cs, j + 1), text);
          result := out.Write(",");
          if result < 0 {
            return false;
          }
        }
        PartlyLeft(was, out.written, cs[j] + ValuesRest(cs, j + 1), text, CRLF);
        Grows(was, out.written, cs[j], ValuesRest(cs, j + 1), text);
        result := out.Write(CStr(header.values[j]));
        if result < 0 {
          return false;
        }
        j := j + 1;
      }
      PartlyLeft(was, out.written, "", text, CRLF);
      result := out.Write(CRLF);
      return result >= 0;
    }

    /** The header lines. */
    method WriteHeaders(out: Output) returns (ok: bool)
      requires headers.Valid()
      modifies out
      ensures Wrote(out, AllLines(HeaderTexts(headers.Live())), ok)
    {
      hide HeaderText, AllLines, Partly;
      ghost var was, texts := out.written, HeaderTexts(headers.Live());
      NoLines();
      assert texts[..0] == [];
      var i := 0;
      while i < headers.length
        invariant i <= headers.length
        invariant out.written == was + AllLines(texts[..i])
      {
        LinesStep(was, texts, i);
        var header := headers.Get(i);
        ok := WriteHeader(header, out);
        if !ok {
          PartlyAfter(was, AllLines(texts[..i]), texts[i] + CRLF, AllLines(texts[i + 1..]), out.written);
          return;
        }
        i := i + 1;
      }
      assert texts[..i] == texts;
      return true;
    }

    /** Returns 0 just if all of the response has been written; otherwise a part from the start has. */
    method Write(out: Output) returns (code: int)
      requires headers.Valid()
      modifies headers, headers.slots, out
      ensures headers.Valid() && headers.Live() == WithLength(old(headers.Live()), |body|)
      ensures code == 0 || code == 1
      ensures Wrote(out, ResponseText(status, reason, old(headers.Live()), body), code == 0)
    {
      hide StatusLine, Block, HeaderTexts, WithLength, AllLines, Partly;
      SettleLength();
      code := WriteAll(out);
    }

    method WriteAll(out: Output) returns (code: int)
      requires headers.Valid()
      modifies out
      ensures code == 0 || code == 1
      ensures Wrote(out, Message(StatusLine(status, reason), headers.Live(), body), code == 0)
    {
      hide StatusLine, Block, HeaderTexts, AllLines, Partly;
      ghost var was, first, lines := out.written, StatusLine(status, reason), AllLines(HeaderTexts(headers.Live()));
      BlockIsLines(HeaderTexts(headers.Live()));
      ResponseParts(was, first, lines, body);
      PartlyNothing(was, first + CRLF + (lines + CRLF) + body);
      var result := out.Write(StatusLine(status, reason) + CRLF);
      if result < 0 {
        return 1;
      }
      var ok := WriteHeaders(out);
      if !ok {
        PartlyAfter(was, first + CRLF, lines, CRLF + body, out.written);
        return 1;
      }
      PartlyNothing(out.written, CRLF);
      PartlyAfter(was, first + CRLF + lines, CRLF, body, out.written);
      result := out.Write(CRLF);
      if result < 0 {
        return 1;
      }
      PartlyNothing(out.written, body);
      PartlyAfter(was, first + CRLF + lines + CRLF, body, "", out.written);
      result := out.Write(body);
      return if result < 0 then 1 else 0;
    }
  }
}
