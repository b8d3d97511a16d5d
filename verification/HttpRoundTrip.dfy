/**
 The text of a response, and when the scanner of the request parser reads its header block
 back: the same names and values in the same order, and the size of the body.
 */
module HttpRoundTrip {
  import opened Basics
  import opened Strings
  import opened Numbers
  import opened Splitting
  import opened HttpHeaders
  import opened HttpHead
  import opened HttpGrammar
  import opened HttpReceive
  import opened HttpHeaderText
  import opened Scanning

  const CONTENT_LENGTH := "Content-Length"

  function HeaderTexts(hs: seq<Header>): (r: seq<string>)
    ensures |r| == |hs| && forall k :: 0 <= k < |hs| ==> r[k] == HeaderText(hs[k])
  {
    seq(|hs|, k requires 0 <= k < |hs| => HeaderText(hs[k]))
  }

  /** The headers with a Content-Length of n: kept if it has one value that reads as n, replaced otherwise. */
  function WithLength(hs: seq<Header>, n: nat): (r: seq<Header>)
    ensures |r| == |WithName(hs, CONTENT_LENGTH)|
  {
    var i, g := IndexOf(hs, CONTENT_LENGTH), WithName(hs, CONTENT_LENGTH);
    if |g[i].values| == 1 && ScanSize(g[i].values[0]) == Some(n) then g
    else g[i := Header(g[i].name, [Decimal(n)])]
  }

  function Signed(n: int): string {
    if n < 0 then "-" + Decimal(-n) else Decimal(n)
  }

  function StatusLine(status: int, reason: string): string {
    "HTTP/1.1 " + Signed(status) + " " + CStr(reason)
  }

  /** What http_response_write writes. */
  function ResponseText(status: int, reason: string, hs: seq<Header>, body: string): string {
    StatusLine(status, reason) + CRLF + Block(HeaderTexts(WithLength(hs, |body|))) + body
  }

  // The Content-Length header

  lemma SettledNames(hs: seq<Header>, n: nat)
    requires DistinctNames(hs)
    ensures var r := WithLength(hs, n);
      && DistinctNames(r) && |hs| <= |r| && IndexOf(r, CONTENT_LENGTH) == IndexOf(hs, CONTENT_LENGTH) < |r|
      && (forall k :: 0 <= k < |hs| ==> r[k].name == hs[k].name)
      && (|r| > |hs| ==> r[|hs|].name == CONTENT_LENGTH && |r| == |hs| + 1)
  {
    hide ToLower, ScanSize;
    var i, r := IndexOf(hs, CONTENT_LENGTH), WithLength(hs, n);
    AddingKeepsNames(hs, CONTENT_LENGTH, []);
    assert forall k :: 0 <= k < |r| ==> r[k].name == if k < |hs| then hs[k].name else CONTENT_LENGTH;
    IndexIs(r, CONTENT_LENGTH, i);
  }

  lemma SettledLength(hs: seq<Header>, n: nat)
    requires DistinctNames(hs) && n < SIZE_MODULUS
    ensures LengthOf(WithLength(hs, n)) == Present(n) && WithLength(WithLength(hs, n), n) == WithLength(hs, n)
  {
    hide ToLower, ScanSize, Decimal, DistinctNames, IndexOf;
    SettledNames(hs, n);
    ScanDecimal(n);
  }

  /** The writer settles the Content-Length, leaves other headers alone, and settles it once. */
  lemma LengthIsSettled(hs: seq<Header>, n: nat, other: string)
    requires n < SIZE_MODULUS && DistinctNames(hs)
    ensures var r := WithLength(hs, n);
      && LengthOf(r) == Present(n)
      && WithLength(r, n) == r
      && DistinctNames(r)
      && (!SameName(other, CONTENT_LENGTH) ==> ValuesOf(r, other) == ValuesOf(hs, other))
  {
    hide ToLower, ScanSize, Decimal, LengthOf;
    SettledLength(hs, n);
    SettledNames(hs, n);
    if !SameName(other, CONTENT_LENGTH) {
      var j, r := IndexOf(hs, other), WithLength(hs, n);
      IndexIs(r, other, if j == |hs| then |r| else j);
    }
  }

  // Many header lines

  /** Lines that add as many headers as they are add one each, in order, under new names. */
  lemma {:induction false} OneHeaderEach(h: seq<Header>, lines: seq<string>)
    requires HeadersOf(h, lines).Some?
    ensures var r := HeadersOf(h, lines).value;
      && |r| <= |h| + |lines|
      && (|r| == |h| + |lines| ==>
            && r[..|h|] == h
            && (forall k :: 0 <= k < |lines| ==> HeaderOf(lines[k]) == Some(r[|h| + k]))
            && (DistinctNames(h) ==> DistinctNames(r)))
    decreases |lines|
  {
    hide HeaderOf, DistinctNames, IndexOf, WithValues, WithName;
    if lines == [] {
      assert h[..|h|] == h;
    } else {
      var x := HeaderOf(lines[0]).value;
      var g := WithValues(h, x.name, x.values);
      NewHeader(h, x);
      OneHeaderEach(g, lines[1..]);
      var r := HeadersOf(h, lines).value;
      if |r| == |h| + |lines| {
        forall k | 0 <= k < |lines|
          ensures HeaderOf(lines[k]) == Some(r[|h| + k])
        {
          if k > 0 { assert lines[k] == lines[1..][k - 1]; }
        }
        assert r[..|h|] == g[..|h|];
      }
    }
  }

  lemma NewHeader(h: seq<Header>, x: Header)
    ensures var g := WithValues(h, x.name, x.values);
      && |g| <= |h| + 1
      && (|g| == |h| + 1 <==> IndexOf(h, x.name) == |h|)
      && (|g| == |h| + 1 ==> g == h + [x] && (DistinctNames(h) ==> DistinctNames(g)))
  {
    if DistinctNames(h) { AddingKeepsNames(h, x.name, x.values); }
    assert [] + x.values == x.values;
  }

  lemma {:induction false} WritableBlock(hs: seq<Header>, k: nat)
    requires k <= |hs| && DistinctNames(hs) && forall j :: 0 <= j < |hs| ==> Writable(hs[j])
    ensures HeadersOf(hs[..k], HeaderTexts(hs)[k..]) == Some(hs)
    decreases |hs| - k
  {
    hide Writable, HeaderOf, HeaderText, WithValues;
    if k == |hs| {
      assert hs[..k] == hs;
    } else {
      HeaderComesBack(hs[k]);
      NotYet(hs, k);
      NewHeader(hs[..k], hs[k]);
      assert hs[..k] + [hs[k]] == hs[..k + 1];
      var lines := HeaderTexts(hs)[k..];
      assert lines[0] == HeaderText(hs[k]) && lines[1..] == HeaderTexts(hs)[k + 1..];
      WritableBlock(hs, k + 1);
    }
  }

  lemma NotYet(hs: seq<Header>, k: nat)
    requires k < |hs| && DistinctNames(hs)
    ensures IndexOf(hs[..k], hs[k].name) == k
  {
    IndexIs(hs[..k], hs[k].name, k);
  }

  /** Written header lines are read back as the same headers exactly if each is writable and names differ. */
  lemma LinesComeBack(hs: seq<Header>)
    ensures HeadersOf([], HeaderTexts(hs)) == Some(hs)
            <==> DistinctNames(hs) && forall k :: 0 <= k < |hs| ==> Writable(hs[k])
  {
    hide Writable, DistinctNames, HeaderOf, HeaderText;
    var lines := HeaderTexts(hs);
    if DistinctNames(hs) && forall k :: 0 <= k < |hs| ==> Writable(hs[k]) {
      WritableBlock(hs, 0);
      assert hs[..0] == [] && lines[0..] == lines;
    }
    if HeadersOf([], lines) == Some(hs) {
      OneHeaderEach([], lines);
      assert DistinctNames([]) by { NoNames(); }
      forall k | 0 <= k < |hs|
        ensures Writable(hs[k])
      {
        HeaderComesBack(hs[k]);
      }
    }
  }

  lemma NoNames()
    ensures DistinctNames([])
  {
  }

  // CRLF

  ghost predicate CrlfFreeHeader(h: Header) {
    CrlfFree(h.name) && forall k :: 0 <= k < |h.values| ==> CrlfFree(h.values[k])
  }

  ghost predicate CrlfFreeHeaders(hs: seq<Header>) {
    forall k :: 0 <= k < |hs| ==> CrlfFreeHeader(hs[k])
  }

  /** Text with a separator in between that is neither half of a CRLF. */
  lemma CrlfFreeJoin(a: string, c: char, b: string)
    requires CrlfFree(a) && CrlfFree(b) && c != '\r' && c != '\n'
    ensures CrlfFree(a + [c] + b)
  {
    var s := a + [c] + b;
    forall i | 0 <= i < |s|
      ensures !CrlfAt(s, i)
    {
      if i < |a| { assert !CrlfAt(a, i); }
      if i > |a| { assert !CrlfAt(b, i - |a| - 1); }
    }
  }

  lemma CrlfFreeSlice(s: string, from: nat, to: nat)
    requires CrlfFree(s) && from <= to <= |s|
    ensures CrlfFree(s[from..to])
  {
    forall i | 0 <= i < to - from
      ensures !CrlfAt(s[from..to], i)
    {
      assert !CrlfAt(s, from + i);
    }
  }

  lemma {:induction false} ValuesCrlfFree(values: seq<string>)
    requires forall k :: 0 <= k < |values| ==> CrlfFree(values[k])
    ensures CrlfFree(Join(values, ","))
    decreases |values|
  {
    hide CrlfFree;
    if values == [] {
      EmptyCrlfFree();
    } else if |values| > 1 {
      ValuesCrlfFree(values[1..]);
      CrlfFreeJoin(values[0], ',', Join(values[1..], ","));
    }
  }

  lemma EmptyCrlfFree()
    ensures CrlfFree("")
  {
  }

  lemma LineCrlfFree(h: Header)
    requires CrlfFreeHeader(h)
    ensures CrlfFree(HeaderText(h)) && HeaderText(h) != ""
  {
    hide CrlfFree;
    forall k | 0 <= k < |h.values|
      ensures CrlfFree(CStrs(h.values)[k])
    {
      CrlfFreeSlice(h.values[k], 0, |CStr(h.values[k])|);
    }
    var name, text := CStr(h.name), ValuesText(h.values);
    ValuesCrlfFree(CStrs(h.values));
    CrlfFreeSlice(h.name, 0, |name|);
    EmptyCrlfFree();
    CrlfFreeJoin("", ' ', text);
    CrlfFreeJoin(name, ':', "" + [' '] + text);
    assert HeaderText(h) == name + [':'] + ("" + [' '] + text);
  }

  lemma TrimmedIsSlice(s: string, find: string)
    ensures |TrimStart(s, find)| <= |s| && TrimStart(s, find) == s[|s| - |TrimStart(s, find)|..|s|]
  {
  }

  lemma ParsedCrlfFree(line: string)
    requires CrlfFree(line) && HeaderOf(line).Some?
    ensures CrlfFreeHeader(HeaderOf(line).value)
  {
    hide CrlfFree, TrimStart, NextMatch;
    var c := NextMatch(line, ":", 0).value;
    CrlfFreeSlice(line, 0, c);
    CrlfFreeSlice(line, c + 1, |line|);
    assert line[0..c] == line[..c] && line[c + 1..|line|] == line[c + 1..];
    var text := TrimStart(line[c + 1..], BLANKS);
    TrimmedIsSlice(line[c + 1..], BLANKS);
    CrlfFreeSlice(line[c + 1..], |line[c + 1..]| - |text|, |line[c + 1..]|);
    RangesAreAdjacent(text, 0, ",", 0);
    var r := Ranges(text, 0, ",", 0);
    forall k | 0 <= k < |r|
      ensures CrlfFree(Pieces(text, 0, ",")[k])
    {
      CrlfFreeSlice(text, r[k].start, r[k].end);
    }
  }

  lemma {:induction false} AllParsedCrlfFree(h: seq<Header>, lines: seq<string>)
    requires CrlfFreeHeaders(h) && HeaderLines(lines) && HeadersOf(h, lines).Some?
    ensures CrlfFreeHeaders(HeadersOf(h, lines).value)
    decreases |lines|
  {
    hide CrlfFree, HeaderOf;
    if lines != [] {
      var x := HeaderOf(lines[0]).value;
      ParsedCrlfFree(lines[0]);
      AddedCrlfFree(h, x);
      AllParsedCrlfFree(WithValues(h, x.name, x.values), lines[1..]);
    }
  }

  lemma AddedCrlfFree(h: seq<Header>, x: Header)
    requires CrlfFreeHeaders(h) && CrlfFreeHeader(x)
    ensures CrlfFreeHeaders(WithValues(h, x.name, x.values))
  {
    hide CrlfFree, ToLower;
  }

  // The whole block

  /** Headers that survive being written and read. */
  ghost predicate BlockWritable(hs: seq<Header>) {
    && DistinctNames(hs)
    && (forall k :: 0 <= k < |hs| ==> Writable(hs[k]))
    && CrlfFreeHeaders(hs)
  }

  lemma TextsAreLines(hs: seq<Header>)
    requires CrlfFreeHeaders(hs)
    ensures HeaderLines(HeaderTexts(hs))
  {
    hide CrlfFree, HeaderText;
    forall k | 0 <= k < |hs|
      ensures CrlfFree(HeaderTexts(hs)[k]) && HeaderTexts(hs)[k] != ""
    {
      LineCrlfFree(hs[k]);
    }
  }

  function Message(first: string, hs: seq<Header>, body: string): string {
    first + CRLF + Block(HeaderTexts(hs)) + body
  }

  /**
   The header block that is written behind a request line or a status line scans to the
   same headers exactly if they are writable; then what follows it is the body.
   */
  lemma BlockComesBack(first: string, hs: seq<Header>, body: string)
    requires CrlfFree(first) && RequestLineOf(first).Some? && !LengthOf(hs).Invalid?
    ensures var r := ScanHead(Message(first, hs, body));
      r.Complete? && r.head.headers == hs <==> BlockWritable(hs)
    ensures BlockWritable(hs) ==>
      var b := Message(first, hs, body);
      ScanHead(b) == Complete(Head(RequestLineOf(first).value, hs, LengthOf(hs), |b| - |body| - 2))
  {
    hide RequestLineOf, CrlfFree, ScanHead, HeadersOf, Block, CrlfFreeHeader, Writable, DistinctNames, LengthOf;
    var b, lines := Message(first, hs, body), HeaderTexts(hs);
    if CrlfFreeHeaders(hs) {
      TextsAreLines(hs);
      GrammarScans(first, lines, body);
      LinesComeBack(hs);
    }
    if ScanHead(b).Complete? && ScanHead(b).head.headers == hs {
      var f, l := CompleteIsGrammar(b);
      MeaningDenotes(f, l, b[ScanHead(b).head.BodyStart()..]);
      AllParsedCrlfFree([], l);
    }
  }

  // The whole response

  lemma SignedIsWord(n: int)
    ensures Word(Signed(n)) && CrlfFree(Signed(n))
  {
    hide Decimal;
    var m := if n < 0 then -n else n;
    DecimalShape(m);
    var d := Decimal(m);
    assert forall i :: 0 <= i < |Signed(n)| ==> Signed(n)[i] == '-' || '0' <= Signed(n)[i] <= '9';
  }

  /** A reason phrase that leaves the status line one line of three parts, as those of the source do. */
  ghost predicate PlainReason(reason: string) {
    CrlfFree(reason) && |CStr(reason)| >= 2 && reason[0] != ' '
  }

  lemma StatusCrlfFree(status: int, reason: string)
    requires CrlfFree(reason)
    ensures CrlfFree(StatusLine(status, reason))
  {
    hide CrlfFree;
    var word, p := Signed(status), CStr(reason);
    SignedIsWord(status);
    CrlfFreeSlice(reason, 0, |p|);
    CrlfFreeJoin(word, ' ', p);
    ProtocolCrlfFree();
    CrlfFreeJoin("HTTP/1.1", ' ', word + [' '] + p);
    assert StatusLine(status, reason) == "HTTP/1.1" + [' '] + (word + [' '] + p);
  }

  lemma ProtocolCrlfFree()
    ensures CrlfFree("HTTP/1.1")
  {
  }

  lemma StatusLineReads(status: int, reason: string)
    requires PlainReason(reason)
    ensures CrlfFree(StatusLine(status, reason))
    ensures RequestLineOf(StatusLine(status, reason)) == Some(RequestLine("HTTP/1.1", Signed(status)))
  {
    hide RequestLineOf;
    var word, p := Signed(status), CStr(reason);
    StatusCrlfFree(status, reason);
    SignedIsWord(status);
    SpacedReads(StatusLine(status, reason), RequestLine("HTTP/1.1", word), "", " ", " ", p);
  }

  lemma DecimalWritable(name: string, n: nat)
    requires NulFree(name) && (forall i :: 0 <= i < |name| ==> name[i] != ':') && CrlfFree(name)
    ensures Writable(Header(name, [Decimal(n)])) && CrlfFreeHeader(Header(name, [Decimal(n)]))
  {
    DecimalShape(n);
  }

  lemma LengthStaysWritable(hs: seq<Header>, n: nat)
    requires BlockWritable(hs) && n < SIZE_MODULUS
    ensures BlockWritable(WithLength(hs, n))
  {
    hide NulFree, Separable, StartsBlank, IndexOf, ToLower, ScanSize;
    var i, r := IndexOf(hs, CONTENT_LENGTH), WithLength(hs, n);
    LengthIsSettled(hs, n, "");
    PlainName();
    DecimalWritable(if i < |hs| then hs[i].name else CONTENT_LENGTH, n);
    forall k | 0 <= k < |r|
      ensures Writable(r[k]) && CrlfFreeHeader(r[k])
    {
      if k != i { assert r[k] == hs[k]; }
    }
  }

  lemma PlainName()
    ensures NulFree(CONTENT_LENGTH) && CrlfFree(CONTENT_LENGTH)
    ensures forall i :: 0 <= i < |CONTENT_LENGTH| ==> CONTENT_LENGTH[i] != ':'
  {
  }

  /** The head that the request parser finds in a response. */
  function ResponseHead(status: int, reason: string, hs: seq<Header>, body: string): Head {
    Head(RequestLine("HTTP/1.1", Signed(status)), WithLength(hs, |body|), Present(|body|),
         |StatusLine(status, reason)| + |Block(HeaderTexts(WithLength(hs, |body|)))|)
  }

  /** The text of a response with writable headers is a head of the request grammar and the body it tells of. */
  lemma ResponseScans(status: int, reason: string, hs: seq<Header>, body: string)
    requires BlockWritable(hs) && PlainReason(reason) && |body| < SIZE_MODULUS
    ensures var (t, h) := (ResponseText(status, reason, hs, body), ResponseHead(status, reason, hs, body));
      ScanHead(t) == Complete(h) && h.BodyStart() + |body| == |t| && t[h.BodyStart()..] == body
  {
    hide RequestLineOf, ScanHead, Block, StatusLine, LengthOf, WithLength, BlockWritable, PlainReason;
    var first, all := StatusLine(status, reason), WithLength(hs, |body|);
    StatusLineReads(status, reason);
    LengthStaysWritable(hs, |body|);
    assert DistinctNames(hs) by { WritableIsDistinct(hs); }
    LengthIsSettled(hs, |body|, "");
    BlockComesBack(first, all, body);
    var b := Message(first, all, body);
    assert b == ResponseText(status, reason, hs, body);
    assert b[|b| - |body|..] == body;
  }

  /**
   Reading a written response with the request parser. For every way to cut it into reads the
   head is the writer's, if the head is read as a whole; the response is accepted, with its
   body, exactly if the first read to end at or past the goal ends where the response does.
   */
  lemma ResponseComesBack(status: int, reason: string, hs: seq<Header>, body: string, input: seq<Read>)
    requires BlockWritable(hs) && PlainReason(reason) && |body| < SIZE_MODULUS
    requires Delivers(input, ResponseText(status, reason, hs, body))
    ensures var (t, h) := (ResponseText(status, reason, hs, body), ResponseHead(status, reason, hs, body));
      && (h.BodyStart() <= MAX_HEAD ==> ScanHead(Received("", input).buffer) == Complete(h))
      && (HttpReceive.Parse(input).Accepted? <==> HeadIsRead(input, h) && Reached(0, input, Goal(h)) == |t|)
      && (HttpReceive.Parse(input).Accepted? ==> HttpReceive.Parse(input) == Accepted(h, body))
  {
    hide ScanHead, ResponseText, Received, BlockWritable, PlainReason, HttpReceive.Parse, Goal;
    var t, h := ResponseText(status, reason, hs, body), ResponseHead(status, reason, hs, body);
    ResponseScans(status, reason, hs, body);
    AcceptedExactly(input, t, h);
    if h.BodyStart() <= MAX_HEAD {
      ShortHeadInReach(t, h);
      HeadIsIndependentOfReads(input, t);
    }
  }

  lemma ShortHeadInReach(t: string, h: Head)
    requires ScanHead(t) == Complete(h) && h.BodyStart() <= MAX_HEAD
    ensures HeadInReach(t)
  {
    hide ScanHead;
    if |t| > MAX_HEAD { ScanOfLongPrefix(t[..MAX_HEAD], t, h); }
  }

  /** A printed status code scans to itself and to its end. */
  lemma SignedScans(n: int)
    ensures ScanAnyBase(Signed(n)) == Some((n, |Signed(n)|))
  {
    hide Decimal, ScanAnyBase;
    if n >= 0 { ScanDecimal(n); } else { NegativeScans(-n); }
  }

  lemma NegativeScans(n: nat)
    requires n > 0
    ensures ScanAnyBase("-" + Decimal(n)) == Some((-1 * n, |"-" + Decimal(n)|))
  {
    hide Decimal, ScanAnyBase, Value, DigitValue;
    var ds := Decimal(n);
    DecimalShape(n);
    DigitsAre(ds);
    AnyBaseReads("", "-", "", ds, "", 10);
    assert "" + "-" + "" + ds == "-" + ds && "-" + ds + "" == "-" + ds;
  }

  lemma DigitsAre(ds: string)
    requires forall i :: 0 <= i < |ds| ==> '0' <= ds[i] <= '9'
    ensures forall i :: 0 <= i < |ds| ==> DigitValue(ds[i]) < 10
  {
  }

  /** The first line of a text that starts with a line and CRLF. */
  lemma FirstLine(line: string, rest: string)
    requires CrlfFree(line)
    ensures var t := line + CRLF + rest; NextCrlf(t, 0) == |line| && t[..NextCrlf(t, 0)] == line
  {
    hide CrlfFree;
    var t := line + CRLF + rest;
    assert t[0..] == t;
    LineEnds(t, 0, line, rest);
  }

  /**
   The first line of a response is the protocol, the status code and the reason phrase with a
   space between two: the word in the middle is the number of the code, and the phrase is what
   was set, up to a NUL.
   */
  lemma StatusComesBack(status: int, reason: string, hs: seq<Header>, body: string)
    returns (word: string, phrase: string)
    requires CrlfFree(reason)
    ensures var t := ResponseText(status, reason, hs, body);
      t[..NextCrlf(t, 0)] == "HTTP/1.1" + " " + word + " " + phrase
    ensures Word(word) && ScanAnyBase(word) == Some((status, |word|))
    ensures phrase <= reason && NulFree(phrase) && (phrase == reason || reason[|phrase|] == NUL)
    ensures NulFree(reason) ==> phrase == reason
    ensures BlockWritable(hs) && PlainReason(reason) && |body| < SIZE_MODULUS ==>
      var r := ScanHead(ResponseText(status, reason, hs, body));
      r.Complete? && r.head.line == RequestLine("HTTP/1.1", word)
  {
    hide ScanAnyBase, Block, ScanHead, CrlfFree, NulFree, HeaderTexts, WithLength, BlockWritable;
    word, phrase := Signed(status), CStr(reason);
    SignedIsWord(status);
    SignedScans(status);
    CStrIs(reason);
    CStrKeeps(reason);
    var line := StatusLine(status, reason);
    assert line == "HTTP/1.1" + " " + word + " " + phrase;
    StatusCrlfFree(status, reason);
    var rest := Block(HeaderTexts(WithLength(hs, |body|))) + body;
    assert ResponseText(status, reason, hs, body) == line + CRLF + rest;
    FirstLine(line, rest);
    if BlockWritable(hs) && PlainReason(reason) && |body| < SIZE_MODULUS { ResponseScans(status, reason, hs, body); }
  }

  lemma WritableIsDistinct(hs: seq<Header>)
    requires BlockWritable(hs)
    ensures DistinctNames(hs)
  {
  }

  // A request that one way of reading loses

  const SHORT_REQUEST := "G / V1\r\n" + "Content-Length: 1\r\n\r\n" + "x"

  lemma ShortLines()
    ensures CrlfFree("G / V1") && RequestLineOf("G / V1") == Some(RequestLine("G", "/"))
    ensures HeaderText(Header(CONTENT_LENGTH, ["1"])) == "Content-Length: 1"
  {
    hide RequestLineOf;
    SpacedReads("G / V1", RequestLine("G", "/"), "", " ", " ", "V1");
    PlainName();
    CStrKeeps(CONTENT_LENGTH);
    CStrKeeps("1");
    assert CStrs(["1"]) == ["1"];
  }

  lemma ShortHeaders()
    ensures var hs := [Header(CONTENT_LENGTH, ["1"])]; BlockWritable(hs) && LengthOf(hs) == Present(1)
  {
    hide ScanSize;
    assert Decimal(1) == "1";
    PlainName();
    DecimalWritable(CONTENT_LENGTH, 1);
    ScanDecimal(1);
  }

  lemma ShortText()
    ensures "G / V1" + CRLF + ("Content-Length: 1" + CRLF + CRLF) + "x" == SHORT_REQUEST
  {
    assert "G / V1" + CRLF == "G / V1\r\n";
    assert "Content-Length: 1" + CRLF + CRLF == "Content-Length: 1\r\n\r\n";
  }

  lemma ShortMessage()
    ensures Message("G / V1", [Header(CONTENT_LENGTH, ["1"])], "x") == SHORT_REQUEST
  {
    hide HeaderText, HeaderTexts;
    ShortLines();
    ShortText();
    ShortBlock(HeaderTexts([Header(CONTENT_LENGTH, ["1"])]));
  }

  lemma ShortBlock(lines: seq<string>)
    requires |lines| == 1
    ensures Block(lines) == lines[0] + CRLF + CRLF
  {
    assert lines[1..] == [] && Block([]) == CRLF;
  }

  /** The same request is accepted in one read and rejected when its last byte comes in a second one. */
  lemma ShortRequestNeedsOneRead()
    ensures var t, n := SHORT_REQUEST, |SHORT_REQUEST| - 1;
      HttpReceive.Parse([Data(t)]).Accepted? && HttpReceive.Parse([Data(t)]).body == "x"
      && !HttpReceive.Parse([Data(t[..n]), Data(t[n..])]).Accepted?
  {
    hide RequestLineOf, ScanHead, HttpReceive.Parse, LengthOf, BlockWritable, Message, CrlfFree;
    var t, hs := SHORT_REQUEST, [Header(CONTENT_LENGTH, ["1"])];
    ShortLines();
    ShortHeaders();
    ShortMessage();
    BlockComesBack("G / V1", hs, "x");
    var h := Head(RequestLine("G", "/"), hs, Present(1), |t| - 3);
    assert [Data(t)][1..] == [] && Bytes([Data(t)]) == t + "" == t;
    assert Delivers([Data(t)], t) && Reached(0, [Data(t)], Goal(h)) == |t|;
    AcceptedExactly([Data(t)], t, h);
    assert t[h.BodyStart()..h.BodyStart() + 1] == "x";
    LastByteAlone(t);
  }
}
