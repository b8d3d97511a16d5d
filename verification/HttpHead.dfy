/**
 The head of a request as functions of the bytes: the lines before the body, each ended
 by CRLF, and what the scanner of http_request_parse makes of them.
 */
module HttpHead {
  import opened Basics
  import opened Strings
  import opened Numbers
  import opened Splitting
  import opened HttpHeaders

  const CRLF := "\r\n"
  const BLANKS := " \t"

  predicate CrlfAt(b: string, i: nat) {
    i + 1 < |b| && b[i] == '\r' && b[i + 1] == '\n'
  }

  /** Where the next CRLF starts, or the end of the text. */
  function NextCrlf(b: string, from: nat): (i: nat)
    requires from <= |b|
    ensures from <= i <= |b|
    ensures i < |b| ==> CrlfAt(b, i)
    ensures forall k :: from <= k < i ==> !CrlfAt(b, k)
    decreases |b| - from
  {
    if from == |b| || CrlfAt(b, from) then from else NextCrlf(b, from + 1)
  }

  lemma {:induction false} NextCrlfIs(b: string, from: nat, i: nat)
    requires from <= i <= |b| && (i < |b| ==> CrlfAt(b, i)) && forall k :: from <= k < i ==> !CrlfAt(b, k)
    ensures NextCrlf(b, from) == i
    decreases i - from
  {
    if from < i { NextCrlfIs(b, from + 1, i); }
  }

  // Lines

  predicate IsBlank(c: char) { c == ' ' }
  predicate NotBlank(c: char) { c != ' ' }

  datatype RequestLine = RequestLine(verb: string, uri: string)

  /** Three words parted by spaces; the third one needs a character or a space behind its first character. */
  function RequestLineOf(s: string): Option<RequestLine> {
    var ms := Find(s, 0, NotBlank);
    var me := Find(s, ms, IsBlank);
    var us := Find(s, me, NotBlank);
    var ue := Find(s, us, IsBlank);
    var ps := Find(s, ue, NotBlank);
    if ps + 1 < |s| then Some(RequestLine(s[ms..me], s[us..ue])) else None
  }

  /** The pieces from start on between delimiters; a delimiter that ends the text is part of the last piece. */
  function Pieces(s: string, start: nat, delim: string): seq<string>
    requires start <= |s| && 0 < |delim|
  {
    RangesAreAdjacent(s, start, delim, 0);
    Texts(s, Ranges(s, start, delim, 0))
  }

  lemma TextsCons(s: string, r: Range, rest: seq<Range>)
    requires r.start <= r.end <= |s| && forall q :: q in rest ==> q.start <= q.end <= |s|
    ensures Texts(s, [r] + rest) == [s[r.start..r.end]] + Texts(s, rest)
    ensures Texts(s, []) == []
  {
  }

  lemma PiecesStep(s: string, start: nat, delim: string)
    requires start <= |s| && 0 < |delim|
    ensures var m := NextMatch(s, delim, start);
      Pieces(s, start, delim) ==
        if m.Some? then [s[start..m.value]] + Pieces(s, m.value + |delim|, delim) else [s[start..]]
  {
    hide NextMatch, Texts, Adjacent;
    var m := NextMatch(s, delim, start);
    if m.Some? {
      PiecesInside(s, m.value + |delim|, delim);
      TextsCons(s, Range(start, m.value), Ranges(s, m.value + |delim|, delim, 0));
    } else {
      TextsCons(s, Range(start, |s|), []);
      assert [Range(start, |s|)] + [] == [Range(start, |s|)];
      assert s[start..|s|] == s[start..];
    }
  }

  lemma PiecesInside(s: string, start: nat, delim: string)
    requires start <= |s| && 0 < |delim|
    ensures forall q :: q in Ranges(s, start, delim, 0) ==> q.start <= q.end <= |s|
  {
    RangesAreAdjacent(s, start, delim, 0);
  }

  /** The name before the first colon, the comma-separated values after it; the colon must not end the line. */
  function HeaderOf(line: string): Option<Header> {
    match NextMatch(line, ":", 0)
    case None => None
    case Some(c) => Some(Header(line[..c], Pieces(TrimStart(line[c + 1..], BLANKS), 0, ",")))
  }

  datatype Length = Absent | Invalid | Present(size: nat)

  function LengthOf(h: seq<Header>): (l: Length)
    ensures l.Present? ==> l.size < SIZE_MODULUS
  {
    var i := IndexOf(h, "Content-Length");
    if i == |h| then Absent
    else if |h[i].values| != 1 then Invalid
    else match ScanSize(h[i].values[0]) case None => Invalid case Some(n) => Present(n)
  }

  /** A complete head; blank is where its empty line is. */
  datatype Head = Head(line: RequestLine, headers: seq<Header>, length: Length, blank: nat) {
    function BodyStart(): nat { blank + 2 }

    function BodySize(): nat { if length.Present? then length.size else 0 }
  }

  // Scanning

  /** The request line, once found, and the headers so far. */
  datatype Lines = Lines(line: Option<RequestLine>, headers: seq<Header>)

  const NOTHING := Lines(None, [])

  datatype Taken = Continue(lines: Lines) | Bad | End(line: RequestLine, length: Length)

  /** What one more line does: the first is the request line, an empty one ends the head, others are headers. */
  function TakeLine(lines: Lines, text: string): (r: Taken)
    ensures r.End? ==> text == "" && !r.length.Invalid?
  {
    if lines.line.None? then
      match RequestLineOf(text)
      case None => Bad
      case Some(l) => Continue(Lines(Some(l), lines.headers))
    else if text == "" then
      var length := LengthOf(lines.headers);
      if length.Invalid? then Bad else End(lines.line.value, length)
    else
      match HeaderOf(text)
      case None => Bad
      case Some(h) => Continue(Lines(lines.line, WithValues(lines.headers, h.name, h.values)))
  }

  datatype Scan = More(at: nat, lines: Lines) | Malformed(lines: Lines) | Complete(head: Head)

  /** Scans whole lines from position at on. */
  function ScanFrom(b: string, at: nat, lines: Lines): (r: Scan)
    requires at <= |b|
    ensures r.More? ==> at <= r.at <= |b|
    ensures r.Complete? ==> at <= r.head.blank && CrlfAt(b, r.head.blank) && !r.head.length.Invalid?
    decreases |b| - at
  {
    var i := NextCrlf(b, at);
    if i == |b| then More(at, lines)
    else
      match TakeLine(lines, b[at..i])
      case Bad => Malformed(lines)
      case End(line, length) => Complete(Head(line, lines.headers, length, i))
      case Continue(more) => ScanFrom(b, i + 2, more)
  }

  function ScanHead(b: string): Scan {
    ScanFrom(b, 0, NOTHING)
  }

  /** The request line and the headers that a scan has stored, also one that ended at a malformed line. */
  function KeptOf(r: Scan): Lines {
    match r
    case More(_, lines) => lines
    case Malformed(lines) => lines
    case Complete(h) => Lines(Some(h.line), h.headers)
  }

  lemma CrlfStays(b: string, c: string, from: nat)
    requires from <= |b| && NextCrlf(b, from) < |b|
    ensures NextCrlf(b + c, from) == NextCrlf(b, from)
  {
    var i := NextCrlf(b, from);
    assert forall k :: from <= k <= i ==> CrlfAt(b + c, k) == CrlfAt(b, k);
    NextCrlfIs(b + c, from, i);
  }

  /** More bytes do not change a finished scan, and an unfinished one resumes at its last line. */
  lemma {:induction false} ScanExtends(b: string, c: string, at: nat, lines: Lines)
    requires at <= |b|
    ensures var r := ScanFrom(b, at, lines);
      ScanFrom(b + c, at, lines) == if r.More? then ScanFrom(b + c, r.at, r.lines) else r
    decreases |b| - at
  {
    hide TakeLine, NextCrlf;
    var i := NextCrlf(b, at);
    if i < |b| {
      CrlfStays(b, c, at);
      assert (b + c)[at..i] == b[at..i];
      var t := TakeLine(lines, b[at..i]);
      if t.Continue? { ScanExtends(b, c, i + 2, t.lines); }
    }
  }
}
