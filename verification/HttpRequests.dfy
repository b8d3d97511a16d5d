/**
 The request object: http_request_parse with its nested loops over a growing buffer. The
 object may be used again; what earlier requests left in it does not show.
 */
module HttpRequests {
  import opened Basics
  import opened Strings
  import opened Numbers
  import opened Splitting
  import opened HttpHeaders
  import opened HttpGrammar
  import opened HttpHead
  import opened HttpReceive

  /** A connection, known by what its coming reads will give. */
  class Connection {
    var input: seq<Read>

    method Next() returns (r: Read)
      modifies this
      ensures r == if old(input) == [] then Data("") else old(input)[0]
      ensures input == if old(input) == [] then [] else old(input)[1..]
    {
      if input == [] {
        return Data("");
      }
      r := input[0];
      input := input[1..];
    }
  }

  /** The first character from position from on that satisfies p is at pos, or is not before j. */
  predicate Searching(s: string, from: nat, p: char -> bool, found: bool, pos: nat, j: nat)
    requires from <= j <= |s|
  {
    if found then pos == Find(s, from, p) < j else Find(s, from, p) >= j
  }

  /** One or two results: the piece before the first delimiter ends at end, and the rest starts at next. */
  predicate SplitAt(s: string, delim: string, start: nat, count: nat, end: nat, next: nat) {
    var m := NextMatch(s, delim, start);
    if m.Some? then count == 2 && end == m.value && next == m.value + |delim| else count == 1 && end == |s|
  }

  lemma TakePiece(text: string, start: nat, count: nat, end: nat, next: nat, done: seq<string>)
    returns (more: seq<string>)
    requires start <= |text| && SplitAt(text, ",", start, count, end, next)
    ensures start <= end <= |text| && more == done + [text[start..end]]
    ensures if count == 2
            then start < next <= |text| && done + Pieces(text, start, ",") == more + Pieces(text, next, ",")
            else done + Pieces(text, start, ",") == more
  {
    hide Pieces, NextMatch;
    more := done + [text[start..end]];
    PiecesStep(text, start, ",");
    if count == 2 {
      assert done + ([text[start..end]] + Pieces(text, next, ",")) == more + Pieces(text, next, ",");
    } else {
      assert text[start..end] == text[start..];
    }
  }

  /** Splits off the piece before the first delimiter. */
  method SplitInTwo(s: string, start: nat, delim: string, results: array<nat>) returns (count: nat)
    requires start <= |s| && 0 < |delim| && results.Length == 4
    modifies results
    ensures results[0] == start && SplitAt(s, delim, start, count, results[1], results[2])
  {
    ghost var was, r := results[..], Ranges(s, start, delim, 2);
    count := Split(s, start, delim, results, 2, 2);
    WrittenAt(was, r, count, 0);
    WrittenAt(was, r, count, 1);
    WrittenAt(was, r, count, 2);
    assert results[..][0] == results[0] && results[..][1] == results[1] && results[..][2] == results[2];
  }

  /** The header line and the store, in terms of the cut at the first colon. */
  lemma CutMeans(line: string, h: seq<Header>)
    ensures var c := NextMatch(line, ":", 0);
      if c.Some? then
        HeaderOf(line).Some? &&
        WithValues(h, HeaderOf(line).value.name, HeaderOf(line).value.values) ==
        Extended(WithName(h, line[..c.value]), IndexOf(h, line[..c.value]),
                 Pieces(TrimStart(line[c.value + 1..], BLANKS), 0, ","))
      else HeaderOf(line).None?
  {
    hide WithName, Extended, IndexOf, TrimStart, Pieces, NextMatch;
  }

  ghost predicate NoCrlf(b: string, from: nat, to: nat) {
    forall k :: from <= k < to ==> !CrlfAt(b, k)
  }

  lemma LineTaken(b: string, at: nat, i: nat, lines: Lines)
    requires at <= i && CrlfAt(b, i) && NoCrlf(b, at, i)
    ensures ScanFrom(b, at, lines) ==
      match TakeLine(lines, b[at..i])
      case Bad => Malformed(lines)
      case End(line, length) => Complete(Head(line, lines.headers, length, i))
      case Continue(more) => ScanFrom(b, i + 2, more)
  {
    hide TakeLine;
    NextCrlfIs(b, at, i);
  }

  lemma NothingTaken(b: string, at: nat, i: nat, lines: Lines)
    requires at <= i <= |b| <= i + 1 && NoCrlf(b, at, i)
    ensures ScanFrom(b, at, lines) == More(at, lines)
  {
    hide TakeLine;
    NextCrlfIs(b, at, |b|);
  }

  lemma NothingScanned()
    ensures ScanHead("") == More(0, NOTHING) && Limit("") == MAX_HEAD
  {
  }

  lemma LimitIs(b: string)
    ensures ScanHead(b).More? ==> Limit(b) == MAX_HEAD
    ensures ScanHead(b).Complete? ==> var h := ScanHead(b).head;
      h.BodyStart() <= |b| && Limit(b) == if h.length.Present? then (h.blank + h.length.size) % SIZE_MODULUS else |b|
  {
  }

  /** The locals of the parser, apart from the reading position. */
  datatype Marks = Marks(at: nat, lineFound: bool, length: Option<Length>, blank: nat, maxReadLength: nat)

  lemma ReceivedStep(b: string, input: seq<Read>)
    ensures Received(b, input) ==
      if ScanHead(b).Malformed? then Broken(b)
      else if |b| >= Limit(b) || input == [] || input[0] == Data("") then Stopped(b)
      else if input[0].Failure? then Broken(b)
      else Received(b + input[0].bytes, input[1..])
  {
    hide ScanHead, Limit;
  }

  lemma Resume(b: string, c: string)
    ensures ScanHead(b).More? ==> ScanHead(b + c) == ScanFrom(b + c, ScanHead(b).at, ScanHead(b).lines)
    ensures ScanHead(b).Complete? ==> ScanHead(b + c) == ScanHead(b)
  {
    hide ScanFrom;
    ScanExtends(b, c, 0, NOTHING);
  }

  lemma StoreIsMultimap(b: string)
    ensures DistinctNames(KeptOf(ScanHead(b)).headers)
    ensures ScanHead(b).Complete? ==>
      exists first, lines ::
        && Denote(first, lines, ScanHead(b).head) && first + CRLF + Block(lines) <= b
        && Collected(KeptOf(ScanHead(b)).headers, lines)
  {
    hide ScanFrom, Collected, Denote, Block;
    EmptyStore();
    ScanKeepsDistinct(b, 0, NOTHING);
    if ScanHead(b).Complete? { HeadIsMultimap(b); }
  }

  class HttpRequest {
    var readBuf: string
    var verb: string
    var uri: string
    var body: string
    const scratch: Str
    const headers: HttpHeaders

    constructor ()
      ensures headers.Valid() && fresh(headers) && fresh(scratch) && headers.slots == []
    {
      readBuf, verb, uri, body := "", "", "", "";
      scratch := new Str("");
      headers := new HttpHeaders();
    }

    method ParseRequestLine(line: string) returns (ok: bool)
      modifies this`verb, this`uri
      ensures ok <==> RequestLineOf(line).Some?
      ensures ok ==> RequestLine(verb, uri) == RequestLineOf(line).value
      ensures !ok ==> verb == old(verb) && uri == old(uri)
    {
      hide Find;
      var foundVerb, foundVerbEnd, foundUri, foundUriEnd := false, false, false, false;
      var foundVersion, foundVersionEnd := false, false;
      var verbStart, verbEnd, uriStart, uriEnd, versionStart := 0, 0, 0, 0, 0;
      var j := 0;
      while j < |line|
        invariant j <= |line| && !foundVersionEnd
        invariant (foundVersion ==> foundUriEnd) && (foundUriEnd ==> foundUri)
        invariant (foundUri ==> foundVerbEnd) && (foundVerbEnd ==> foundVerb)
        invariant Searching(line, 0, NotBlank, foundVerb, verbStart, j)
        invariant foundVerb ==> Searching(line, verbStart, IsBlank, foundVerbEnd, verbEnd, j)
        invariant foundVerbEnd ==> Searching(line, verbEnd, NotBlank, foundUri, uriStart, j)
        invariant foundUri ==> Searching(line, uriStart, IsBlank, foundUriEnd, uriEnd, j)
        invariant foundUriEnd ==> Searching(line, uriEnd, NotBlank, foundVersion, versionStart, j)
        invariant foundVersion ==> j == versionStart + 1 || j < |line|
      {
        var isSpace := line[j] == ' ';
        if !foundVerb {
          if !isSpace {
            foundVerb, verbStart := true, j;
          }
        } else if !foundVerbEnd {
          if isSpace {
            foundVerbEnd, verbEnd := true, j;
          }
        } else if !foundUri {
          if !isSpace {
            foundUri, uriStart := true, j;
          }
        } else if !foundUriEnd {
          if isSpace {
            foundUriEnd, uriEnd := true, j;
          }
        } else if !foundVersion {
          if !isSpace {
            foundVersion, versionStart := true, j;
          }
        } else if isSpace || j == |line| - 1 {
          foundVersionEnd := true;
          break;
        }
        j := j + 1;
      }
      ok := foundVersionEnd;
      if ok {
        verb, uri := line[verbStart..verbEnd], line[uriStart..uriEnd];
      }
    }

    /** Cuts a header line at its first colon: the name, and in scratch the text of the values. */
    method CutHeaderLine(line: string, results: array<nat>) returns (name: Option<string>)
      requires results.Length == 4
      modifies scratch, results
      ensures var c := NextMatch(line, ":", 0);
        if c.Some? then name == Some(line[..c.value]) && scratch.text == TrimStart(line[c.value + 1..], BLANKS)
        else name == None
    {
      hide TrimStart, NextMatch;
      scratch.text := line;
      var count := SplitInTwo(scratch.text, 0, ":", results);
      if count != 2 {
        return None;
      }
      name := Some(scratch.text[results[0]..results[1]]);
      scratch.SetSubstr(scratch, results[2], |scratch.text|);
      assert scratch.text == line[results[2]..];
      scratch.TrimStartAnyOf(scratch, BLANKS);
    }

    method ParseHeaderLine(line: string) returns (ok: bool)
      requires headers.Valid()
      modifies scratch, headers, headers.slots
      ensures headers.Valid()
      ensures forall k :: 0 <= k < |headers.slots| ==> headers.slots[k] in old(headers.slots) || fresh(headers.slots[k])
      ensures ok <==> HeaderOf(line).Some?
      ensures !ok ==> headers.Live() == old(headers.Live())
      ensures ok ==>
        var h := HeaderOf(line).value; headers.Live() == WithValues(old(headers.Live()), h.name, h.values)
    {
      hide *;
      var results := new nat[4];
      var name := CutHeaderLine(line, results);
      CutMeans(line, old(headers.Live()));
      if name.None? {
        return false;
      }
      var header := headers.GetByName(name.value, true);
      AppendPieces(header, IndexOf(old(headers.Live()), name.value), results);
      return true;
    }

    /** The value loop: every piece of the scratch text becomes a value of the header. */
    method AppendPieces(header: HttpHeader, ghost i: nat, results: array<nat>)
      requires headers.Valid() && i < headers.length && headers.slots[i] == header && results.Length == 4
      modifies results, headers.slots
      ensures headers.Valid() && headers.slots == old(headers.slots)
      ensures headers.Live() == Extended(old(headers.Live()), i, Pieces(scratch.text, 0, ","))
    {
      hide *;
      ghost var was, done, text := headers.Live(), [], scratch.text;
      var count := SplitInTwo(scratch.text, 0, ",", results);
      ExtendedTwice(was, i, [], []);
      while true
        invariant headers.Valid() && headers.slots == old(headers.slots) && i < headers.length && scratch.text == text
        invariant headers.Live() == Extended(was, i, done)
        invariant results[0] <= |text| && Pieces(text, 0, ",") == done + Pieces(text, results[0], ",")
        invariant SplitAt(text, ",", results[0], count, results[1], results[2])
        decreases |text| - results[0]
      {
        ghost var all := TakePiece(text, results[0], count, results[1], results[2], done);
        ExtendedTwice(was, i, done, [text[results[0]..results[1]]]);
        headers.Append(header, i, scratch.text[results[0]..results[1]]);
        done := all;
        if count != 2 {
          break;
        }
        count := SplitInTwo(scratch.text, results[2], ",", results);
      }
    }

    /** The Content-Length at the end of the head. */
    method FindLength() returns (length: Length)
      requires headers.Valid()
      modifies headers, headers.slots
      ensures headers.Valid() && headers.slots == old(headers.slots) && headers.Live() == old(headers.Live())
      ensures length == LengthOf(headers.Live())
    {
      hide IndexOf, ScanSize;
      var header := headers.GetByName("Content-Length", false);
      if header == null {
        return Absent;
      }
      if header.length != 1 {
        return Invalid;
      }
      var value := header.GetValue(0);
      match ScanSize(value.value)
      case Some(n) => return Present(n);
      case None => return Invalid;
    }

    /** What has been stored of the head. */
    ghost function Stored(lineFound: bool): Lines
      requires headers.Valid()
      reads this, headers, headers.slots
    {
      Lines(if lineFound then Some(RequestLine(verb, uri)) else None, headers.Live())
    }

    /** Handles one line of the head. */
    method ParseLine(line: string, lineFound: bool) returns (ok: bool, length: Option<Length>)
      requires headers.Valid()
      modifies this`verb, this`uri, scratch, headers, headers.slots
      ensures headers.Valid()
      ensures forall k :: 0 <= k < |headers.slots| ==> headers.slots[k] in old(headers.slots) || fresh(headers.slots[k])
      ensures var t := TakeLine(old(Stored(lineFound)), line);
        if !ok then t.Bad? && Stored(lineFound) == old(Stored(lineFound))
        else if length.None? then t == Continue(Stored(true))
        else t == End(RequestLine(verb, uri), length.value) && Stored(lineFound) == old(Stored(lineFound)) && lineFound
      ensures !ok && !lineFound ==> verb == old(verb) && uri == old(uri)
    {
      hide RequestLineOf, HeaderOf, LengthOf, WithValues;
      length := None;
      if !lineFound {
        ok := ParseRequestLine(line);
      } else if |line| == 0 {
        var l := FindLength();
        ok, length := l != Invalid, Some(l);
      } else {
        ok := ParseHeaderLine(line);
      }
    }

    /** The loop over the bytes of the buffer that belong to no finished line yet. */
    method ScanBuffer(start: nat, wasFound: bool)
      returns (ok: bool, at: nat, lineFound: bool, length: Option<Length>, blank: nat)
      requires headers.Valid() && start <= |readBuf| && (wasFound || (start == 0 && verb == uri == ""))
      modifies this`verb, this`uri, scratch, headers, headers.slots
      ensures headers.Valid()
      ensures forall k :: 0 <= k < |headers.slots| ==> headers.slots[k] in old(headers.slots) || fresh(headers.slots[k])
      ensures var r := ScanFrom(readBuf, start, old(Stored(wasFound)));
        if !ok then r == Malformed(Stored(lineFound))
        else if length.None? then r == More(at, Stored(lineFound))
        else r == Complete(Head(RequestLine(verb, uri), headers.Live(), length.value, blank))
      ensures at <= |readBuf| && (lineFound || (at == 0 && verb == uri == "" && (ok ==> length.None?)))
    {
      hide ScanFrom, NextCrlf, TakeLine;
      at, lineFound, length, blank := start, wasFound, None, 0;
      var i := start;
      while i + 1 < |readBuf|
        invariant headers.Valid()
        invariant forall k :: 0 <= k < |headers.slots| ==>
          headers.slots[k] in old(headers.slots) || fresh(headers.slots[k])
        invariant at <= i <= |readBuf| && (lineFound || (at == 0 && verb == uri == "")) && length.None?
        invariant NoCrlf(readBuf, at, i)
        invariant ScanFrom(readBuf, start, old(Stored(wasFound))) == ScanFrom(readBuf, at, Stored(lineFound))
      {
        if readBuf[i] == '\r' && readBuf[i + 1] == '\n' {
          LineTaken(readBuf, at, i, Stored(lineFound));
          ok, length := ParseLine(readBuf[at..i], lineFound);
          if !ok {
            return;
          }
          if length.Some? {
            blank := i;
            return;
          }
          lineFound := true;
          at := i + 2;
          i := i + 1;
        }
        i := i + 1;
      }
      NothingTaken(readBuf, at, i, Stored(lineFound));
      ok := true;
    }

    /** What the locals of the parser say of the buffer. */
    ghost predicate Scanned(m: Marks)
      requires headers.Valid()
      reads this, headers, headers.slots
    {
      && m.at <= |readBuf| && (m.lineFound || (m.at == 0 && verb == uri == "" && m.length.None?))
      && m.maxReadLength == Limit(readBuf)
      && ScanHead(readBuf) ==
           if m.length.None? then More(m.at, Stored(m.lineFound))
           else Complete(Head(RequestLine(verb, uri), headers.Live(), m.length.value, m.blank))
    }

    /** The object holds what the scan of the buffer stores, and nothing of earlier uses. */
    ghost predicate Keeps()
      requires headers.Valid()
      reads this, headers, headers.slots
    {
      var kept := KeptOf(ScanHead(readBuf));
      && headers.Live() == kept.headers
      && RequestLine(verb, uri) == if kept.line.Some? then kept.line.value else RequestLine("", "")
    }

    /** Takes in the bytes of one read. */
    method TakeRead(bytes: string, was: Marks) returns (ok: bool, m: Marks)
      requires headers.Valid() && Scanned(was) && |readBuf| < was.maxReadLength
      modifies this`readBuf, this`verb, this`uri, scratch, headers, headers.slots
      ensures headers.Valid()
      ensures forall k :: 0 <= k < |headers.slots| ==> headers.slots[k] in old(headers.slots) || fresh(headers.slots[k])
      ensures readBuf == old(readBuf) + bytes
      ensures Keeps() && if ok then Scanned(m) else ScanHead(readBuf).Malformed?
    {
      hide ScanHead, ScanFrom, Limit, LengthOf;
      m := was;
      Resume(readBuf, bytes);
      LimitIs(readBuf);
      readBuf := readBuf + bytes;
      LimitIs(readBuf);
      if m.length.None? {
        var at, lineFound, length, blank;
        ok, at, lineFound, length, blank := ScanBuffer(m.at, m.lineFound);
        if !ok {
          return false, m;
        }
        m := Marks(at, lineFound, length, blank, m.maxReadLength);
        if length.Some? {
          m := m.(maxReadLength :=
            if length.value.Present? then (blank + length.value.size) % SIZE_MODULUS else |readBuf|);
        }
      }
      ok := true;
    }

    /** The read loop. */
    method Receive(conn: Connection) returns (ok: bool, m: Marks)
      requires headers.Valid()
      modifies this`readBuf, this`verb, this`uri, scratch, headers, headers.slots, conn
      ensures headers.Valid()
      ensures forall k :: 0 <= k < |headers.slots| ==> headers.slots[k] in old(headers.slots) || fresh(headers.slots[k])
      ensures Received("", old(conn.input)) == if ok then Stopped(readBuf) else Broken(readBuf)
      ensures Keeps() && (ok ==> Scanned(m))
    {
      hide ScanHead, Received, Limit;
      readBuf, verb, uri := "", "", "";
      headers.Clear();
      m := Marks(0, false, None, 0, MAX_HEAD);
      NothingScanned();
      ReceivedStep(readBuf, conn.input);
      while |readBuf| < m.maxReadLength
        invariant headers.Valid()
        invariant forall k :: 0 <= k < |headers.slots| ==>
          headers.slots[k] in old(headers.slots) || fresh(headers.slots[k])
        invariant Received("", old(conn.input)) == Received(readBuf, conn.input)
        invariant Scanned(m)
        decreases |conn.input|
      {
        ReceivedStep(readBuf, conn.input);
        var r := conn.Next();
        if r.Failure? {
          return false, m;
        }
        if |r.bytes| == 0 {
          return true, m;
        }
        ok, m := TakeRead(r.bytes, m);
        ReceivedStep(readBuf, conn.input);
        if !ok {
          return false, m;
        }
      }
      ReceivedStep(readBuf, conn.input);
      return true, m;
    }

    method Parse(conn: Connection) returns (code: int)
      requires headers.Valid()
      modifies this, scratch, headers, headers.slots, conn
      ensures headers.Valid()
      ensures forall k :: 0 <= k < |headers.slots| ==> headers.slots[k] in old(headers.slots) || fresh(headers.slots[k])
      ensures code == if HttpReceive.Parse(old(conn.input)).Accepted? then 0 else 1
      ensures readBuf == Received("", old(conn.input)).buffer && Keeps() && DistinctNames(headers.Live())
      ensures ScanHead(readBuf).Complete? ==>
        exists first, lines ::
          && Denote(first, lines, ScanHead(readBuf).head) && first + CRLF + Block(lines) <= readBuf
          && Collected(headers.Live(), lines)
      ensures body ==
        if Received("", old(conn.input)).Stopped? && ScanHead(readBuf).Complete?
        then readBuf[ScanHead(readBuf).head.BodyStart()..] else ""
    {
      hide ScanHead, Received, Limit, Collected, Denote, Block, DistinctNames;
      body := "";
      var ok, m := Receive(conn);
      StoreIsMultimap(readBuf);
      if !ok || m.length.None? {
        return 1;
      }
      LimitIs(readBuf);
      body := readBuf[m.blank + 2..];
      var expected := if m.length.value.Present? then m.length.value.size else 0;
      return if |body| == expected then 0 else 1;
    }
  }
}
