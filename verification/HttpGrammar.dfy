/**
 The grammar the scanner recognises: a request line, header lines and an empty line, each
 ended by CRLF and free of it inside. A scan completes exactly on such texts.
 */
module HttpGrammar {
  import opened Basics
  import opened Numbers
  import opened Strings
  import opened HttpHeaders
  import opened HttpHead

  ghost predicate CrlfFree(s: string) {
    forall i :: 0 <= i < |s| ==> !CrlfAt(s, i)
  }

  ghost predicate HeaderLines(lines: seq<string>) {
    forall k :: 0 <= k < |lines| ==> lines[k] != "" && CrlfFree(lines[k])
  }

  /** Header lines and the empty line behind them. */
  function Block(lines: seq<string>): string {
    if lines == [] then CRLF else lines[0] + CRLF + Block(lines[1..])
  }

  /** The headers that lines add to those already there. */
  function HeadersOf(headers: seq<Header>, lines: seq<string>): Option<seq<Header>>
    decreases |lines|
  {
    if lines == [] then Some(headers)
    else
      match HeaderOf(lines[0])
      case None => None
      case Some(h) => HeadersOf(WithValues(headers, h.name, h.values), lines[1..])
  }

  /** The headers that are stored before the first line that is none. */
  function HeadersBefore(headers: seq<Header>, lines: seq<string>): seq<Header>
    decreases |lines|
  {
    if lines == [] || HeaderOf(lines[0]).None? then headers
    else var h := HeaderOf(lines[0]).value; HeadersBefore(WithValues(headers, h.name, h.values), lines[1..])
  }

  /** What a request line and header lines mean. */
  function Meaning(first: RequestLine, headers: seq<Header>, lines: seq<string>, blank: nat): Scan {
    match HeadersOf(headers, lines)
    case None => Malformed(Lines(Some(first), HeadersBefore(headers, lines)))
    case Some(h) =>
      if LengthOf(h).Invalid? then Malformed(Lines(Some(first), h)) else Complete(Head(first, h, LengthOf(h), blank))
  }

  lemma LineEnds(b: string, at: nat, line: string, rest: string)
    requires at <= |b| && b[at..] == line + CRLF + rest && CrlfFree(line)
    ensures NextCrlf(b, at) == at + |line| && b[at..at + |line|] == line && b[at + |line| + 2..] == rest
  {
    var i := at + |line|;
    assert forall k {:trigger b[k]} :: at <= k < |b| ==> b[k] == (line + CRLF + rest)[k - at];
    forall k | at <= k < i
      ensures !CrlfAt(b, k)
    {
      assert !CrlfAt(line, k - at);
    }
    NextCrlfIs(b, at, i);
  }

  lemma LineScans(b: string, at: nat, lines: Lines, line: string, rest: string)
    requires at <= |b| && b[at..] == line + CRLF + rest && CrlfFree(line)
    ensures at + |line| + 2 <= |b| && b[at + |line| + 2..] == rest
    ensures ScanFrom(b, at, lines) ==
      match TakeLine(lines, line)
      case Bad => Malformed(lines)
      case End(l, length) => Complete(Head(l, lines.headers, length, at + |line|))
      case Continue(more) => ScanFrom(b, at + |line| + 2, more)
  {
    hide TakeLine, CrlfFree;
    LineEnds(b, at, line, rest);
  }

  lemma {:induction false} BlockScans(b: string, at: nat, first: RequestLine, headers: seq<Header>,
                                      lines: seq<string>, rest: string)
    requires at <= |b| && b[at..] == Block(lines) + rest && HeaderLines(lines)
    ensures ScanFrom(b, at, Lines(Some(first), headers)) == Meaning(first, headers, lines, at + |Block(lines)| - 2)
    decreases |lines|
  {
    hide HeaderOf, LengthOf, ScanFrom, WithValues, IndexOf, WithName, NextCrlf;
    if lines == [] {
      LineScans(b, at, Lines(Some(first), headers), "", rest);
    } else {
      var line, more := lines[0], Block(lines[1..]) + rest;
      assert b[at..] == line + CRLF + more;
      LineScans(b, at, Lines(Some(first), headers), line, more);
      var h := HeaderOf(line);
      if h.Some? {
        BlockScans(b, at + |line| + 2, first, WithValues(headers, h.value.name, h.value.values), lines[1..], rest);
      }
    }
  }

  /** Every text of the grammar scans to what its lines mean. */
  lemma GrammarScans(first: string, lines: seq<string>, rest: string)
    requires CrlfFree(first) && HeaderLines(lines)
    ensures ScanHead(first + CRLF + Block(lines) + rest) ==
      match RequestLineOf(first)
      case None => Malformed(NOTHING)
      case Some(l) => Meaning(l, [], lines, |first| + |Block(lines)|)
  {
    hide RequestLineOf, Meaning, ScanFrom;
    var b := first + CRLF + Block(lines) + rest;
    assert b[0..] == first + CRLF + (Block(lines) + rest);
    LineScans(b, 0, NOTHING, first, Block(lines) + rest);
    var l := RequestLineOf(first);
    if l.Some? { BlockScans(b, |first| + 2, l.value, [], lines, rest); }
  }

  // And nothing else completes

  lemma LineCuts(b: string, at: nat)
    requires at <= |b| && NextCrlf(b, at) < |b|
    ensures var i := NextCrlf(b, at); CrlfFree(b[at..i]) && b[at..] == b[at..i] + CRLF + b[i + 2..]
  {
    var i := NextCrlf(b, at);
    var line := b[at..i];
    forall k | 0 <= k < |line|
      ensures !CrlfAt(line, k)
    {
      assert !CrlfAt(b, at + k);
    }
  }

  /** The lines from position at up to the empty one. */
  function LinesFrom(b: string, at: nat): seq<string>
    requires at <= |b|
    decreases |b| - at
  {
    var i := NextCrlf(b, at);
    if i == |b| || i == at then [] else [b[at..i]] + LinesFrom(b, i + 2)
  }

  lemma CompleteStep(b: string, at: nat, first: RequestLine, headers: seq<Header>) returns (more: seq<Header>)
    requires at <= |b| && ScanFrom(b, at, Lines(Some(first), headers)).Complete?
    ensures var i, r := NextCrlf(b, at), ScanFrom(b, at, Lines(Some(first), headers));
      i < |b| && if i == at then r.head.BodyStart() == at + 2 else r == ScanFrom(b, i + 2, Lines(Some(first), more))
  {
    hide HeaderOf, LengthOf, NextCrlf;
    var t := TakeLine(Lines(Some(first), headers), b[at..NextCrlf(b, at)]);
    more := if t.Continue? then t.lines.headers else [];
  }

  lemma BlockCons(line: string, lines: seq<string>, rest: string)
    requires line != "" && CrlfFree(line) && HeaderLines(lines)
    ensures HeaderLines([line] + lines) && Block([line] + lines) + rest == line + CRLF + (Block(lines) + rest)
  {
    hide CrlfFree;
    var all := [line] + lines;
    assert all[0] == line && all[1..] == lines;
    assert forall k :: 0 < k < |all| ==> all[k] == lines[k - 1];
    assert Block(all) + rest == line + CRLF + Block(lines) + rest;
  }

  lemma {:induction false} CompleteBlock(b: string, at: nat, first: RequestLine, headers: seq<Header>)
    requires at <= |b| && ScanFrom(b, at, Lines(Some(first), headers)).Complete?
    ensures var lines := LinesFrom(b, at);
      HeaderLines(lines) && b[at..] == Block(lines) + b[ScanFrom(b, at, Lines(Some(first), headers)).head.BodyStart()..]
    decreases |b| - at
  {
    hide NextCrlf, CrlfFree, ScanFrom, HeaderLines, Block;
    var i := NextCrlf(b, at);
    var more := CompleteStep(b, at, first, headers);
    LineCuts(b, at);
    if i == at {
      EmptyBlock(b[i + 2..]);
    } else {
      CompleteBlock(b, i + 2, first, more);
      BlockCons(b[at..i], LinesFrom(b, i + 2), b[ScanFrom(b, at, Lines(Some(first), headers)).head.BodyStart()..]);
    }
  }

  lemma EmptyBlock(rest: string)
    ensures HeaderLines([]) && "" + CRLF + rest == Block([]) + rest
  {
  }

  /** The head that the lines of a text denote. */
  ghost predicate Denote(first: string, lines: seq<string>, h: Head) {
    && CrlfFree(first) && HeaderLines(lines)
    && RequestLineOf(first) == Some(h.line)
    && HeadersOf([], lines) == Some(h.headers)
    && h.length == LengthOf(h.headers) && !h.length.Invalid?
    && h.blank == |first| + |Block(lines)|
  }

  lemma MeaningDenotes(first: string, lines: seq<string>, rest: string)
    requires CrlfFree(first) && HeaderLines(lines) && ScanHead(first + CRLF + Block(lines) + rest).Complete?
    ensures Denote(first, lines, ScanHead(first + CRLF + Block(lines) + rest).head)
  {
    hide ScanHead, RequestLineOf, HeadersOf, Block, LengthOf, CrlfFree;
    GrammarScans(first, lines, rest);
  }

  lemma CompleteIsGrammar(b: string) returns (first: string, lines: seq<string>)
    requires ScanHead(b).Complete?
    ensures CrlfFree(first) && HeaderLines(lines) && ScanHead(b).head.BodyStart() <= |b|
    ensures b == first + CRLF + Block(lines) + b[ScanHead(b).head.BodyStart()..]
  {
    hide RequestLineOf, LengthOf, NextCrlf, CrlfFree;
    var i := NextCrlf(b, 0);
    first, lines := b[0..i], LinesFrom(b, i + 2);
    LineCuts(b, 0);
    CompleteBlock(b, i + 2, RequestLineOf(b[0..i]).value, []);
  }

  /** A scan completes with a head exactly on the texts of the grammar that denote it. */
  lemma CompletesExactlyOnHeads(b: string, h: Head)
    ensures ScanHead(b) == Complete(h) <==>
      exists first, lines :: Denote(first, lines, h) && first + CRLF + Block(lines) <= b
  {
    hide ScanHead, RequestLineOf, HeadersOf, Block, LengthOf, CrlfFree, HeaderLines;
    if ScanHead(b) == Complete(h) {
      var first, lines := CompleteIsGrammar(b);
      MeaningDenotes(first, lines, b[h.BodyStart()..]);
    }
    forall first, lines | Denote(first, lines, h) && first + CRLF + Block(lines) <= b
      ensures ScanHead(b) == Complete(h)
    {
      var rest := b[|first + CRLF + Block(lines)|..];
      assert b == first + CRLF + Block(lines) + rest;
      GrammarScans(first, lines, rest);
    }
  }

  // The headers of a head as a multimap

  /** The values of all header lines with a name, up to case, in the order of the lines. */
  function ValuesIn(lines: seq<string>, name: string): seq<string>
    decreases |lines|
  {
    if lines == [] then []
    else
      var rest := ValuesIn(lines[1..], name);
      var h := HeaderOf(lines[0]);
      if h.Some? && SameName(h.value.name, name) then h.value.values + rest else rest
  }

  function AddName(names: seq<string>, name: string): seq<string> {
    if exists k :: 0 <= k < |names| && SameName(names[k], name) then names else names + [name]
  }

  /** Names as each is first spelled, in the order of the lines, behind those already there. */
  function NamesAfter(names: seq<string>, lines: seq<string>): seq<string>
    decreases |lines|
  {
    if lines == [] then names
    else
      var h := HeaderOf(lines[0]);
      NamesAfter(if h.None? then names else AddName(names, h.value.name), lines[1..])
  }

  function NamesOf(h: seq<Header>): (r: seq<string>)
    ensures |r| == |h| && forall k :: 0 <= k < |h| ==> r[k] == h[k].name
  {
    seq(|h|, k requires 0 <= k < |h| => h[k].name)
  }

  /** The headers hold, under names distinct up to case in their order of arrival, the values of all lines in theirs. */
  ghost predicate Collected(h: seq<Header>, lines: seq<string>) {
    DistinctNames(h) && NamesOf(h) == NamesAfter([], lines) && forall name :: ValuesOf(h, name) == ValuesIn(lines, name)
  }

  lemma NamesAfterOne(h: seq<Header>, name: string, values: seq<string>)
    requires DistinctNames(h)
    ensures NamesOf(WithValues(h, name, values)) == AddName(NamesOf(h), name)
  {
    hide ToLower;
    AddingKeepsNames(h, name, values);
    var r := WithValues(h, name, values);
    if IndexOf(h, name) < |h| {
      assert SameName(NamesOf(h)[IndexOf(h, name)], name);
    }
  }

  /** Any run of header lines adds to the store as to a multimap. */
  lemma {:induction false} AddingLines(h: seq<Header>, lines: seq<string>, name: string)
    requires DistinctNames(h) && HeadersOf(h, lines).Some?
    ensures var r := HeadersOf(h, lines).value;
      && DistinctNames(r)
      && ValuesOf(r, name) == ValuesOf(h, name) + ValuesIn(lines, name)
      && NamesOf(r) == NamesAfter(NamesOf(h), lines)
    decreases |lines|
  {
    hide HeaderOf, WithValues, DistinctNames, ValuesOf, SameName, NamesOf, AddName, IndexOf, WithName;
    if lines != [] {
      var x := HeaderOf(lines[0]).value;
      var g := WithValues(h, x.name, x.values);
      AddingValues(h, x.name, x.values, name);
      NamesAfterOne(h, x.name, x.values);
      AddingLines(g, lines[1..], name);
      var rest := ValuesIn(lines[1..], name);
      assert ValuesOf(h, name) + x.values + rest == ValuesOf(h, name) + (x.values + rest);
      assert ValuesOf(h, name) + [] + rest == ValuesOf(h, name) + rest;
    }
  }

  /** The headers of a complete head are the multimap of its lines. */
  lemma HeadIsMultimap(b: string)
    requires ScanHead(b).Complete?
    ensures var h := ScanHead(b).head;
      exists first, lines ::
        Denote(first, lines, h) && first + CRLF + Block(lines) <= b && Collected(h.headers, lines)
  {
    hide ScanHead, Block, CrlfFree, HeaderLines, ValuesOf, ValuesIn, NamesAfter, NamesOf, DistinctNames, HeadersOf;
    var h := ScanHead(b).head;
    var first, lines := CompleteIsGrammar(b);
    MeaningDenotes(first, lines, b[h.BodyStart()..]);
    EmptyStore();
    forall name
      ensures DistinctNames(h.headers) && ValuesOf(h.headers, name) == ValuesIn(lines, name)
      ensures NamesOf(h.headers) == NamesAfter([], lines)
    {
      AddingLines([], lines, name);
      EmptyStoreValues(name);
    }
    assert DistinctNames(h.headers) && NamesOf(h.headers) == NamesAfter([], lines) by { AddingLines([], lines, ""); }
  }

  lemma EmptyStore()
    ensures DistinctNames([]) && NamesOf([]) == []
  {
  }

  lemma EmptyStoreValues(name: string)
    ensures ValuesOf([], name) == []
  {
  }

  lemma LineKeepsDistinct(lines: Lines, text: string)
    requires DistinctNames(lines.headers)
    ensures var t := TakeLine(lines, text); t.Continue? ==> DistinctNames(t.lines.headers)
  {
    hide HeaderOf, RequestLineOf, LengthOf, DistinctNames;
    var h := HeaderOf(text);
    if h.Some? { AddingKeepsNames(lines.headers, h.value.name, h.value.values); }
  }

  /** However far a scan comes, the names it has stored are distinct up to case. */
  lemma {:induction false} ScanKeepsDistinct(b: string, at: nat, lines: Lines)
    requires at <= |b| && DistinctNames(lines.headers)
    ensures DistinctNames(KeptOf(ScanFrom(b, at, lines)).headers)
    decreases |b| - at
  {
    hide TakeLine, NextCrlf, DistinctNames;
    var i := NextCrlf(b, at);
    if i < |b| {
      LineKeepsDistinct(lines, b[at..i]);
      var t := TakeLine(lines, b[at..i]);
      if t.Continue? { ScanKeepsDistinct(b, i + 2, t.lines); }
    }
  }

  // The size of the body, by the header lines

  /** The lines give no Content-Length and the size is 0, or one value in all, which reads as the size. */
  predicate TellSize(lines: seq<string>, size: nat) {
    var values := ValuesIn(lines, "Content-Length");
    (values == [] && size == 0) || (|values| == 1 && ScanSize(values[0]) == Some(size))
  }

  ghost predicate AllHaveValues(h: seq<Header>) {
    forall k :: 0 <= k < |h| ==> h[k].values != []
  }

  lemma LineHasValues(line: string)
    ensures HeaderOf(line).Some? ==> HeaderOf(line).value.values != []
  {
  }

  lemma {:induction false} LinesHaveValues(h: seq<Header>, lines: seq<string>)
    requires AllHaveValues(h) && HeadersOf(h, lines).Some?
    ensures AllHaveValues(HeadersOf(h, lines).value)
    decreases |lines|
  {
    hide HeaderOf, IndexOf;
    if lines != [] {
      LineHasValues(lines[0]);
      var x := HeaderOf(lines[0]).value;
      LinesHaveValues(WithValues(h, x.name, x.values), lines[1..]);
    }
  }

  /** A store in which every header has values tells the size just as its lines do. */
  lemma LengthTold(h: seq<Header>, lines: seq<string>)
    requires AllHaveValues(h) && ValuesOf(h, "Content-Length") == ValuesIn(lines, "Content-Length")
    ensures LengthOf(h).Invalid? <==> !exists size: nat :: TellSize(lines, size)
    ensures forall size: nat :: !LengthOf(h).Invalid? ==>
      (TellSize(lines, size) <==> size == if LengthOf(h).Present? then LengthOf(h).size else 0)
  {
    hide ValuesIn, ScanSize, IndexOf;
    var values := ValuesIn(lines, "Content-Length");
    if !LengthOf(h).Invalid? {
      assert TellSize(lines, if LengthOf(h).Present? then LengthOf(h).size else 0);
    }
  }

  /** The lines of a head tell the size of its body. */
  lemma DenotedLength(first: string, lines: seq<string>, h: Head)
    requires Denote(first, lines, h)
    ensures forall size: nat :: TellSize(lines, size) <==> size == h.BodySize()
  {
    hide RequestLineOf, HeadersOf, CrlfFree, LengthOf, Block, TellSize;
    EmptyStore();
    EmptyStoreValues("Content-Length");
    AddingLines([], lines, "Content-Length");
    LinesHaveValues([], lines);
    LengthTold(h.headers, lines);
  }

  /**
   A request line and header lines complete a head exactly if they tell a size: without a
   Content-Length value, or with a single one that is a number. Otherwise they are malformed.
   */
  lemma CompletesIfSizeIsTold(first: string, lines: seq<string>, rest: string)
    requires CrlfFree(first) && HeaderLines(lines) && RequestLineOf(first).Some? && HeadersOf([], lines).Some?
    ensures var r := ScanHead(first + CRLF + Block(lines) + rest);
      && (r.Complete? <==> exists size: nat :: TellSize(lines, size))
      && (r.Malformed? <==> !exists size: nat :: TellSize(lines, size))
      && (r.Complete? ==> TellSize(lines, r.head.BodySize()))
  {
    hide RequestLineOf, HeadersOf, CrlfFree, LengthOf, Block, TellSize, ScanHead;
    var h := HeadersOf([], lines).value;
    EmptyStore();
    EmptyStoreValues("Content-Length");
    AddingLines([], lines, "Content-Length");
    LinesHaveValues([], lines);
    LengthTold(h, lines);
    GrammarScans(first, lines, rest);
  }

  // The request line

  ghost predicate Blanks(s: string) {
    forall i :: 0 <= i < |s| ==> s[i] == ' '
  }

  ghost predicate Word(s: string) {
    s != "" && forall i :: 0 <= i < |s| ==> s[i] != ' '
  }

  /** Two words after optional spaces, each followed by spaces, and a third part of two characters or more. */
  ghost predicate Spaced(s: string, l: RequestLine, a: string, b: string, c: string, p: string) {
    && s == a + l.verb + b + l.uri + c + p
    && Blanks(a) && Word(l.verb) && Blanks(b) && b != "" && Word(l.uri) && Blanks(c) && c != ""
    && |p| >= 2 && p[0] != ' '
  }

  lemma SkipWord(s: string, at: nat, w: string, rest: string)
    requires at <= |s| && s[at..] == w + rest && Word(w) && (rest != "" ==> rest[0] == ' ')
    ensures Find(s, at, NotBlank) == at && Find(s, at, IsBlank) == at + |w|
    ensures s[at..at + |w|] == w && s[at + |w|..] == rest
  {
    assert forall i {:trigger s[i]} :: at <= i < |s| ==> s[i] == (w + rest)[i - at];
    FindIs(s, at, NotBlank, at);
    FindIs(s, at, IsBlank, at + |w|);
  }

  lemma SkipBlanks(s: string, at: nat, w: string, rest: string)
    requires at <= |s| && s[at..] == w + rest && Blanks(w) && rest != "" && rest[0] != ' '
    ensures Find(s, at, NotBlank) == at + |w| && s[at + |w|..] == rest
  {
    assert forall i {:trigger s[i]} :: at <= i < |s| ==> s[i] == (w + rest)[i - at];
    FindIs(s, at, NotBlank, at + |w|);
  }

  lemma WordFirst(w: string, rest: string)
    requires Word(w)
    ensures w + rest != "" && (w + rest)[0] != ' '
  {
  }

  lemma BlankFirst(w: string, rest: string)
    requires Blanks(w) && w != ""
    ensures w + rest != "" && (w + rest)[0] == ' '
  {
  }

  /** Past spaces and the word behind them. */
  lemma SkipBoth(s: string, at: nat, b: string, w: string, rest: string) returns (from: nat, to: nat)
    requires at <= |s| && s[at..] == b + (w + rest) && Blanks(b) && Word(w) && rest != "" && rest[0] == ' '
    ensures from == Find(s, at, NotBlank) && to == Find(s, from, IsBlank)
    ensures s[from..to] == w && s[to..] == rest
  {
    hide Find, Word, Blanks;
    from, to := at + |b|, at + |b| + |w|;
    WordFirst(w, rest);
    SkipBlanks(s, at, b, w + rest);
    SkipWord(s, from, w, rest);
  }

  lemma RegroupWords(a: string, v: string, b: string, u: string, c: string, p: string)
    ensures a + v + b + u + c + p == a + (v + (b + (u + (c + p))))
  {
  }

  lemma SpacedReads(s: string, l: RequestLine, a: string, b: string, c: string, p: string)
    requires Spaced(s, l, a, b, c, p)
    ensures RequestLineOf(s) == Some(l)
  {
    hide Find, Word, Blanks;
    RegroupWords(a, l.verb, b, l.uri, c, p);
    assert s[0..] == s;
    BlankFirst(b, l.uri + (c + p));
    var ms, me := SkipBoth(s, 0, a, l.verb, b + (l.uri + (c + p)));
    BlankFirst(c, p);
    var us, ue := SkipBoth(s, me, b, l.uri, c + p);
    SkipBlanks(s, ue, c, p);
  }

  lemma ReadsSpaced(s: string, ms: nat, me: nat, us: nat, ue: nat, ps: nat)
    requires ms == Find(s, 0, NotBlank) && me == Find(s, ms, IsBlank) && us == Find(s, me, NotBlank)
    requires ue == Find(s, us, IsBlank) && ps == Find(s, ue, NotBlank) && ps + 1 < |s|
    ensures Spaced(s, RequestLine(s[ms..me], s[us..ue]), s[..ms], s[me..us], s[ue..ps], s[ps..])
  {
    hide Find;
  }

  /** A request line is read exactly from texts of its grammar. */
  lemma RequestLineExactly(s: string, l: RequestLine)
    ensures RequestLineOf(s) == Some(l) <==> exists a, b, c, p :: Spaced(s, l, a, b, c, p)
  {
    hide Find, Spaced;
    if RequestLineOf(s) == Some(l) {
      var ms := Find(s, 0, NotBlank);
      var me := Find(s, ms, IsBlank);
      var us := Find(s, me, NotBlank);
      var ue := Find(s, us, IsBlank);
      var ps := Find(s, ue, NotBlank);
      ReadsSpaced(s, ms, me, us, ue, ps);
    }
    forall a, b, c, p | Spaced(s, l, a, b, c, p)
      ensures RequestLineOf(s) == Some(l)
    {
      SpacedReads(s, l, a, b, c, p);
    }
  }
}
