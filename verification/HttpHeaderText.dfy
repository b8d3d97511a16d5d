/**
 Header lines as the response writer prints them, and when the header-line branch of the
 request parser reads the same header back.
 */
module HttpHeaderText {
  import opened Basics
  import opened Strings
  import opened Splitting
  import opened HttpHeaders
  import opened HttpHead

  predicate IsNul(c: char) { c == NUL }

  /** What "%s" prints of a string: up to the first NUL. */
  function CStr(s: string): string {
    s[..Find(s, 0, IsNul)]
  }

  function CStrs(values: seq<string>): (r: seq<string>)
    ensures |r| == |values|
  {
    seq(|values|, i requires 0 <= i < |values| => CStr(values[i]))
  }

  function ValuesText(values: seq<string>): string {
    Join(CStrs(values), ",")
  }

  /** A header line without its CRLF. */
  function HeaderText(h: Header): string {
    CStr(h.name) + ": " + ValuesText(h.values)
  }

  ghost predicate NulFree(s: string) {
    forall i :: 0 <= i < |s| ==> s[i] != NUL
  }

  /** No comma before the last character. */
  ghost predicate NoInnerComma(s: string) {
    forall i :: 0 <= i < |s| - 1 ==> s[i] != ','
  }

  ghost predicate NoComma(s: string) {
    forall i :: 0 <= i < |s| ==> s[i] != ','
  }

  /** Values that survive being joined by commas and split again. */
  ghost predicate Separable(values: seq<string>) {
    && values != []
    && (forall k :: 0 <= k < |values| - 1 ==> NoComma(values[k]))
    && NoInnerComma(values[|values| - 1])
    && (|values| > 1 ==> values[|values| - 1] != "")
  }

  predicate StartsBlank(s: string) {
    s != "" && (s[0] == ' ' || s[0] == '\t')
  }

  ghost predicate Writable(h: Header) {
    && NulFree(h.name) && (forall i :: 0 <= i < |h.name| ==> h.name[i] != ':')
    && Separable(h.values) && (forall k :: 0 <= k < |h.values| ==> NulFree(h.values[k]))
    && !StartsBlank(h.values[0])
  }

  // Joining and splitting

  lemma JoinCons(v: string, more: seq<string>)
    requires more != []
    ensures Join([v] + more, ",") == v + "," + Join(more, ",")
  {
    assert ([v] + more)[1..] == more;
  }

  lemma CommaAt(s: string, i: nat)
    ensures MatchesAt(s, ",", i) <==> i + 1 < |s| && s[i] == ','
  {
    if i + 1 < |s| { assert s[i..i + 1] == [s[i]]; }
  }

  lemma {:induction false} SeparablePieces(s: string, at: nat, values: seq<string>)
    requires at <= |s| && Separable(values) && s[at..] == Join(values, ",")
    ensures Pieces(s, at, ",") == values
    decreases |values|
  {
    hide Pieces;
    var v := values[0];
    PiecesStep(s, at, ",");
    assert forall i {:trigger s[i]} :: at <= i < |s| ==> s[i] == s[at..][i - at];
    if |values| == 1 {
      forall i | at <= i < |s|
        ensures !MatchesAt(s, ",", i)
      {
        CommaAt(s, i);
        assert s[i] == v[i - at];
      }
      FirstMatchIs(s, ",", at, |s|);
      assert values == [v];
    } else {
      var more, end := values[1..], at + |v|;
      JoinCons(v, more);
      assert values == [v] + more;
      JoinNonEmpty(more);
      assert s[at..] == v + "," + Join(more, ",");
      assert s[end] == ',' && s[at..end] == v && s[end + 1..] == Join(more, ",");
      forall i | at <= i < end
        ensures !MatchesAt(s, ",", i)
      {
        CommaAt(s, i);
        assert s[i] == v[i - at];
      }
      CommaAt(s, end);
      FirstMatchIs(s, ",", at, end);
      SeparablePieces(s, end + 1, more);
    }
  }

  lemma JoinNonEmpty(values: seq<string>)
    requires Separable(values) && values[|values| - 1] != ""
    ensures Join(values, ",") != ""
  {
  }

  lemma PieceWithoutComma(s: string, from: nat, to: nat)
    requires from <= to <= |s| && NoMatchIn(s, ",", from, to)
    ensures NoInnerComma(s[from..to]) && (to < |s| ==> NoComma(s[from..to]))
  {
    forall i | from <= i < to && i + 1 < |s|
      ensures s[i] != ','
    {
      CommaAt(s, i);
    }
  }

  lemma PiecesSeparable(s: string)
    ensures Separable(Pieces(s, 0, ","))
  {
    hide NoMatchIn, NoInnerComma, NoComma, Ranges;
    var r := Ranges(s, 0, ",", 0);
    RangesAreAdjacent(s, 0, ",", 0);
    RangesAreLeftmost(s, 0, ",", 0);
    forall k | 0 <= k < |r|
      ensures NoInnerComma(Pieces(s, 0, ",")[k]) && (k < |r| - 1 ==> NoComma(Pieces(s, 0, ",")[k]))
    {
      LastEnd(s, r, k);
      PieceWithoutComma(s, r[k].start, r[k].end);
    }
    if |r| > 1 {
      CommaAt(s, r[|r| - 2].end);
      assert r[|r| - 2 + 1].start == r[|r| - 2].end + 1;
    }
  }

  lemma LastEnd(s: string, r: seq<Range>, k: nat)
    requires k < |r| && Adjacent(s, 0, ",", r) && Leftmost(s, ",", 0, r)
    ensures NoMatchIn(s, ",", r[k].start, r[k].end) && (k < |r| - 1 ==> r[k].end < |s|)
  {
  }

  lemma PiecesRejoin(s: string)
    ensures Join(Pieces(s, 0, ","), ",") == s
  {
    SplitThenJoin(s, 0, ",", 0);
    assert s[0..] == s;
  }

  /** Splitting at commas undoes joining exactly for separable values. */
  lemma SplittingUndoesJoining(values: seq<string>)
    ensures Pieces(Join(values, ","), 0, ",") == values <==> Separable(values)
  {
    var s := Join(values, ",");
    PiecesSeparable(s);
    if Separable(values) {
      assert s[0..] == s;
      SeparablePieces(s, 0, values);
    }
  }

  // One header line

  lemma CStrKeeps(s: string)
    ensures NulFree(CStr(s)) && (NulFree(s) <==> CStr(s) == s)
  {
  }

  lemma CStrsKeep(values: seq<string>)
    ensures (forall k :: 0 <= k < |values| ==> NulFree(values[k])) <==> CStrs(values) == values
  {
    hide NulFree, CStr;
    forall k | 0 <= k < |values|
      ensures NulFree(values[k]) <==> CStrs(values)[k] == values[k]
    {
      CStrKeeps(values[k]);
    }
    if forall k :: 0 <= k < |values| ==> NulFree(values[k]) {
      assert CStrs(values) == values;
    }
  }

  lemma {:induction false} JoinNulFree(values: seq<string>)
    requires forall k :: 0 <= k < |values| ==> NulFree(values[k])
    ensures NulFree(Join(values, ","))
    decreases |values|
  {
    if |values| > 1 { JoinNulFree(values[1..]); }
  }

  lemma ValuesTextNulFree(values: seq<string>)
    ensures NulFree(ValuesText(values))
  {
    forall k | 0 <= k < |values|
      ensures NulFree(CStrs(values)[k])
    {
      CStrKeeps(values[k]);
    }
    JoinNulFree(CStrs(values));
  }

  lemma ColonAt(s: string, i: nat)
    ensures MatchesAt(s, ":", i) <==> i + 1 < |s| && s[i] == ':'
  {
    if i + 1 < |s| { assert s[i..i + 1] == [s[i]]; }
  }

  /** The line is cut behind the name just if the name has no colon. */
  lemma FirstColon(name: string, text: string)
    ensures var m := NextMatch(name + ": " + text, ":", 0);
      m.Some? && m.value <= |name| && (m.value == |name| <==> forall i :: 0 <= i < |name| ==> name[i] != ':')
  {
    var line := name + ": " + text;
    NextMatchIsFirst(line, ":", 0);
    ColonAt(line, |name|);
    var m := NextMatch(line, ":", 0);
    forall i | 0 <= i < |name|
      ensures MatchesAt(line, ":", i) <==> name[i] == ':'
    {
      ColonAt(line, i);
    }
  }

  /** Trimming the space behind the colon gives the text back if it does not start blank itself. */
  lemma TrimSpace(text: string)
    requires NulFree(text)
    ensures TrimStart(" " + text, BLANKS) == text <==> !StartsBlank(text)
  {
    var s := " " + text;
    assert s[0] == ' ' && s[1..] == text && ' ' in BLANKS && '\t' in BLANKS;
    assert forall c :: c in BLANKS <==> c == ' ' || c == '\t';
    var r := FirstNotOf(s, BLANKS, 0);
    if text != "" && !StartsBlank(text) {
      assert s[1] == text[0] && r == Some(1);
    }
  }

  lemma SlicesNulFree(s: string, r: seq<Range>)
    requires NulFree(s) && forall k :: 0 <= k < |r| ==> r[k].start <= r[k].end <= |s|
    ensures forall k :: 0 <= k < |r| ==> NulFree(Texts(s, r)[k])
  {
  }

  lemma PiecesNulFree(s: string)
    requires NulFree(s)
    ensures forall k :: 0 <= k < |Pieces(s, 0, ",")| ==> NulFree(Pieces(s, 0, ",")[k])
  {
    hide NulFree;
    RangesAreAdjacent(s, 0, ",", 0);
    SlicesNulFree(s, Ranges(s, 0, ",", 0));
  }

  lemma TrimNulFree(s: string)
    requires NulFree(s)
    ensures NulFree(TrimStart(s, BLANKS))
  {
  }

  /** What the parser reads from a written line. */
  lemma WrittenLine(h: Header, c: nat)
    requires NextMatch(HeaderText(h), ":", 0) == Some(c)
    ensures c <= |CStr(h.name)| && HeaderOf(HeaderText(h)).Some?
    ensures HeaderOf(HeaderText(h)).value.name == CStr(h.name)[..c]
    ensures c == |CStr(h.name)| ==>
      HeaderOf(HeaderText(h)).value.values == Pieces(TrimStart(" " + ValuesText(h.values), BLANKS), 0, ",")
  {
    hide Pieces, TrimStart, NextMatch, CStr, ValuesText;
    var name, text := CStr(h.name), ValuesText(h.values);
    FirstColon(name, text);
    if c == |name| { assert (name + ": " + text)[c + 1..] == " " + text; }
  }

  lemma WritableComesBack(h: Header)
    requires Writable(h)
    ensures HeaderOf(HeaderText(h)) == Some(h)
  {
    hide Pieces, TrimStart, NextMatch, CStr, CStrs, Join, NulFree, HeaderOf, HeaderText;
    CStrKeeps(h.name);
    CStrsKeep(h.values);
    var text := ValuesText(h.values);
    FirstColon(h.name, text);
    TextOf(h);
    WrittenLine(h, |h.name|);
    ValuesTextNulFree(h.values);
    FirstOfJoin(h.values);
    TrimSpace(text);
    SplittingUndoesJoining(h.values);
    assert h.name[..|h.name|] == h.name;
  }

  lemma TextOf(h: Header)
    ensures HeaderText(h) == CStr(h.name) + ": " + ValuesText(h.values)
  {
  }

  lemma FirstOfJoin(values: seq<string>)
    requires values != []
    ensures StartsBlank(Join(values, ",")) <==> StartsBlank(values[0])
  {
  }

  lemma ComesBackWritable(h: Header)
    requires HeaderOf(HeaderText(h)) == Some(h)
    ensures Writable(h)
  {
    hide Pieces, TrimStart, NextMatch, CStr, CStrs, Join, NulFree, HeaderOf, HeaderText, Separable, StartsBlank;
    var name, text := CStr(h.name), ValuesText(h.values);
    FirstColon(name, text);
    TextOf(h);
    var c := NextMatch(HeaderText(h), ":", 0).value;
    WrittenLine(h, c);
    CStrKeeps(h.name);
    assert c == |name| by { assert |h.name| == c; CStrShorter(h.name, c); }
    assert name[..c] == name;
    ValuesTextNulFree(h.values);
    SpaceNulFree(text);
    TrimNulFree(" " + text);
    var t := TrimStart(" " + text, BLANKS);
    PiecesNulFree(t);
    CStrsKeep(h.values);
    PiecesRejoin(t);
    TrimSpace(text);
    SplittingUndoesJoining(h.values);
    SeparableSome(h.values);
    FirstOfJoin(h.values);
  }

  lemma CStrShorter(s: string, c: nat)
    requires c <= |CStr(s)| && s == CStr(s)[..c]
    ensures c == |CStr(s)|
  {
  }

  lemma SpaceNulFree(s: string)
    requires NulFree(s)
    ensures NulFree(" " + s)
  {
  }

  lemma SeparableSome(values: seq<string>)
    requires Separable(values)
    ensures values != []
  {
  }

  /** A written header line reads back as the same header exactly for writable headers. */
  lemma HeaderComesBack(h: Header)
    ensures HeaderOf(HeaderText(h)) == Some(h) <==> Writable(h)
  {
    hide HeaderOf, HeaderText, Writable;
    if Writable(h) { WritableComesBack(h); }
    if HeaderOf(HeaderText(h)) == Some(h) { ComesBackWritable(h); }
  }

  /** A value with a comma is read back as two values. */
  lemma CommaPartsValue()
    ensures HeaderText(Header("A", ["b,c"])) == "A: b,c"
    ensures HeaderOf("A: b,c") == Some(Header("A", ["b", "c"])) && !Writable(Header("A", ["b,c"]))
  {
    hide HeaderOf, HeaderText, Writable, NulFree, CStr, CStrs, Join, ValuesText;
    var whole, parts := Header("A", ["b,c"]), Header("A", ["b", "c"]);
    ShortTexts();
    CStrKeeps("A");
    CStrsKeep(whole.values);
    CStrsKeep(parts.values);
    TextOf(whole);
    TextOf(parts);
    TextOfValues(whole.values);
    TextOfValues(parts.values);
    assert "A" + ": " + "b,c" == "A: b,c";
    WritableComesBack(parts);
    HeaderComesBack(whole);
    assert HeaderOf("A: b,c") == Some(parts);
  }

  lemma TextOfValues(values: seq<string>)
    ensures ValuesText(values) == Join(CStrs(values), ",")
  {
  }

  lemma ShortTexts()
    ensures NulFree("A") && NulFree("b,c") && NulFree("b") && NulFree("c")
    ensures Join(["b,c"], ",") == "b,c" && Join(["b", "c"], ",") == "b,c"
    ensures Writable(Header("A", ["b", "c"]))
  {
    assert ["b", "c"][1..] == ["c"] && Join(["c"], ",") == "c";
  }

  // Header lines at large

  ghost predicate BlankOver(s: string) {
    forall i :: 0 <= i < |s| ==> s[i] == ' ' || s[i] == '\t'
  }

  ghost predicate NoColon(s: string) {
    forall i :: 0 <= i < |s| ==> s[i] != ':'
  }

  lemma CutAtColon(name: string, rest: string)
    requires NoColon(name) && rest != ""
    ensures NextMatch(name + ":" + rest, ":", 0) == Some(|name|)
  {
    var line := name + ":" + rest;
    ColonAt(line, |name|);
    forall i | 0 <= i < |name|
      ensures !MatchesAt(line, ":", i)
    {
      ColonAt(line, i);
    }
    FirstMatchIs(line, ":", 0, |name|);
  }

  /**
   Any line with a colon that is not its last character is a header: the name in front of the
   first one, and the values that give the text behind the blanks when joined by commas and
   are separable. A NUL behind the blanks leaves one empty value.
   */
  lemma LineIsHeader(name: string, blanks: string, text: string)
    requires NoColon(name) && BlankOver(blanks) && blanks + text != "" && !StartsBlank(text)
    ensures var h := HeaderOf(name + ":" + blanks + text);
      && h.Some? && h.value.name == name && Separable(h.value.values)
      && Join(h.value.values, ",") == if text != "" && text[0] == NUL then "" else text
  {
    hide Pieces, TrimStart, NextMatch, Separable, Join;
    var rest := blanks + text;
    var line := name + ":" + rest;
    assert name + ":" + blanks + text == line;
    CutAtColon(name, rest);
    assert line[..|name|] == name && line[|name| + 1..] == rest;
    assert ' ' in BLANKS && '\t' in BLANKS && forall c :: c in BLANKS ==> c == ' ' || c == '\t';
    StartTrimmed(blanks, text, BLANKS);
    PiecesSeparable(TrimStart(rest, BLANKS));
    PiecesRejoin(TrimStart(rest, BLANKS));
  }

  /** A line without a colon, but perhaps one at its end, is none. */
  lemma LineIsNoHeader(line: string)
    requires forall i :: 0 <= i < |line| - 1 ==> line[i] != ':'
    ensures HeaderOf(line) == None
  {
    forall i | 0 <= i < |line|
      ensures !MatchesAt(line, ":", i)
    {
      ColonAt(line, i);
    }
    FirstMatchIs(line, ":", 0, |line|);
  }

  /** What "%s" prints: all up to the first NUL. */
  lemma CStrIs(s: string)
    ensures CStr(s) <= s && NulFree(CStr(s)) && (CStr(s) == s || s[|CStr(s)|] == NUL)
  {
  }
}
