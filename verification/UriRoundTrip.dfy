/** Exactly which URIs survive being printed and parsed again. */
module UriRoundTrip {
  import opened Basics
  import opened Strings
  import opened PercentCoding
  import opened UriText
  import opened UriAuthority

  // The condition

  /** A scheme as the parser stores it: lower case, with its separator. */
  predicate IsSchemeText(s: string) {
    IsLowerCase(s) && SchemeEnd(s) == |s| > 0
  }

  predicate StartsWithSlashes(s: string) { SlashesAt(s, 0) }

  predicate PathSurvives(p: string, afterAuthority: bool) {
    p != "" && p[0] == '/' && '?' !in p && '#' !in p && (afterAuthority || !StartsWithSlashes(p))
  }

  predicate QuerySurvives(q: string) {
    q != "" && '#' !in q[1..]
  }

  predicate HasNoDelimiter(a: string) {
    forall i :: 0 <= i < |a| ==> !EndsAuthority(a[i])
  }

  predicate Survives(u: Uri)
    requires IsPrintable(u)
  {
    var a := AuthorityText(u);
    && (u.scheme.Some? || u.host.Some? || u.path.Some? || u.query.Some? || u.fragment.Some?)
    && (if u.scheme.Some? then IsSchemeText(u.scheme.value) else SchemeEnd(a) == 0)
    && HasNoDelimiter(a) && AuthoritySurvives(u.userinfo, u.host, u.port, u.scheme.None?)
    && (u.path.Some? ==> PathSurvives(u.path.value, a != ""))
    && (u.query.Some? ==> QuerySurvives(u.query.value))
    && (u.fragment.Some? ==> u.fragment.value != "")
  }

  function WithAuthority(u: Uri): Uri
    requires IsPrintable(u)
  {
    u.(authority := if AuthorityText(u) == "" then None else Some(AuthorityText(u)))
  }

  // Encoded texts cut at a question mark or a number sign

  predicate Cuts(c: char) { c == '?' || c == '#' }

  /** Cutting an encoded text at such a character, or not at all, cuts the text at one. */
  lemma CutFirst(s: string, x: nat)
    requires IsBytes(s) && 0 < x <= |Encode(s)| && (x < |Encode(s)| ==> Cuts(Encode(s)[x]))
    ensures var n := |EncodeChar(s[0])|;
      && n <= x && Encode(s)[..x] == EncodeChar(s[0]) + Encode(s[1..])[..x - n]
      && (x < |Encode(s)| ==> Encode(s)[x] == Encode(s[1..])[x - n])
  {
    hide IsPlain, IsByte;
    var e, rest := EncodeChar(s[0]), Encode(s[1..]);
    assert Encode(s) == e + rest;
    CutOutside(s[0], x);
    assert (e + rest)[..x] == e + rest[..x - |e|];
  }

  /** An escape is not cut: none of its characters cuts. */
  lemma CutOutside(c: char, x: nat)
    requires IsByte(c) && 0 < x && (x < |EncodeChar(c)| ==> Cuts(EncodeChar(c)[x]))
    ensures |EncodeChar(c)| <= x
  {
    if !IsPlain(c) { HexIsDigit(c as int / 16); HexIsDigit(c as int % 16); }
  }

  lemma {:induction false} CutEncoded(s: string, x: nat) returns (y: nat)
    requires IsBytes(s) && x <= |Encode(s)| && (x < |Encode(s)| ==> Cuts(Encode(s)[x]))
    ensures y <= |s| && Decode(Encode(s)[..x]) == s[..y]
    ensures x < |Encode(s)| ==> y < |s| && s[y] == Encode(s)[x]
    ensures x == |Encode(s)| ==> y == |s|
    ensures x > 0 ==> y > 0
  {
    if x == 0 {
      y := 0;
      if s != "" { CutAtStart(s); }
    } else {
      hide *;
      EncodeSizes(s);
      CutFirst(s, x);
      var n := |EncodeChar(s[0])|;
      var rest := CutEncoded(s[1..], x - n);
      EncodedCharDecodes(s[0], Encode(s[1..])[..x - n]);
      y := rest + 1;
      TakeOne(s, rest);
    }
  }

  lemma TakeOne(s: string, n: nat)
    requires n < |s|
    ensures s[..n + 1] == [s[0]] + s[1..][..n] && (n + 1 < |s| ==> s[n + 1] == s[1..][n])
  {
  }

  lemma CutAtStart(s: string)
    requires IsBytes(s) && s != ""
    ensures Encode(s) != "" && (Cuts(Encode(s)[0]) ==> s[0] == Encode(s)[0])
  {
    assert Encode(s)[0] == EncodeChar(s[0])[0];
  }

  lemma EncodeSizes(s: string)
    requires IsBytes(s)
    ensures s == "" ==> Encode(s) == ""
    ensures Encode(s) != "" ==> s != ""
    ensures s != "" ==> IsByte(s[0]) && IsBytes(s[1..]) && |Encode(s)| == |EncodeChar(s[0])| + |Encode(s[1..])|
  {
  }

  /** Such a character occurs in a text exactly where it occurs in its encoding. */
  lemma {:induction false} CutsInEncoded(s: string, c: char)
    requires IsBytes(s) && Cuts(c)
    ensures c in Encode(s) <==> c in s
  {
    if s != "" {
      CutsInEncoded(s[1..], c);
      if !IsPlain(s[0]) { HexIsDigit(s[0] as int / 16); HexIsDigit(s[0] as int % 16); }
      assert s == [s[0]] + s[1..];
    }
  }

  lemma EncodedStart(s: string)
    requires IsBytes(s)
    ensures Encode(s) == "" <==> s == ""
    ensures s != "" ==> (Encode(s)[0] == '/' <==> s[0] == '/')
    ensures StartsWithSlashes(Encode(s)) <==> StartsWithSlashes(s)
  {
    if s != "" && s[0] == '/' && |s| > 1 {
      assert Encode(s) == "/" + Encode(s[1..]);
    }
  }

  // Path, query and fragment

  predicate StartsWithCut(s: string) { s == "" || Cuts(s[0]) }

  lemma Tail(t: string, e: nat, x: string, rest: string)
    requires e <= |t| && t[e..] == x + rest
    ensures e + |x| <= |t| && t[e..e + |x|] == x && t[e + |x|..] == rest
    ensures forall i :: 0 <= i < |x| ==> t[e + i] == x[i]
    ensures CharAt(t, e + |x|) == CharAt(rest, 0)
  {
    assert forall i :: 0 <= i < |x| + |rest| ==> t[e + i] == (x + rest)[i];
  }

  /** Where the scan for the end of a printed path stops, and what is decoded up to there. */
  lemma ScanPath(t: string, e: nat, p: string, rest: string) returns (x: nat, y: nat)
    requires e <= |t| && IsBytes(p) && t[e..] == Encode(p) + rest && StartsWithCut(rest)
    requires p != "" && p[0] == '/'
    ensures PathEnd(t, e) == e + x && 0 < x <= |Encode(p)| && y <= |p|
    ensures PathAt(t, e) == Some(p[..y])
    ensures x < |Encode(p)| ==> y < |p| && Cuts(p[y])
    ensures x == |Encode(p)| ==> y == |p| && forall i :: 0 <= i < x ==> !Cuts(Encode(p)[i])
  {
    hide Decode, Encode;
    var enc := Encode(p);
    Tail(t, e, enc, rest);
    EncodedStart(p);
    x := PathEnd(t, e) - e;
    assert rest != "" ==> t[e + |enc|] == rest[0];
    assert t[e..e + x] == enc[..x];
    y := CutEncoded(p, x);
    forall i | 0 <= i < x ensures !Cuts(enc[i]) { assert enc[i] == t[e + i]; }
  }

  lemma PathComesBack(t: string, e: nat, p: string, rest: string)
    requires e <= |t| && IsBytes(p) && t[e..] == Encode(p) + rest && StartsWithCut(rest)
    ensures PathAt(t, e) == Some(p) <==> p != "" && p[0] == '/' && '?' !in p && '#' !in p
    ensures PathAt(t, e) == Some(p) ==> PathEnd(t, e) == e + |Encode(p)|
  {
    EncodedStart(p);
    if p != "" && p[0] == '/' {
      CutsInEncoded(p, '?');
      CutsInEncoded(p, '#');
      var x, y := ScanPath(t, e, p, rest);
      if x < |Encode(p)| {
        assert p[y] in p && |p[..y]| < |p|;
      } else {
        assert p[..y] == p;
      }
    } else {
      Tail(t, e, Encode(p), rest);
      assert CharAt(t, e) != '/';
    }
  }

  lemma ScanQuery(t: string, p: nat, q: string, rest: string) returns (x: nat, y: nat)
    requires p <= |t| && IsBytes(q) && t[p..] == "?" + (Encode(q) + rest) && (rest == "" || rest[0] == '#')
    requires q != ""
    ensures QueryEnd(t, p) == p + 1 + x && 0 < x <= |Encode(q)| && 0 < y <= |q|
    ensures QueryAt(t, p) == Some(q[..y])
    ensures x < |Encode(q)| ==> y < |q| && q[y] == '#'
    ensures x == |Encode(q)| ==> y == |q| && forall i :: 0 < i < x ==> Encode(q)[i] != '#'
  {
    hide Decode, Encode;
    var enc := Encode(q);
    Tail(t, p, "?", enc + rest);
    Tail(t, p + 1, enc, rest);
    EncodedStart(q);
    x := QueryEnd(t, p) - (p + 1);
    assert rest != "" ==> t[p + 1 + |enc|] == rest[0];
    assert (t + [NUL])[p + 1..p + 1 + x] == enc[..x];
    y := CutEncoded(q, x);
    forall i | 0 < i < x ensures enc[i] != '#' { assert enc[i] == t[p + 1 + i]; }
  }

  lemma NumberSignInRest(q: string)
    requires IsBytes(q) && q != ""
    ensures '#' in q[1..] <==> exists i :: 0 < i < |Encode(q)| && Encode(q)[i] == '#'
  {
    var first, more := EncodeChar(q[0]), Encode(q[1..]);
    assert Encode(q) == first + more;
    CutsInEncoded(q[1..], '#');
    if !IsPlain(q[0]) { HexIsDigit(q[0] as int / 16); HexIsDigit(q[0] as int % 16); }
    if '#' in more {
      var k :| 0 <= k < |more| && more[k] == '#';
      assert Encode(q)[|first| + k] == '#';
    }
    if i :| 0 < i < |Encode(q)| && Encode(q)[i] == '#' {
      assert i >= |first| ==> more[i - |first|] == '#';
    }
  }

  lemma QueryComesBack(t: string, p: nat, q: string, rest: string)
    requires p <= |t| && IsBytes(q) && t[p..] == "?" + (Encode(q) + rest) && (rest == "" || rest[0] == '#')
    ensures QueryAt(t, p) == Some(q) <==> QuerySurvives(q)
    ensures QueryAt(t, p) == Some(q) ==> QueryEnd(t, p) == p + 1 + |Encode(q)|
  {
    if q == "" {
      Tail(t, p, "?", Encode(q) + rest);
      assert (t + [NUL])[p + 1..QueryEnd(t, p)] != "";
      assert Decode((t + [NUL])[p + 1..QueryEnd(t, p)]) != "";
    } else {
      var x, y := ScanQuery(t, p, q, rest);
      NumberSignInRest(q);
      if x < |Encode(q)| {
        assert q[1..][y - 1] == '#' && |q[..y]| < |q|;
      } else {
        assert q[..y] == q;
      }
    }
  }

  lemma FragmentComesBack(t: string, q: nat, f: string)
    requires q <= |t| && IsBytes(f) && t[q..] == "#" + Encode(f)
    ensures FragmentAt(t, q) == Some(f) <==> f != ""
    ensures FragmentAt(t, q) == Some(f) ==> FragmentEnd(t, q) == |t|
  {
    assert t[q] == t[q..][0] == '#';
    assert t[q + 1..] == Encode(f);
    EncodedStart(f);
    DecodeUndoesEncode(f, "");
    assert Encode(f) + "" == Encode(f) && f + "" == f && Decode("") == "";
  }

  // Scheme and slashes

  /** What is read as a scheme is a scheme by itself. */
  lemma SchemeIsPrefix(t: string)
    ensures SchemeEnd(t[..SchemeEnd(t)]) == SchemeEnd(t)
  {
    var n := SchemeEnd(t);
    if n > 0 {
      var i := Find(t, 1, NotSchemeChar);
      FindIs(t[..n], 1, NotSchemeChar, i);
    }
  }

  /** A scheme is read in front of anything that does not start with two slashes. */
  lemma SchemeInFront(s: string, r: string, t: string)
    requires t == s + r && SchemeEnd(s) == |s| > 0 && !StartsWithSlashes(r)
    ensures SchemeEnd(t) == |s|
  {
    var i := Find(s, 1, NotSchemeChar);
    assert forall k :: 0 <= k < |s| ==> t[k] == s[k];
    FindIs(t, 1, NotSchemeChar, i);
    assert forall k :: 0 <= k < |r| ==> t[|s| + k] == r[k];
  }

  /** A text before a delimiter looks like a scheme exactly when it does so by itself. */
  lemma NoSchemeInFront(a: string, m: string, t: string)
    requires t == a + m && (m == "" || EndsAuthority(m[0]))
    ensures SchemeEnd(t) == 0 <==> SchemeEnd(a) == 0
  {
    assert forall k :: 0 <= k < |a| ==> t[k] == a[k];
    if a != "" && IsLetter(a[0]) {
      var i := Find(a, 1, NotSchemeChar);
      if i == |a| && m != "" { assert t[i] == m[0]; }
      FindIs(t, 1, NotSchemeChar, i);
    } else if a == "" {
      assert t == m;
    }
  }

  lemma AuthorityInMiddle(t: string, s: nat, a: string, m: string)
    requires s <= |t| && t[s..] == a + m && AuthorityStart(t) == s
    requires HasNoDelimiter(a) && (m == "" || EndsAuthority(m[0]))
    ensures AuthorityEnd(t) == s + |a| && t[s..s + |a|] == a && t[s + |a|..] == m
  {
    Tail(t, s, a, m);
    assert m != "" ==> t[s + |a|] == m[0];
    FindIs(t, s, EndsAuthority, s + |a|);
  }

  // The parts of a printed URI

  datatype Parts = Parts(scheme: string, authority: string, path: string, query: string, fragment: string)

  function PartsOf(u: Uri): Parts
    requires IsPrintable(u)
  {
    Parts(Or(u.scheme, "", ""), AuthorityText(u), Or(EncodeIf(u.path), "", ""),
          Or(EncodeIf(u.query), "?", ""), Or(EncodeIf(u.fragment), "#", ""))
  }

  function More(p: Parts): string { p.path + (p.query + p.fragment) }

  lemma Associate(s: string, a: string, p: string, q: string, f: string)
    ensures s + a + (p + q + f) == s + (a + (p + (q + f)))
    ensures p + q + f == p + (q + f)
  {
  }

  lemma PartsTogether(u: Uri)
    requires IsPrintable(u)
    ensures var p := PartsOf(u);
      && p.authority == AuthorityText(u)
      && Printed(u) == p.scheme + (p.authority + More(p))
      && (p.fragment == "" || p.fragment[0] == '#')
      && (p.query == "" || p.query[0] == '?')
      && StartsWithCut(p.query + p.fragment)
  {
    var p := PartsOf(u);
    assert p.query != "" ==> (p.query + p.fragment)[0] == '?';
    Associate(p.scheme, p.authority, p.path, p.query, p.fragment);
  }

  // All parts after the authority

  /** Path, query and fragment come back from position e on, and everything is read. */
  predicate MoreComesBack(t: string, e: nat, u: Uri)
    requires e <= |t|
  {
    var p := PathEnd(t, e);
    var q := QueryEnd(t, p);
    PathAt(t, e) == u.path && QueryAt(t, p) == u.query && FragmentAt(t, q) == u.fragment && FragmentEnd(t, q) == |t|
  }

  predicate MoreSurvives(u: Uri) {
    && (u.path.Some? ==> u.path.value != "" && u.path.value[0] == '/' && '?' !in u.path.value && '#' !in u.path.value)
    && (u.query.Some? ==> QuerySurvives(u.query.value))
    && (u.fragment.Some? ==> u.fragment.value != "")
  }

  lemma PathStage(t: string, e: nat, u: Uri)
    requires IsPrintable(u) && e <= |t| && t[e..] == More(PartsOf(u))
    ensures PathAt(t, e) == u.path <==> u.path.Some? ==>
      u.path.value != "" && u.path.value[0] == '/' && '?' !in u.path.value && '#' !in u.path.value
    ensures PathAt(t, e) == u.path ==> PathEnd(t, e) == e + |PartsOf(u).path|
  {
    PartsTogether(u);
    var p := PartsOf(u);
    if u.path.Some? {
      assert p.path == Encode(u.path.value);
      PathComesBack(t, e, u.path.value, p.query + p.fragment);
    } else {
      assert More(p) == p.query + p.fragment;
      Tail(t, e, "", More(p));
    }
  }

  lemma QueryStage(t: string, p: nat, u: Uri)
    requires IsPrintable(u) && p <= |t| && t[p..] == PartsOf(u).query + PartsOf(u).fragment
    ensures QueryAt(t, p) == u.query <==> u.query.Some? ==> QuerySurvives(u.query.value)
    ensures QueryAt(t, p) == u.query ==> QueryEnd(t, p) == p + |PartsOf(u).query|
  {
    hide QueryAt, QueryEnd, QuerySurvives, Printed, More, Encode;
    PartsTogether(u);
    var f := PartsOf(u).fragment;
    if u.query.None? { NoQuery(t, p, f); }
    if u.query.Some? {
      assert PartsOf(u).query + f == "?" + (Encode(u.query.value) + f);
      QueryComesBack(t, p, u.query.value, f);
    } else {
      Tail(t, p, "", f);
    }
  }

  lemma NoQuery(t: string, p: nat, f: string)
    requires p <= |t| && t[p..] == f && (f == "" || f[0] == '#')
    ensures QueryAt(t, p) == None && QueryEnd(t, p) == p
  {
    if f != "" { assert t[p] == f[0]; }
  }

  lemma FragmentStage(t: string, q: nat, u: Uri)
    requires IsPrintable(u) && q <= |t| && t[q..] == PartsOf(u).fragment
    ensures FragmentAt(t, q) == u.fragment <==> u.fragment.Some? ==> u.fragment.value != ""
    ensures FragmentAt(t, q) == u.fragment ==> FragmentEnd(t, q) == |t|
  {
    if u.fragment.Some? {
      assert PartsOf(u).fragment == "#" + Encode(u.fragment.value);
      FragmentComesBack(t, q, u.fragment.value);
    }
  }

  lemma MoreStage(t: string, e: nat, u: Uri)
    requires IsPrintable(u) && e <= |t| && t[e..] == More(PartsOf(u))
    ensures MoreComesBack(t, e, u) <==> MoreSurvives(u)
  {
    hide PathAt, QueryAt, FragmentAt, PathEnd, QueryEnd, FragmentEnd, QuerySurvives, PartsOf;
    var parts := PartsOf(u);
    PathStage(t, e, u);
    if PathAt(t, e) == u.path {
      var p := PathEnd(t, e);
      Tail(t, e, parts.path, parts.query + parts.fragment);
      QueryStage(t, p, u);
      if QueryAt(t, p) == u.query {
        Tail(t, p, parts.query, parts.fragment);
        FragmentStage(t, QueryEnd(t, p), u);
      }
    }
  }

  // All parts

  predicate StartsWithDelimiter(s: string) { s == "" || EndsAuthority(s[0]) }

  /** What the printed path, query and fragment start with. */
  lemma MoreStarts(u: Uri)
    requires IsPrintable(u)
    ensures var m := More(PartsOf(u));
      && (MoreSurvives(u) ==> StartsWithDelimiter(m))
      && (StartsWithSlashes(m) ==> u.path.Some? && StartsWithSlashes(u.path.value))
      && (u.path.Some? && StartsWithSlashes(u.path.value) ==> StartsWithSlashes(m))
  {
    var p := PartsOf(u);
    PartsTogether(u);
    if u.path.Some? {
      EncodedStart(u.path.value);
      var enc, rest := Encode(u.path.value), p.query + p.fragment;
      assert p.path == enc && More(p) == enc + rest;
      assert enc != "" ==> More(p)[0] == enc[0];
      if |enc| >= 2 {
        assert More(p)[1] == enc[1];
      } else if |More(p)| >= 2 {
        assert More(p)[1] == rest[1 - |enc|];
        assert enc == "" ==> More(p)[0] == rest[0];
      }
    } else {
      assert More(p) == p.query + p.fragment;
    }
  }

  lemma RestStarts(u: Uri)
    requires IsPrintable(u) && Survives(u)
    ensures !StartsWithSlashes(PartsOf(u).authority + More(PartsOf(u)))
  {
    var a, m := PartsOf(u).authority, More(PartsOf(u));
    MoreStarts(u);
    assert a != "" ==> (a + m)[0] == a[0];
    assert a == "" ==> a + m == m;
  }

  lemma SchemeStage(scheme: string, r: string, t: string)
    requires t == scheme + r && !StartsWithSlashes(r)
    requires if scheme == "" then SchemeEnd(t) == 0 else IsSchemeText(scheme)
    ensures SchemeOf(t) == (if scheme == "" then None else Some(scheme)) && AuthorityStart(t) == |scheme|
  {
    assert forall k :: 0 <= k < |r| ==> t[|scheme| + k] == r[k];
    if scheme != "" {
      SchemeInFront(scheme, r, t);
      assert t[..|scheme|] == scheme;
      LowerIsFixed(scheme);
    }
  }

  /** The authority text, in the parts UriAuthority speaks of. */
  lemma AuthorityParts(u: Uri)
    requires IsPrintable(u)
    ensures PartsOf(u).authority == UserText(u.userinfo) + HostPortText(u.host, u.port)
    ensures u.scheme.Some? ==> PartsOf(u).scheme == u.scheme.value
  {
    var x, y, z := UserText(u.userinfo), Or(u.host, "", ""), PortText(u.port);
    assert (x + y) + z == x + (y + z);
    if u.scheme.Some? { assert "" + u.scheme.value + "" == u.scheme.value; }
  }

  /** The stages of the parser on the text t of u, with the authority a in [s, e). */
  ghost predicate StagesComeBack(u: Uri, t: string, s: nat, e: nat, a: string)
  {
    && s <= e <= |t| && t[s..e] == a
    && SchemeOf(t) == u.scheme && AuthorityStart(t) == s && AuthorityEnd(t) == e
    && AuthorityOf(a, s == 0) == Fields(u.userinfo, u.host, u.port, a)
    && MoreComesBack(t, e, u)
  }

  lemma StagesTogether(u: Uri, t: string, s: nat, e: nat, a: string)
    requires IsPrintable(u) && a == AuthorityText(u) && StagesComeBack(u, t, s, e, a)
    ensures Parsed(t) == WithAuthority(u) && Consumed(t) == |t|
  {
  }

  lemma AuthorityStage(u: Uri, t: string, s: nat, a: string, m: string)
    requires s <= |t| && t[s..] == a + m && AuthorityStart(t) == s && (s == 0 <==> u.scheme.None?)
    requires HasNoDelimiter(a) && StartsWithDelimiter(m)
    requires u.port.Some? ==> 0 <= u.port.value.number
    requires a == UserText(u.userinfo) + HostPortText(u.host, u.port)
    requires AuthoritySurvives(u.userinfo, u.host, u.port, u.scheme.None?)
    ensures var e := s + |a|;
      && AuthorityEnd(t) == e <= |t| && t[s..e] == a && t[e..] == m
      && AuthorityOf(a, s == 0) == Fields(u.userinfo, u.host, u.port, a)
  {
    AuthorityInMiddle(t, s, a, m);
    FieldsComeBack(u.userinfo, u.host, u.port, a, u.scheme.None?);
  }

  lemma StartStage(u: Uri)
    requires IsPrintable(u) && Survives(u)
    ensures var t, p := Printed(u), PartsOf(u);
      && SchemeOf(t) == u.scheme && AuthorityStart(t) == |p.scheme| <= |t| && t[|p.scheme|..] == p.authority + More(p)
      && (|p.scheme| == 0 <==> u.scheme.None?)
  {
    var t, p := Printed(u), PartsOf(u);
    var a, m := p.authority, More(p);
    PartsTogether(u);
    AuthorityParts(u);
    RestStarts(u);
    MoreStarts(u);
    if u.scheme.None? { NoSchemeInFront(a, m, a + m); assert t == a + m; }
    SchemeStage(p.scheme, a + m, t);
  }

  lemma SurvivorMore(u: Uri, t: string, e: nat)
    requires IsPrintable(u) && Survives(u) && e <= |t| && t[e..] == More(PartsOf(u))
    ensures MoreComesBack(t, e, u)
  {
    MoreStage(t, e, u);
  }

  lemma SurvivorStarts(u: Uri)
    requires IsPrintable(u) && Survives(u)
    ensures StartsWithDelimiter(More(PartsOf(u)))
  {
    hide PartsOf, More;
    MoreStarts(u);
  }

  lemma SurvivorStages(u: Uri, t: string, s: nat, a: string, m: string)
    requires IsPrintable(u) && Survives(u) && a == PartsOf(u).authority && m == More(PartsOf(u))
    requires SchemeOf(t) == u.scheme && AuthorityStart(t) == s <= |t| && t[s..] == a + m && (s == 0 <==> u.scheme.None?)
    ensures StagesComeBack(u, t, s, s + |a|, a)
  {
    hide AuthoritySurvives, AuthorityOf, MoreComesBack, HostPortText, UserText;
    hide SchemeOf, AuthorityStart, AuthorityEnd, More, PartsOf, Fields, SchemeEnd, PathSurvives, QuerySurvives;
    PartsTogether(u);
    AuthorityParts(u);
    SurvivorStarts(u);
    AuthorityStage(u, t, s, a, m);
    SurvivorMore(u, t, s + |a|);
  }

  /** A URI that survives is read back part by part. */
  lemma SurvivorsComeBack(u: Uri)
    requires IsPrintable(u) && Survives(u)
    ensures Parsed(Printed(u)) == WithAuthority(u) && Consumed(Printed(u)) == |Printed(u)|
  {
    hide *;
    var t, p := Printed(u), PartsOf(u);
    var s, a := |p.scheme|, p.authority;
    PartsTogether(u);
    StartStage(u);
    SurvivorStages(u, t, s, a, More(p));
    StagesTogether(u, t, s, s + |a|, a);
  }

  // The other direction

  lemma SchemeStaysInFront(a: string, m: string, t: string)
    requires t == a + m && SchemeEnd(a) > 0
    ensures SchemeEnd(t) > 0
  {
    var i := Find(a, 1, NotSchemeChar);
    assert forall k :: 0 <= k < |a| ==> t[k] == a[k];
    FindIs(t, 1, NotSchemeChar, i);
  }

  /** A parsed scheme that is the front of the text is in the parser's form. */
  lemma ParsedSchemeSurvives(s: string, t: string)
    requires s <= t && SchemeOf(t) == if s == "" then None else Some(s)
    ensures SchemeEnd(t) == |s| && (s != "" ==> IsSchemeText(s))
  {
    if s != "" {
      assert |s| == SchemeEnd(t) && t[..|s|] == s;
      LowerIsFixed(s);
      SchemeIsPrefix(t);
    }
  }

  /** Two slashes at the front of a path are skipped, so the path cannot come back. */
  lemma SlashesAreLost(t: string, e: nat, p: string, rest: string)
    requires IsBytes(p) && StartsWithSlashes(p) && StartsWithCut(rest) && e + 2 <= |t| && t[e..] == Encode(p) + rest
    ensures PathAt(t, e + 2) != Some(p)
  {
    var q := p[2..];
    assert p[1..][1..] == q;
    assert Encode(p) == "/" + Encode(p[1..]) && Encode(p[1..]) == "/" + Encode(q);
    assert t[e + 2..] == t[e..][2..] == Encode(q) + rest;
    EncodedStart(q);
    if q != "" && q[0] == '/' {
      var x, y := ScanPath(t, e + 2, q, rest);
      assert |q[..y]| < |p|;
    } else {
      Tail(t, e + 2, Encode(q), rest);
      assert CharAt(t, e + 2) != '/';
    }
  }

  lemma NoSlashesSkipped(u: Uri, t: string, s: nat)
    requires IsPrintable(u) && s <= |t| && t[s..] == More(PartsOf(u))
    requires SlashesAt(t, s) ==> PathAt(t, s + 2) == u.path
    ensures !SlashesAt(t, s)
  {
    var p := PartsOf(u);
    PartsTogether(u);
    MoreStarts(u);
    if SlashesAt(t, s) {
      assert t[s..][0] == t[s] && t[s..][1] == t[s + 1];
      assert p.path == Encode(u.path.value);
      SlashesAreLost(t, s, u.path.value, p.query + p.fragment);
    }
  }

  /** An authority that was parsed as it was printed stands right after the scheme. */
  lemma AuthorityIsInPlace(t: string, s: nat, start: nat, end: nat, a: string, m: string)
    requires s <= |t| && t[s..] == a + m && start == (if SlashesAt(t, s) then s + 2 else s)
    requires start <= end <= |t| && (forall i :: start <= i < end ==> !EndsAuthority(t[i])) && t[start..end] == a
    requires a == "" ==> !SlashesAt(t, s)
    ensures start == s && end == s + |a| && t[end..] == m && HasNoDelimiter(a)
  {
    assert forall i :: 0 <= i < |a| ==> a[i] == t[start + i];
    assert forall i :: 0 <= i < |a + m| ==> t[s + i] == (a + m)[i];
  }

  /** Where the printed authority stands in a text that was read back. */
  lemma AuthorityOfComeBack(u: Uri, t: string, s: string, a: string, m: string)
    requires IsPrintable(u) && t == s + (a + m) && m == More(PartsOf(u)) && SchemeEnd(t) == |s|
    requires t[AuthorityStart(t)..AuthorityEnd(t)] == a && PathAt(t, AuthorityEnd(t)) == u.path
    ensures AuthorityStart(t) == |s| && AuthorityEnd(t) == |s| + |a| && t[|s| + |a|..] == m && HasNoDelimiter(a)
    ensures a == "" ==> !StartsWithSlashes(m)
  {
    hide PathAt, More, SchemeEnd;
    assert t[|s|..] == a + m;
    if a == "" {
      assert a + m == m;
      NoSlashesSkipped(u, t, |s|);
      assert |m| >= 2 ==> t[|s|] == m[0] && t[|s| + 1] == m[1];
    }
    AuthorityIsInPlace(t, |s|, AuthorityStart(t), AuthorityEnd(t), a, m);
  }

  lemma PrintedScheme(u: Uri)
    requires IsPrintable(u) && u.scheme != Some("")
    ensures u.scheme == if PartsOf(u).scheme == "" then None else Some(PartsOf(u).scheme)
  {
    AuthorityParts(u);
  }

  lemma StagesApart(u: Uri, t: string)
    requires IsPrintable(u) && Parsed(t) == WithAuthority(u) && Consumed(t) == |t|
    ensures StagesComeBack(u, t, AuthorityStart(t), AuthorityEnd(t), AuthorityText(u))
  {
  }

  lemma ComeBackScheme(u: Uri, t: string, s: string, a: string, m: string)
    requires IsPrintable(u) && t == s + (a + m) && SchemeOf(t) == u.scheme && s == PartsOf(u).scheme
    ensures SchemeEnd(t) == |s| && (|s| == 0 <==> u.scheme.None?)
    ensures if u.scheme.Some? then IsSchemeText(u.scheme.value) else SchemeEnd(a) == 0
  {
    AuthorityParts(u);
    PrintedScheme(u);
    ParsedSchemeSurvives(s, t);
    if s == "" && SchemeEnd(a) > 0 { assert t == a + m; SchemeStaysInFront(a, m, t); }
  }

  lemma ComeBackMore(u: Uri, t: string, e: nat)
    requires IsPrintable(u) && e <= |t| && t[e..] == More(PartsOf(u)) && MoreComesBack(t, e, u)
    requires AuthorityText(u) == "" ==> !StartsWithSlashes(More(PartsOf(u)))
    ensures MoreSurvives(u) && (u.path.Some? ==> PathSurvives(u.path.value, AuthorityText(u) != ""))
  {
    MoreStage(t, e, u);
    MoreStarts(u);
  }

  lemma ComeBackAuthority(u: Uri, a: string)
    requires IsPrintable(u) && a == PartsOf(u).authority
    requires AuthorityOf(a, u.scheme.None?) == Fields(u.userinfo, u.host, u.port, a)
    ensures AuthoritySurvives(u.userinfo, u.host, u.port, u.scheme.None?)
  {
    AuthorityParts(u);
    FieldsComeBack(u.userinfo, u.host, u.port, a, u.scheme.None?);
  }

  lemma MoreHasPath(u: Uri, t: string)
    requires AuthorityEnd(t) <= |t| && MoreComesBack(t, AuthorityEnd(t), u)
    ensures PathAt(t, AuthorityEnd(t)) == u.path
  {
  }

  lemma ComeBacksSurvive(u: Uri, t: string)
    requires IsPrintable(u) && t == Printed(u)
    requires StagesComeBack(u, t, AuthorityStart(t), AuthorityEnd(t), AuthorityText(u))
    requires u.scheme.Some? || u.host.Some? || u.path.Some? || u.query.Some? || u.fragment.Some?
    ensures Survives(u)
  {
    hide SchemeOf, AuthorityStart, AuthorityEnd, AuthorityOf, Fields, MoreComesBack, More, PartsOf, Printed, PathAt;
    hide AuthoritySurvives, IsSchemeText, SchemeEnd, PathSurvives, QuerySurvives, HasNoDelimiter, StartsWithSlashes;
    var p := PartsOf(u);
    PartsTogether(u);
    MoreHasPath(u, t);
    ComeBackScheme(u, t, p.scheme, p.authority, More(p));
    AuthorityOfComeBack(u, t, p.scheme, p.authority, More(p));
    ComeBackAuthority(u, p.authority);
    ComeBackMore(u, t, AuthorityEnd(t));
  }

  /**
   The round trip. Printing a URI and parsing the text gives every component back, and the
   authority derived from them, exactly when the URI satisfies Survives.
   */
  lemma RoundTrip(u: Uri)
    requires IsPrintable(u)
    ensures Accepts(Printed(u)) && Parsed(Printed(u)) == WithAuthority(u) <==> Survives(u)
  {
    if Survives(u) { SurvivorsComeBack(u); }
    if Accepts(Printed(u)) && Parsed(Printed(u)) == WithAuthority(u) {
      StagesApart(u, Printed(u));
      ComeBacksSurvive(u, Printed(u));
    }
  }

  lemma CodedQuestionMark()
    ensures Decode("/a%3Fb") == "/a?b" && IsBytes("/a?b") && Encode("/a?b") == "/a?b"
    ensures Decode("/a") == "/a" && Decode("b") == "b"
  {
    assert "/a%3Fb"[1..] == "a%3Fb" && "a%3Fb"[1..] == "%3Fb" && "%3Fb"[3..] == "b" && "b"[1..] == "";
    assert IsEscape("%3Fb") && EscapedChar("%3Fb") == '?';
    assert Decode("b") == "b" && Decode("%3Fb") == "?b" && Decode("a%3Fb") == "a?b";
    assert "/a"[1..] == "a" && "a"[1..] == "" && Decode("a") == "a";
    assert "/a?b"[1..] == "a?b" && "a?b"[1..] == "?b" && "?b"[1..] == "b";
    assert Encode("b") == "b" && Encode("?b") == "?b" && Encode("a?b") == "a?b";
  }

  /** A text of a path and perhaps a query with one character or none. */
  lemma PathAlone(t: string, p: nat)
    requires 1 <= p <= |t| && t[0] == '/' && (|t| > 1 ==> t[1] != '/') && (p < |t| ==> |t| == p + 2 && t[p] == '?')
    requires forall k :: 1 <= k < p ==> t[k] != '?' && t[k] != '#'
    ensures Parsed(t) == Uri(None, None, None, None, None, Some(Decode(t[..p])),
                             if p < |t| then Some(Decode(t[p + 1..])) else None, None)
    ensures Consumed(t) == |t|
  {
    hide Decode;
    FindIs(t, 0, EndsAuthority, 0);
    FindIs(t, 1, EndsPath, p);
    assert SchemeEnd(t) == 0 && AuthorityStart(t) == 0 && AuthorityEnd(t) == 0 && t[0..0] == "";
    assert PathEnd(t, 0) == p && t[0..p] == t[..p];
    if p < |t| {
      FindIs(t, |t|, EndsQuery, |t|);
      assert QueryEnd(t, p) == |t| && (t + [NUL])[p + 1..|t|] == t[p + 1..];
    }
  }

  /** The parser itself stores a URI that its printer loses: a path that holds a question mark. */
  lemma CodedQuestionMarkIsLost()
    ensures var u := Uri(None, None, None, None, None, Some("/a?b"), None, None);
      Accepts("/a%3Fb") && Parsed("/a%3Fb") == u && IsPrintable(u) && !Survives(u)
      && Printed(u) == "/a?b" && Parsed("/a?b") == Uri(None, None, None, None, None, Some("/a"), Some("b"), None)
  {
    hide Decode, Encode, Parsed, Consumed, AuthoritySurvives;
    var u := Uri(None, None, None, None, None, Some("/a?b"), None, None);
    CodedQuestionMark();
    PathAlone("/a%3Fb", 6);
    PathAlone("/a?b", 2);
    assert "/a%3Fb"[..6] == "/a%3Fb" && "/a?b"[..2] == "/a" && "/a?b"[3..] == "b";
    assert "/a?b"[2] == '?';
  }
}
