/** The grammar of texts that the URI parser reads to their end, by the literal characters of its parts. */
module UriSyntax {
  import opened Basics
  import opened Strings
  import opened UriText
  import opened UriTiling
  import opened Alphabets

  /** A letter and then letters, plus signs, hyphens and dots. */
  ghost predicate SchemeName(name: string) {
    && name != "" && (name[0] in UPPER || name[0] in LOWER)
    && forall i :: 0 <= i < |name| ==> name[i] in UPPER || name[i] in LOWER || name[i] in "+-."
  }

  lemma SchemeChars(c: char)
    ensures IsLetter(c) <==> c in UPPER || c in LOWER
    ensures IsSchemeChar(c) <==> c in UPPER || c in LOWER || c in "+-."
    ensures !IsSchemeChar(':')
  {
    hide UPPER, LOWER;
    Letters(c);
    assert c in "+-." <==> c == '+' || c == '-' || c == '.';
  }

  /** A scheme is read up to its colon, and two slashes behind that belong to it. */
  lemma SchemeReads(name: string, rest: string)
    requires SchemeName(name)
    ensures SchemeEnd(name + ":" + rest) == |name| + if SlashesAt(rest, 0) then 3 else 1
  {
    hide UPPER, LOWER, IsSchemeChar, IsLetter;
    var t := name + ":" + rest;
    forall i | 0 <= i < |name|
      ensures IsSchemeChar(t[i]) && (i == 0 ==> IsLetter(t[i]))
    {
      assert t[i] == name[i];
      SchemeChars(t[i]);
    }
    SchemeChars(':');
    assert t[|name|] == ':' && forall i :: 0 <= i < |rest| ==> t[|name| + 1 + i] == rest[i];
    FindIs(t, 1, NotSchemeChar, |name|);
  }

  /** A text has a scheme exactly if it starts with a scheme name and a colon. */
  lemma SchemeExactly(t: string)
    ensures SchemeEnd(t) > 0 <==> exists name, rest :: SchemeName(name) && t == name + ":" + rest
  {
    hide UPPER, LOWER, IsSchemeChar, IsLetter, SchemeName;
    if SchemeEnd(t) > 0 { var name := NameOf(t); }
    forall name, rest | SchemeName(name) && t == name + ":" + rest
      ensures SchemeEnd(t) > 0
    {
      SchemeReads(name, rest);
    }
  }

  lemma NameOf(t: string) returns (name: string)
    requires SchemeEnd(t) > 0
    ensures |name| < |t| && SchemeName(name) && t == name + ":" + t[|name| + 1..]
  {
    hide UPPER, LOWER, IsSchemeChar, IsLetter;
    var i := Find(t, 1, NotSchemeChar);
    name := t[..i];
    forall k | 0 <= k < i
      ensures name[k] in UPPER || name[k] in LOWER || name[k] in "+-."
      ensures k == 0 ==> name[k] in UPPER || name[k] in LOWER
    {
      SchemeChars(t[k]);
    }
  }

  // All parts

  /** The parts hold none of the characters that end them. */
  ghost predicate Parts(s: Slices) {
    && (forall i :: 0 <= i < |s.authority| ==> s.authority[i] != '/' && s.authority[i] != '?' && s.authority[i] != '#')
    && (s.path != "" ==> s.path[0] == '/')
    && (forall i :: 0 <= i < |s.path| ==> s.path[i] != '?' && s.path[i] != '#')
    && (s.query.Some? ==> s.query.value != "")
    && (s.query.Some? ==> forall i :: 1 <= i < |s.query.value| ==> s.query.value[i] != '#')
    && (s.fragment.Some? ==> s.fragment.value != "")
  }

  /** What follows the scheme. */
  function Hierarchy(s: Slices): string {
    (if s.slashes then "//" else "") + (s.authority + (s.path + (Lead("?", s.query) + Lead("#", s.fragment))))
  }

  /**
   The scheme is a name with ":" or "://" and all that there is to read of one. Without a
   scheme, the rest does not start like one.
   */
  ghost predicate SchemeFits(s: Slices) {
    if s.scheme == "" then !exists name, rest :: SchemeName(name) && Hierarchy(s) == name + ":" + rest
    else
      exists name :: SchemeName(name) &&
        (s.scheme == name + "://" || (s.scheme == name + ":" && !SlashesAt(Hierarchy(s), 0)))
  }

  /** Two slashes in front of the authority are not taken for the start of a path. */
  predicate SlashesFit(s: Slices) {
    !s.slashes && s.authority == "" ==> !SlashesAt(s.path, 0)
  }

  lemma PartsAreWellCut(s: Slices)
    ensures Parts(s) <==> WellCut(s)
  {
    if WellCut(s) && s.path != "" {
      assert forall i :: 1 <= i < |s.path| ==> s.path[i] == s.path[1..][i - 1];
    }
    if WellCut(s) && s.query.Some? {
      var q := s.query.value;
      assert forall i :: 1 <= i < |q| ==> q[i] == q[1..][i - 1];
    }
  }

  lemma SchemeIsRead(s: Slices)
    ensures SchemeFits(s) <==> SchemeEnd(Tiled(s)) == |s.scheme|
  {
    hide SchemeName, SchemeEnd;
    var t, h := Tiled(s), Hierarchy(s);
    assert t == s.scheme + h;
    if s.scheme == "" {
      assert t == h;
      SchemeExactly(h);
    } else {
      if SchemeFits(s) {
        var name :| SchemeName(name) &&
          (s.scheme == name + "://" || (s.scheme == name + ":" && !SlashesAt(h, 0)));
        if s.scheme == name + "://" {
          assert t == name + ":" + ("//" + h);
          SchemeReads(name, "//" + h);
        } else {
          SchemeReads(name, h);
        }
      }
      if SchemeEnd(t) == |s.scheme| {
        var name := NameOf(t);
        var rest := t[|name| + 1..];
        SchemeReads(name, rest);
        SchemeSlice(s.scheme, h, t, name, rest);
      }
    }
  }

  lemma SchemeSlice(scheme: string, h: string, t: string, name: string, rest: string)
    requires t == scheme + h == name + ":" + rest && |scheme| == |name| + if SlashesAt(rest, 0) then 3 else 1
    ensures scheme == name + "://" || (scheme == name + ":" && !SlashesAt(h, 0))
  {
    assert scheme == t[..|scheme|];
    if SlashesAt(rest, 0) {
      assert t[|name| + 1] == rest[0] && t[|name| + 2] == rest[1];
      assert t[..|name| + 3] == name + "://";
    } else {
      assert t[..|name| + 1] == name + ":" && h == t[|name| + 1..] == rest;
    }
  }

  // From the parts to the text

  /** At position i stands x, and rest behind it. */
  predicate Stands(t: string, i: nat, x: string, rest: string) {
    i <= |t| && t[i..] == x + rest
  }

  lemma Next(t: string, i: nat, x: string, rest: string)
    requires Stands(t, i, x, rest)
    ensures i + |x| <= |t| && t[i..i + |x|] == x && t[i + |x|..] == rest
    ensures CharAt(t, i + |x|) == CharAt(rest, 0)
    ensures forall k :: 0 <= k < |x| ==> t[i + k] == x[k]
  {
    assert forall k :: 0 <= k < |x + rest| ==> t[i + k] == (x + rest)[k];
  }

  lemma ReadQuery(t: string, p: nat, query: Option<string>, rest: string)
    requires Stands(t, p, Lead("?", query), rest) && (rest == "" || rest[0] == '#')
    requires query.Some? ==> query.value != "" && forall i :: 1 <= i < |query.value| ==> query.value[i] != '#'
    ensures QueryEnd(t, p) == p + |Lead("?", query)| <= |t|
    ensures query.Some? ==> QueryEnd(t, p) != p && t[p + 1..QueryEnd(t, p)] == query.value
  {
    var x := Lead("?", query);
    Next(t, p, x, rest);
    if query.Some? {
      var q := p + |x|;
      assert forall k :: p + 2 <= k < q ==> t[k] == x[k - p] == query.value[k - p - 1];
      FindIs(t, p + 2, EndsQuery, q);
      assert t[p + 1..q] == t[p..q][1..] == query.value;
    }
  }

  lemma ReadFragment(t: string, q: nat, fragment: Option<string>)
    requires Stands(t, q, Lead("#", fragment), "") && (fragment.Some? ==> fragment.value != "")
    ensures FragmentEnd(t, q) == |t| && (fragment.None? <==> q == |t|)
    ensures fragment.Some? ==> t[q + 1..] == fragment.value
  {
    var x := Lead("#", fragment);
    Next(t, q, x, "");
    assert x + "" == x;
    if fragment.Some? { assert t[q + 1..] == t[q..][1..]; }
  }

  lemma ReadPath(t: string, e: nat, path: string, rest: string)
    requires Stands(t, e, path, rest) && (rest == "" || rest[0] == '?' || rest[0] == '#')
    requires path != "" ==> path[0] == '/'
    requires forall i :: 0 <= i < |path| ==> path[i] != '?' && path[i] != '#'
    ensures PathEnd(t, e) == e + |path| <= |t|
  {
    Next(t, e, path, rest);
    if path != "" {
      assert forall k :: e <= k < e + |path| ==> t[k] == path[k - e];
      FindIs(t, e + 1, EndsPath, e + |path|);
    }
  }

  lemma ReadAuthority(t: string, a: nat, authority: string, rest: string)
    requires Stands(t, a, authority, rest) && (rest == "" || rest[0] == '/' || rest[0] == '?' || rest[0] == '#')
    requires forall i :: 0 <= i < |authority| ==> authority[i] != '/' && authority[i] != '?' && authority[i] != '#'
    ensures Find(t, a, EndsAuthority) == a + |authority| <= |t|
  {
    Next(t, a, authority, rest);
    assert forall k :: a <= k < a + |authority| ==> t[k] == authority[k - a];
    FindIs(t, a, EndsAuthority, a + |authority|);
  }

  lemma ReadSlashes(s: Slices)
    requires Parts(s) && SlashesFit(s)
    ensures SlashesAt(Hierarchy(s), 0) <==> s.slashes
  {
    var more := Lead("?", s.query) + Lead("#", s.fragment);
    var rest := s.path + more;
    if !s.slashes {
      var h := "" + (s.authority + rest);
      assert h == s.authority + rest;
      if s.authority != "" {
        assert h[0] == s.authority[0];
      } else {
        assert h == rest;
        if s.path != "" { assert rest[0] == s.path[0]; }
        if |s.path| > 1 {
          assert rest[1] == s.path[1];
        } else if |s.path| == 1 && more != "" {
          assert rest[1] == more[0];
        }
      }
    }
  }

  /** What follows the authority. */
  function Behind(s: Slices): string {
    s.path + (Lead("?", s.query) + Lead("#", s.fragment))
  }

  lemma StartIsRead(s: Slices)
    requires Parts(s) && SchemeFits(s) && SlashesFit(s)
    ensures var (t, i) := (Tiled(s), |s.scheme|);
      var a := i + if s.slashes then 2 else 0;
      && SchemeEnd(t) == i && AuthorityStart(t) == a && i <= |t| && t[..i] == s.scheme
      && Stands(t, a, s.authority, Behind(s))
  {
    hide SchemeEnd, SchemeFits, Parts, SlashesFit, Behind;
    var t, i, h := Tiled(s), |s.scheme|, Hierarchy(s);
    TiledIs(s);
    SchemeIsRead(s);
    ReadSlashes(s);
    hide Tiled, Hierarchy;
    Next(t, 0, s.scheme, h);
    SlashesMove(t, i, h);
    Next(t, i, if s.slashes then "//" else "", s.authority + Behind(s));
    assert t[..i] == t[0..i];
  }

  lemma TiledIs(s: Slices)
    ensures Stands(Tiled(s), 0, s.scheme, Hierarchy(s))
    ensures Hierarchy(s) == (if s.slashes then "//" else "") + (s.authority + Behind(s))
  {
    assert Tiled(s)[0..] == Tiled(s);
  }

  lemma FrontIsRead(s: Slices)
    requires Parts(s) && SchemeFits(s) && SlashesFit(s)
    ensures var (t, i) := (Tiled(s), |s.scheme|);
      var a := i + if s.slashes then 2 else 0;
      var e := a + |s.authority|;
      && SchemeEnd(t) == i && AuthorityStart(t) == a && AuthorityEnd(t) == e <= |t|
      && t[..i] == s.scheme && t[a..e] == s.authority
      && Stands(t, e, s.path, Lead("?", s.query) + Lead("#", s.fragment))
  {
    hide SchemeEnd, SchemeFits, Lead, Parts, SlashesFit, Tiled, AuthorityStart, Find;
    var t, a := Tiled(s), AuthorityStart(Tiled(s));
    StartIsRead(s);
    AuthorityPart(s);
    LeadStarts(s);
    ReadAuthority(t, a, s.authority, Behind(s));
    Next(t, a, s.authority, Behind(s));
  }

  lemma AuthorityPart(s: Slices)
    requires Parts(s)
    ensures forall i {:trigger s.authority[i]} ::
              0 <= i < |s.authority| ==> s.authority[i] != '/' && s.authority[i] != '?' && s.authority[i] != '#'
  {
  }

  lemma BackIsRead(t: string, e: nat, s: Slices)
    requires Parts(s) && Stands(t, e, s.path, Lead("?", s.query) + Lead("#", s.fragment))
    ensures var p := PathEnd(t, e);
      var q := QueryEnd(t, p);
      && q <= |t| && FragmentEnd(t, q) == |t| && t[e..p] == s.path
      && (if q == p then s.query.None? else s.query == Some(t[p + 1..q]))
      && (if q == |t| then s.fragment.None? else s.fragment == Some(t[q + 1..]))
  {
    hide PathEnd, QueryEnd, FragmentEnd, Lead;
    var query, fragment := Lead("?", s.query), Lead("#", s.fragment);
    LeadStarts(s);
    LeadSize(s);
    ReadPath(t, e, s.path, query + fragment);
    Next(t, e, s.path, query + fragment);
    var p := e + |s.path|;
    ReadQuery(t, p, s.query, fragment);
    Next(t, p, query, fragment);
    assert fragment + "" == fragment;
    ReadFragment(t, p + |query|, s.fragment);
  }

  /** Parts that fit together are read back as they are. */
  lemma PartsAreRead(s: Slices)
    requires Parts(s) && SchemeFits(s) && SlashesFit(s)
    ensures Consumed(Tiled(s)) == |Tiled(s)| && SlicesOf(Tiled(s)) == s
  {
    hide Tiled, Parts, SchemeFits, SlashesFit, Stands, SchemeEnd, AuthorityStart, AuthorityEnd;
    hide PathEnd, QueryEnd, FragmentEnd;
    FrontIsRead(s);
    BackIsRead(Tiled(s), AuthorityEnd(Tiled(s)), s);
  }

  lemma SlashesMove(t: string, i: nat, h: string)
    requires i <= |t| && t[i..] == h
    ensures SlashesAt(t, i) == SlashesAt(h, 0)
  {
    if |h| > 1 { assert t[i] == h[0] && t[i + 1] == h[1]; }
  }

  lemma LeadStarts(s: Slices)
    requires Parts(s)
    ensures var (f, m) := (Lead("#", s.fragment), Lead("?", s.query) + Lead("#", s.fragment));
      && (f == "" || f[0] == '#') && (m == "" || m[0] == '?' || m[0] == '#')
      && (s.path + m == "" || (s.path + m)[0] == '/' || (s.path + m)[0] == '?' || (s.path + m)[0] == '#')
  {
    if s.path != "" { assert (s.path + (Lead("?", s.query) + Lead("#", s.fragment)))[0] == s.path[0]; }
  }

  lemma LeadSize(s: Slices)
    ensures s.query.None? <==> Lead("?", s.query) == ""
  {
  }

  /**
   The grammar, both ways. A text is read to its end, with these raw slices, exactly if they
   make it up, hold none of the characters that end them, and fit together.
   */
  lemma SlicesExactly(t: string, s: Slices)
    ensures Consumed(t) == |t| && SlicesOf(t) == s <==>
      t == Tiled(s) && Parts(s) && SchemeFits(s) && SlashesFit(s)
  {
    hide SchemeFits, Parts, SlashesFit, Tiled, SlicesOf, Consumed, WellCut;
    if t == Tiled(s) && Parts(s) && SchemeFits(s) && SlashesFit(s) { PartsAreRead(s); }
    if Consumed(t) == |t| && SlicesOf(t) == s {
      SlicesRebuild(t);
      SlicesAreWellCut(t);
      PartsAreWellCut(s);
      SchemeIsRead(s);
      SlicesFit(t);
    }
  }

  lemma SlicesFit(t: string)
    requires Consumed(t) == |t|
    ensures |SlicesOf(t).scheme| == SchemeEnd(t) && SlashesFit(SlicesOf(t))
  {
    hide SchemeEnd, AuthorityEnd, PathEnd, QueryEnd;
    var a, e := AuthorityStart(t), AuthorityEnd(t);
    var p := PathEnd(t, e);
    TailsTile(t, p);
    if a == SchemeEnd(t) && a == e && |t[e..p]| > 1 { assert t[e..p][0] == t[e] && t[e..p][1] == t[e + 1]; }
  }
}
