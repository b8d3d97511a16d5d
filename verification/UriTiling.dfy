/** A text that parses is tiled by the raw slices of its components. */
module UriTiling {
  import opened Basics
  import opened Strings
  import opened PercentCoding
  import opened UriText

  /** The raw slices of a text. Optional slices do not include the character that introduces them. */
  datatype Slices = Slices(scheme: string, slashes: bool, authority: string, path: string,
                           query: Option<string>, fragment: Option<string>)

  function Lead(c: string, o: Option<string>): string {
    if o.Some? then c + o.value else ""
  }

  function Tiled(s: Slices): string {
    s.scheme + ((if s.slashes then "//" else "") +
    (s.authority + (s.path + (Lead("?", s.query) + Lead("#", s.fragment)))))
  }

  ghost predicate Without(s: string, p: char -> bool) {
    forall i :: 0 <= i < |s| ==> !p(s[i])
  }

  /** No slice holds a character that would have ended it. */
  ghost predicate WellCut(s: Slices) {
    && Without(s.authority, EndsAuthority)
    && (s.path != "" ==> s.path[0] == '/' && Without(s.path[1..], EndsPath))
    && (s.query.Some? ==> s.query.value != "" && Without(s.query.value[1..], EndsQuery))
    && (s.fragment.Some? ==> s.fragment.value != "")
  }

  function DecodeIf(o: Option<string>): Option<string> {
    if o.Some? then Some(Decode(o.value)) else None
  }

  function SlicesOf(t: string): Slices
    requires Consumed(t) == |t|
  {
    var s, a, e := SchemeEnd(t), AuthorityStart(t), AuthorityEnd(t);
    var p := PathEnd(t, e);
    var q := QueryEnd(t, p);
    Slices(t[..s], a != s, t[a..e], t[e..p], if q == p then None else Some(t[p + 1..q]),
           if q == |t| then None else Some(t[q + 1..]))
  }

  lemma Cut(t: string, i: nat, j: nat)
    requires i <= j <= |t|
    ensures t[i..] == t[i..j] + t[j..]
  {
  }

  lemma TailsTile(t: string, p: nat)
    requires p <= |t| && FragmentEnd(t, QueryEnd(t, p)) == |t|
    ensures var q := QueryEnd(t, p);
      && q <= |t|
      && t[p..] == (if q == p then "" else "?" + t[p + 1..q]) + (if q == |t| then "" else "#" + t[q + 1..])
      && (q != p ==> t[p] == '?' && p + 2 <= q && Without(t[p + 2..q], EndsQuery))
      && (q != |t| ==> t[q] == '#' && q + 1 < |t|)
  {
    var q := QueryEnd(t, p);
    Cut(t, p, q);
    if q != p { assert t[p..q] == "?" + t[p + 1..q]; }
    if q != |t| { assert t[q..] == "#" + t[q + 1..]; }
  }

  lemma FrontTiles(t: string)
    ensures var s, a := SchemeEnd(t), AuthorityStart(t); t[s..] == (if a != s then "//" else "") + t[a..]
  {
    hide SchemeEnd;
    var s, a := SchemeEnd(t), AuthorityStart(t);
    if a != s { assert t[s..a] == "//"; Cut(t, s, a); }
  }

  lemma Chain(t: string, s: nat, a: nat, e: nat, p: nat, slashes: string, rest: string)
    requires s <= a <= e <= p <= |t| && t[s..] == slashes + t[a..] && t[p..] == rest
    ensures t == t[..s] + (slashes + (t[a..e] + (t[e..p] + rest)))
  {
    Cut(t, e, p);
    Cut(t, a, e);
    assert t == t[..s] + t[s..];
  }

  lemma SlicesRebuild(t: string)
    requires Consumed(t) == |t|
    ensures Tiled(SlicesOf(t)) == t
  {
    hide SchemeEnd, AuthorityStart, AuthorityEnd, PathEnd, QueryEnd;
    var s, a, e := SchemeEnd(t), AuthorityStart(t), AuthorityEnd(t);
    var p := PathEnd(t, e);
    var sl := SlicesOf(t);
    FrontTiles(t);
    TailsTile(t, p);
    Chain(t, s, a, e, p, if sl.slashes then "//" else "", Lead("?", sl.query) + Lead("#", sl.fragment));
  }

  lemma FindCuts(t: string, i: nat, p: char -> bool)
    requires i <= |t|
    ensures Without(t[i..Find(t, i, p)], p)
  {
  }

  lemma AuthorityIsWellCut(t: string)
    ensures Without(t[AuthorityStart(t)..AuthorityEnd(t)], EndsAuthority)
  {
    hide AuthorityStart;
    FindCuts(t, AuthorityStart(t), EndsAuthority);
  }

  lemma PathIsWellCut(t: string, e: nat)
    requires e <= |t| && PathEnd(t, e) != e
    ensures var path := t[e..PathEnd(t, e)]; path != "" && path[0] == '/' && Without(path[1..], EndsPath)
  {
    var p := PathEnd(t, e);
    FindCuts(t, e + 1, EndsPath);
    assert t[e..p][1..] == t[e + 1..p];
  }

  lemma SlicesAreWellCut(t: string)
    requires Consumed(t) == |t|
    ensures WellCut(SlicesOf(t))
  {
    hide SchemeEnd, AuthorityStart, AuthorityEnd, PathEnd, QueryEnd, Without;
    var e := AuthorityEnd(t);
    var p := PathEnd(t, e);
    var q := QueryEnd(t, p);
    AuthorityIsWellCut(t);
    TailsTile(t, p);
    if q != p { assert t[p + 1..q][1..] == t[p + 2..q]; }
    if p != e { PathIsWellCut(t, e); }
  }

  lemma SlicesAreStored(t: string)
    requires Consumed(t) == |t|
    ensures var s := SlicesOf(t);
      && Parsed(t).scheme == (if s.scheme == "" then None else Some(ToLower(s.scheme)))
      && Parsed(t).authority == (if s.authority == "" then None else Some(s.authority))
      && Parsed(t).path == (if s.path == "" then None else Some(Decode(s.path)))
      && Parsed(t).query == DecodeIf(s.query)
      && Parsed(t).fragment == DecodeIf(s.fragment)
  {
    hide Decode, ToLower, HostAndPort, HostPartOf, UserInfo, SchemeEnd, AuthorityStart, AuthorityEnd, PathEnd, QueryEnd;
    var p := PathEnd(t, AuthorityEnd(t));
    var q := QueryEnd(t, p);
    TailsTile(t, p);
    if q != p { assert (t + [NUL])[p + 1..q] == t[p + 1..q]; }
  }

  /** The slices rebuild the text, are well cut, and the stored components are what they decode to. */
  lemma Tiling(t: string)
    requires Accepts(t)
    ensures var s := SlicesOf(t);
      && Tiled(s) == t && WellCut(s)
      && Parsed(t).scheme == (if s.scheme == "" then None else Some(ToLower(s.scheme)))
      && Parsed(t).authority == (if s.authority == "" then None else Some(s.authority))
      && Parsed(t).path == (if s.path == "" then None else Some(Decode(s.path)))
      && Parsed(t).query == DecodeIf(s.query)
      && Parsed(t).fragment == DecodeIf(s.fragment)
  {
    hide SlicesOf, Parsed, Tiled, WellCut;
    SlicesRebuild(t);
    SlicesAreWellCut(t);
    SlicesAreStored(t);
  }

  /** Parsing stops short of the end only at a question mark or a number sign that ends the text. */
  lemma StopsOnlyAtTheEnd(t: string)
    ensures Consumed(t) == |t| || (t != "" && (t[|t| - 1] == '?' || t[|t| - 1] == '#') && Consumed(t) >= |t| - 1)
  {
  }
}
