/** Which texts parse to a URI that its printer and the parser give back. */
module UriSurvival {
  import opened Basics
  import opened Strings
  import opened Numbers
  import opened PercentCoding
  import opened UriText
  import opened UriTiling
  import opened UriAuthority
  import opened UriRoundTrip

  // Coded characters

  /** An escape of the text stands for c. */
  ghost predicate Codes(s: string, c: char) {
    exists i :: 0 <= i < |s| && IsEscape(s[i..]) && EscapedChar(s[i..]) == c
  }

  /** Neither a percent sign nor a hexadecimal digit, so never part of an escape. */
  predicate OutsideEscapes(c: char) { c != '%' && HexValue(c).None? }

  lemma CodesTail(s: string, n: nat, c: char)
    requires n <= |s| && forall i :: 0 < i < n ==> s[i] != '%'
    requires n > 0 && (s[0] == '%' && IsEscape(s) ==> EscapedChar(s) != c)
    ensures Codes(s, c) <==> Codes(s[n..], c)
  {
    if Codes(s, c) {
      var i :| 0 <= i < |s| && IsEscape(s[i..]) && EscapedChar(s[i..]) == c;
      assert s[0..] == s && s[i..][0] == s[i];
      assert s[n..][i - n..] == s[i..];
    }
    if Codes(s[n..], c) {
      var i :| 0 <= i < |s[n..]| && IsEscape(s[n..][i..]) && EscapedChar(s[n..][i..]) == c;
      assert s[n..][i..] == s[n + i..];
    }
  }

  /** A decoded text holds such a character just if the text holds or codes it. */
  lemma {:induction false} DecodedHolds(s: string, c: char)
    requires OutsideEscapes(c)
    ensures c in Decode(s) <==> c in s || Codes(s, c)
    decreases |s|
  {
    hide EscapedChar, Codes;
    if s == "" {
      NothingCoded(c);
    } else if IsEscape(s) {
      DecodedHolds(s[3..], c);
      assert s == s[..3] + s[3..] && c !in s[..3];
      EscapeCoded(s, c);
    } else {
      DecodedHolds(s[1..], c);
      assert s == [s[0]] + s[1..];
      CodesTail(s, 1, c);
    }
  }

  lemma NothingCoded(c: char)
    ensures !Codes("", c)
  {
  }

  lemma EscapeCoded(s: string, c: char)
    requires IsEscape(s)
    ensures Codes(s, c) <==> EscapedChar(s) == c || Codes(s[3..], c)
  {
    if EscapedChar(s) == c {
      assert s[0..] == s;
    } else {
      CodesTail(s, 3, c);
    }
  }

  /** The same for what follows the first decoded character. */
  lemma DecodedTailHolds(s: string, c: char)
    requires s != "" && OutsideEscapes(c) && c !in s[1..]
    ensures Decode(s) != "" && (c in Decode(s)[1..] <==> Codes(s[1..], c))
  {
    hide Codes, EscapedChar;
    if IsEscape(s) {
      DecodedHolds(s[3..], c);
      assert forall i :: 3 <= i < |s| ==> s[i] == s[1..][i - 1];
      assert s[1..][2..] == s[3..];
      CodesTail(s[1..], 2, c);
    } else {
      DecodedHolds(s[1..], c);
    }
  }

  /** Behind its slash, the path goes on with a slash or codes one. */
  predicate GoesOnWithSlash(p: string) {
    |p| > 1 && (p[1] == '/' || (IsEscape(p[1..]) && EscapedChar(p[1..]) == '/'))
  }

  lemma DecodedSlashes(p: string)
    requires p != "" && p[0] == '/'
    ensures Decode(p) != "" && Decode(p)[0] == '/' && (StartsWithSlashes(Decode(p)) <==> GoesOnWithSlash(p))
  {
    assert Decode(p) == ['/'] + Decode(p[1..]);
    if |p| > 1 { assert p[1..] != "" && p[1..][0] == p[1]; }
  }

  // Ports

  predicate IsDigit(c: char) { '0' <= c <= '9' }

  /** A decimal number without leading zeros. */
  predicate IsCanonical(s: string) {
    s != "" && (forall i :: 0 <= i < |s| ==> IsDigit(s[i])) && (s[0] == '0' ==> |s| == 1)
  }

  lemma DigitChar(c: char)
    requires IsDigit(c)
    ensures DigitValue(c) < 10 && (DigitValue(c) + '0' as int) as char == c && (DigitValue(c) == 0 <==> c == '0')
    ensures Value("", 10) == 0
  {
  }

  lemma {:induction false} DecimalOfValue(s: string)
    requires IsCanonical(s)
    ensures Decimal(Value(s, 10)) == s && (Value(s, 10) == 0 <==> s == "0")
    decreases |s|
  {
    hide Decimal, Value, DigitValue;
    var front, last := s[..|s| - 1], s[|s| - 1];
    assert s == front + [last];
    DigitChar(last);
    ValueSnoc(front, last, 10);
    if front != "" { DecimalOfValue(front); }
    var v, d := Value(front, 10), DigitValue(last);
    assert Value(s, 10) == v * 10 + d && (v * 10 + d) / 10 == v && (v * 10 + d) % 10 == d;
    LastDigit(v * 10 + d);
    assert front == "" || front != "0";
  }

  /** A port is stored as it is printed just if its text is canonical. */
  lemma PortIsCanonical(text: string)
    requires PortOf(text).Some?
    ensures text == Decimal(PortOf(text).value.number) <==> IsCanonical(text)
  {
    hide ScanAnyBase, Decimal;
    var n := PortOf(text).value.number;
    if text == Decimal(n) { DecimalShape(n); }
    if IsCanonical(text) {
      DecimalOfValue(text);
      ScanDecimal(Value(text, 10));
    }
  }

  lemma LowerDigit(c: char)
    ensures DigitValue(LowerChar(c)) == DigitValue(c) && (LowerChar(c) == '0' <==> c == '0')
    ensures (LowerChar(c) == 'x' <==> c == 'x' || c == 'X') && LowerChar(c) != 'X'
    ensures IsSpace(LowerChar(c)) == IsSpace(c)
    ensures (LowerChar(c) == '-' <==> c == '-') && (LowerChar(c) == '+' <==> c == '+')
  {
  }

  lemma {:induction false} LowerDigitsEnd(s: string, i: nat, base: nat)
    requires i <= |s|
    ensures DigitsEnd(ToLower(s), i, base) == DigitsEnd(s, i, base)
    decreases |s| - i
  {
    if i < |s| {
      LowerDigit(s[i]);
      LowerDigitsEnd(s, i + 1, base);
    }
  }

  lemma {:induction false} SameValue(s: string, r: string, base: nat)
    requires |s| == |r| && forall i :: 0 <= i < |s| ==> DigitValue(s[i]) == DigitValue(r[i])
    ensures Value(s, base) == Value(r, base)
    decreases |s|
  {
    if s != "" { SameValue(s[..|s| - 1], r[..|r| - 1], base); }
  }

  lemma LowerScanDigits(s: string, i: nat, base: nat, negative: bool)
    requires i <= |s|
    ensures ScanDigits(ToLower(s), i, base, negative) == ScanDigits(s, i, base, negative)
  {
    var r, end := ToLower(s), DigitsEnd(s, i, base);
    LowerDigitsEnd(s, i, base);
    forall k | 0 <= k < end - i
      ensures DigitValue(s[i..end][k]) == DigitValue(r[i..end][k])
    {
      LowerDigit(s[i + k]);
    }
    SameValue(s[i..end], r[i..end], base);
  }

  lemma LowerStart(s: string)
    ensures DigitsStart(ToLower(s)) == DigitsStart(s) && IsNegative(ToLower(s)) == IsNegative(s)
  {
    hide LowerChar, IsSpace;
    var r, w := ToLower(s), Find(s, 0, NotSpace);
    forall k | 0 <= k < |s|
      ensures NotSpace(r[k]) == NotSpace(s[k]) && (r[k] == '-' <==> s[k] == '-') && (r[k] == '+' <==> s[k] == '+')
    {
      LowerDigit(s[k]);
    }
    FindIs(r, 0, NotSpace, w);
  }

  /** Lower-casing does not change whether a text is a port. */
  lemma LowerPort(s: string)
    ensures PortOf(ToLower(s)).None? <==> PortOf(s).None?
  {
    hide ScanDigits, DigitsStart, IsNegative, ToLower, LowerChar;
    LowerStart(s);
    var i := DigitsStart(s);
    if i < |s| { LowerDigit(s[i]); }
    if i + 1 < |s| { LowerDigit(s[i + 1]); }
    var base := DetectBase(s, i);
    LowerScanDigits(s, i, base, IsNegative(s));
    if i + 2 <= |s| { LowerScanDigits(s, i + 2, 16, IsNegative(s)); }
  }

  // The authority

  lemma LowerTwice(s: string)
    ensures ToLower(ToLower(s)) == ToLower(s)
  {
  }

  /** A trimmed text is a part of the text that does not start or end with what was trimmed. */
  lemma TrimInside(s: string, find: string) returns (i: nat, j: nat)
    ensures i <= j <= |s| && Trim(s, find) == s[i..j] && IsTrimmed(Trim(s, find), find)
    ensures s != "" && s[0] !in find && s[0] != NUL ==> i == 0
  {
    hide LastNotOf;
    var t := TrimStart(s, find);
    var h := TrimEnd(t, find);
    i, j := 0, 0;
    if h != "" {
      i := FirstNotOf(s, find, 0).value;
      j := i + |h|;
      assert t == s[i..] && h == t[..|h|];
    }
  }

  lemma NoBlank(c: char)
    ensures c in BLANKS <==> c == ' ' || c == '\t'
  {
  }

  lemma LowerInside(s: string, i: nat, j: nat)
    requires i <= j <= |s|
    ensures IsLowerCase(ToLower(s)[i..j])
  {
    var r := ToLower(s)[i..j];
    forall k | 0 <= k < |r|
      ensures !IsUpper(r[k])
    {
      assert r[k] == LowerChar(s[i + k]);
    }
  }

  /** A cleaned host is part of the lower-cased text, from its start if that is a colon. */
  lemma Cleaned(raw: string) returns (i: nat, j: nat)
    ensures i <= j <= |raw| && CleanHost(raw) == ToLower(raw)[i..j] && (raw != "" && raw[0] == ':' ==> i == 0)
    ensures IsLowerCase(CleanHost(raw)) && IsTrimmed(CleanHost(raw), BLANKS)
  {
    hide Trim, IsLowerCase;
    i, j := TrimInside(ToLower(raw), BLANKS);
    LowerInside(raw, i, j);
    if raw != "" && raw[0] == ':' {
      assert ToLower(raw)[0] == ':';
      NoBlank(':');
    }
  }

  /** The part of an authority behind the user info. */
  function AfterUser(a: string): string {
    a[HostStart(a)..]
  }

  lemma PartIsCut(a: string, atStart: bool)
    ensures HostPartOf(a, atStart) == CutHost(AfterUser(a), UserInfo(a).Some?, atStart)
    ensures UserInfo(a).Some? ==> '@' !in UserInfo(a).value && UserInfo(a).value + "@" + AfterUser(a) == a
    ensures UserInfo(a).None? ==> '@' !in a && AfterUser(a) == a
  {
    hide CutHost, FindLast, PortSeparator;
    var u := Find(a, 0, IsAt);
    NoAt(a);
    if u < |a| {
      assert '@' !in a[..u];
      WithUser(a, u, a[u + 1..], atStart);
      assert a == a[..u] + "@" + a[u + 1..];
    } else {
      assert a[0..] == a;
      WithoutUser(a, atStart);
    }
  }

  lemma LastColonIs(h: string, k: nat)
    requires k < |h| && h[k] == ':' && forall i :: k < i < |h| ==> h[i] != ':'
    ensures FindLast(h, 0, |h|, ':') == Some(k)
  {
    var r := FindLast(h, 0, |h|, ':');
    if r.Some? { assert h[r.value] == ':'; }
  }

  /** A cleaned host without a separator comes back. */
  lemma WholeHostSurvives(r: string, hasUser: bool, atStart: bool)
    requires CleanHost(r) != ""
    requires var k := FindLast(r, 0, |r|, ':'); k.None? || (k.value == 0 && (hasUser || atStart))
    ensures HostPortSurvives(Some(CleanHost(r)), None, hasUser, atStart)
  {
    hide CleanHost, IsTrimmed, IsLowerCase, FindLast;
    var i, j := Cleaned(r);
    var h := CleanHost(r);
    var k := FindLast(r, 0, |r|, ':');
    forall n | 0 <= n < |h|
      ensures h[n] == ':' <==> k.Some? && i + n == k.value
    {
      assert h[n] == ToLower(r)[i + n] == LowerChar(r[i + n]);
    }
    if k.Some? { LastColonIs(h, 0); }
  }

  /** A host whose last colon introduces no port comes back, as it is stored with that colon. */
  lemma UncutHostSurvives(r: string, k: nat, hasUser: bool, atStart: bool)
    requires FindLast(r, 0, |r|, ':') == Some(k) && CleanHost(r[..k]) != "" && PortOf(r[k + 1..]).None?
    ensures HostPortSurvives(Some(ToLower(r)), None, hasUser, atStart)
  {
    hide Trim, PortOf, FindLast, IsTrimmed;
    var h := ToLower(r);
    LowerTwice(r[..k]);
    assert h[..k] == ToLower(r[..k]) && h[k + 1..] == ToLower(r[k + 1..]);
    LowerPort(r[k + 1..]);
    LastColonIs(h, k);
    LowerInside(r, 0, |r|);
    assert h[0..|r|] == h;
    CleanNothing();
    assert r[..0] == "";
  }

  lemma CleanNothing()
    ensures CleanHost("") == ""
  {
  }

  /** Host and port of any authority part come back, unless the port is not canonical. */
  lemma PartSurvives(r: string, hasUser: bool, start: bool, atStart: bool)
    requires start ==> atStart
    ensures var (host, port) := HostAndPort(CutHost(r, hasUser, start));
      HostPortSurvives(host, port, hasUser, atStart) <==> (port.Some? ==> IsCanonical(port.value.text))
  {
    hide CleanHost, PortOf, HostAlone, FindLast, IsTrimmed, IsCanonical;
    var c := CutHost(r, hasUser, start);
    if CleanHost(c.raw) != "" {
      if c.portText.None? {
        WholeHostSurvives(r, hasUser, atStart);
      } else if PortOf(c.portText.value).None? {
        UncutHostSurvives(r, FindLast(r, 0, |r|, ':').value, hasUser, atStart);
      } else {
        var i, j := Cleaned(c.raw);
        PortInRange(c.portText.value);
        PortIsCanonical(c.portText.value);
      }
    }
  }

  lemma PortInRange(text: string)
    requires PortOf(text).Some?
    ensures PortOf(text).value.text == text && 0 <= PortOf(text).value.number < 65536
  {
  }

  /** The host holds no at sign and no delimiter, if the authority part holds none. */
  lemma HostChars(r: string, hasUser: bool, start: bool, c: char)
    requires c !in r && !IsLetter(c)
    ensures var (host, _) := HostAndPort(CutHost(r, hasUser, start)); host.Some? ==> c !in host.value
  {
    hide CleanHost, PortOf, FindLast;
    var p := CutHost(r, hasUser, start);
    var i, j := Cleaned(p.raw);
    assert p.raw <= r;
    NotInLower(r, c);
    NotInLower(p.raw, c);
  }

  lemma NotInLower(s: string, c: char)
    requires c !in s && !IsLetter(c)
    ensures c !in ToLower(s)
  {
    forall k | 0 <= k < |s|
      ensures ToLower(s)[k] != c
    {
      assert ToLower(s)[k] == LowerChar(s[k]) && s[k] != c;
    }
  }

  /** The fields of an authority survive, unless the port is not canonical. */
  lemma AuthorityOfSurvives(a: string, start: bool, atStart: bool)
    requires start ==> atStart
    ensures var f := AuthorityOf(a, start);
      AuthoritySurvives(f.userinfo, f.host, f.port, atStart) <==> (f.port.Some? ==> IsCanonical(f.port.value.text))
  {
    hide HostAndPort, CutHost, HostPortSurvives, HostPartOf, UserInfo, IsCanonical;
    if a == "" {
      NoHostSurvives(false, atStart);
    } else {
      PartIsCut(a, start);
      PartSurvives(AfterUser(a), UserInfo(a).Some?, start, atStart);
      if UserInfo(a).None? { HostChars(a, false, start, '@'); }
    }
  }

  lemma NoHostSurvives(hasUser: bool, atStart: bool)
    ensures HostPortSurvives(None, None, hasUser, atStart)
  {
  }

  /** What is printed of an authority holds no delimiter that the authority does not hold. */
  lemma AuthorityTextChars(u: Uri, a: string, start: bool, c: char)
    requires IsPrintable(u) && c !in a && EndsAuthority(c)
    requires u.userinfo == AuthorityOf(a, start).userinfo && u.host == AuthorityOf(a, start).host
    requires u.port == AuthorityOf(a, start).port
    ensures c !in AuthorityText(u)
  {
    hide HostAndPort, CutHost, HostPartOf, UserInfo, Decimal;
    if u.port.Some? { DecimalShape(u.port.value.number); }
    if a != "" {
      PartIsCut(a, start);
      HostChars(AfterUser(a), UserInfo(a).Some?, start, c);
    }
  }

  // The scheme

  lemma LowerScheme(s: string)
    ensures SchemeEnd(ToLower(s)) == SchemeEnd(s)
  {
    var r := ToLower(s);
    forall k | 0 <= k < |s|
      ensures IsLetter(r[k]) == IsLetter(s[k]) && IsSchemeChar(r[k]) == IsSchemeChar(s[k])
      ensures (r[k] == ':' <==> s[k] == ':') && (r[k] == '/' <==> s[k] == '/')
    {
      assert r[k] == LowerChar(s[k]);
    }
    if s != "" && IsLetter(s[0]) { FindIs(r, 1, NotSchemeChar, Find(s, 1, NotSchemeChar)); }
  }

  /** What is stored as a scheme is read as one again. */
  lemma StoredSchemeSurvives(t: string)
    requires SchemeEnd(t) > 0
    ensures SchemeOf(t).Some? && IsSchemeText(SchemeOf(t).value)
  {
    hide SchemeEnd, IsLowerCase;
    var n := SchemeEnd(t);
    SchemeIsPrefix(t);
    LowerScheme(t[..n]);
    LowerInside(t[..n], 0, n);
    assert ToLower(t[..n])[0..n] == ToLower(t[..n]);
  }

  // The whole URI

  /** The slices of a text, and what the printed authority needs, say whether the parsed URI survives. */
  ghost predicate TextSurvives(t: string)
    requires Accepts(t) && IsPrintable(Parsed(t))
  {
    var u, s := Parsed(t), SlicesOf(t);
    && (u.scheme.None? ==> SchemeEnd(AuthorityText(u)) == 0)
    && (u.port.Some? ==> IsCanonical(u.port.value.text))
    && !Codes(s.path, '?') && !Codes(s.path, '#')
    && (GoesOnWithSlash(s.path) ==> AuthorityText(u) != "")
    && (s.query.Some? ==> !Codes(s.query.value[1..], '#'))
  }

  lemma SliceBytes(t: string, i: nat, j: nat)
    requires IsBytes(t) && i <= j <= |t|
    ensures IsBytes(t[i..j])
  {
  }

  lemma StoredPort(a: string, start: bool)
    ensures var p := AuthorityOf(a, start).port; p.Some? ==> 0 <= p.value.number < 65536
  {
    hide HostPartOf, CleanHost, PortOf;
    var h := HostPartOf(a, start);
    if h.portText.Some? && PortOf(h.portText.value).Some? { PortInRange(h.portText.value); }
  }

  /** What a text of bytes parses to can be printed. */
  lemma PartsAreBytes(t: string)
    requires IsBytes(t) && Consumed(t) == |t|
    ensures IsPrintable(Parsed(t))
  {
    hide Decode, AuthorityOf, IsBytes, PathEnd, QueryEnd, SchemeEnd, AuthorityEnd;
    SlicesAreStored(t);
    var e := AuthorityEnd(t);
    var p := PathEnd(t, e);
    var q := QueryEnd(t, p);
    TailsTile(t, p);
    SliceBytes(t, e, p);
    DecodeKeepsBytes(t[e..p]);
    if q != p {
      SliceBytes(t, p + 1, q);
      DecodeKeepsBytes(t[p + 1..q]);
    }
    if q != |t| {
      SliceBytes(t, q + 1, |t|);
      assert t[q + 1..|t|] == t[q + 1..];
      DecodeKeepsBytes(t[q + 1..]);
    }
    StoredPort(t[AuthorityStart(t)..e], AuthorityStart(t) == 0);
  }

  lemma NotIn(s: string, c: char, p: char -> bool)
    requires Without(s, p) && p(c)
    ensures c !in s
  {
  }

  /** A parsed authority survives, unless its port is not canonical, and is printed without a delimiter. */
  lemma AuthorityStays(t: string)
    requires Accepts(t) && IsPrintable(Parsed(t))
    ensures var u := Parsed(t);
      && HasNoDelimiter(AuthorityText(u))
      && (AuthoritySurvives(u.userinfo, u.host, u.port, u.scheme.None?)
          <==> (u.port.Some? ==> IsCanonical(u.port.value.text)))
  {
    hide AuthorityOf, SchemeEnd, AuthoritySurvives, IsCanonical, AuthorityText, Decode, PathAt, QueryAt, FragmentAt;
    var u, start := Parsed(t), AuthorityStart(t) == 0;
    var a := t[AuthorityStart(t)..AuthorityEnd(t)];
    AuthorityOfSurvives(a, start, u.scheme.None?);
    forall k | 0 <= k < |AuthorityText(u)|
      ensures !EndsAuthority(AuthorityText(u)[k])
    {
      var c := AuthorityText(u)[k];
      if EndsAuthority(c) {
        assert c !in a;
        AuthorityTextChars(u, a, start, c);
      }
    }
  }

  /** The decoded path and query survive just if nothing is coded that would cut them. */
  lemma MoreStays(t: string, afterAuthority: bool)
    requires Accepts(t)
    ensures var u, s := Parsed(t), SlicesOf(t);
      && (u.path.Some? ==> (PathSurvives(u.path.value, afterAuthority) <==>
            !Codes(s.path, '?') && !Codes(s.path, '#') && (GoesOnWithSlash(s.path) ==> afterAuthority)))
      && (u.path.None? ==> s.path == "")
      && (u.query.Some? ==> s.query.Some? && (QuerySurvives(u.query.value) <==> !Codes(s.query.value[1..], '#')))
      && (u.query.None? ==> s.query.None?)
      && (u.fragment.Some? ==> u.fragment.value != "")
  {
    hide Decode, Codes, SlicesOf, Parsed, Tiled, StartsWithSlashes;
    Tiling(t);
    var s := SlicesOf(t);
    if s.path != "" {
      assert s.path == [s.path[0]] + s.path[1..];
      NotIn(s.path[1..], '?', EndsPath);
      NotIn(s.path[1..], '#', EndsPath);
      DecodedHolds(s.path, '?');
      DecodedHolds(s.path, '#');
      DecodedSlashes(s.path);
    }
    if s.query.Some? {
      NotIn(s.query.value[1..], '#', EndsQuery);
      DecodedTailHolds(s.query.value, '#');
    }
    if s.fragment.Some? { DecodesToSome(s.fragment.value); }
  }

  lemma DecodesToSome(s: string)
    requires s != ""
    ensures Decode(s) != ""
  {
  }

  lemma StoredScheme(t: string)
    requires Accepts(t)
    ensures var u := Parsed(t);
      && (u.scheme.Some? ==> IsSchemeText(u.scheme.value))
      && (u.scheme.Some? || u.host.Some? || u.path.Some? || u.query.Some? || u.fragment.Some?)
  {
    hide SchemeEnd, IsSchemeText, AuthorityOf, PathAt, QueryAt, FragmentAt;
    if SchemeEnd(t) > 0 { StoredSchemeSurvives(t); }
  }

  /** The parsed URI of an accepted text survives being printed and parsed exactly if its text says so. */
  lemma ParsedSurvives(t: string)
    requires Accepts(t) && IsBytes(t)
    ensures IsPrintable(Parsed(t)) && (Survives(Parsed(t)) <==> TextSurvives(t))
  {
    hide Accepts, Parsed, SlicesOf, AuthorityText, AuthoritySurvives, PathSurvives, QuerySurvives;
    hide IsCanonical, Codes, HasNoDelimiter, IsPrintable, IsSchemeText, SchemeEnd;
    AcceptsAll(t);
    PartsAreBytes(t);
    AuthorityStays(t);
    MoreStays(t, AuthorityText(Parsed(t)) != "");
    StoredScheme(t);
    NothingCoded('?');
    NothingCoded('#');
  }

  lemma AcceptsAll(t: string)
    requires Accepts(t)
    ensures Consumed(t) == |t|
  {
  }
}
