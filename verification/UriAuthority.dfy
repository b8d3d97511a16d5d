/** Exactly which user info, host and port survive being printed and parsed again. */
module UriAuthority {
  import opened Basics
  import opened Strings
  import opened Numbers
  import opened UriText

  function UserText(userinfo: Option<string>): string { Or(userinfo, "", "@") }

  function HostPortText(host: Option<string>, port: Option<Port>): string
    requires port.Some? ==> 0 <= port.value.number
  {
    Or(host, "", "") + PortText(port)
  }

  /** A host printed without a port comes back: it has no colon that would be taken for a port separator,
      or what follows its last colon is not a port. */
  predicate HostAlone(h: string, hasUser: bool, atStart: bool) {
    var k := FindLast(h, 0, |h|, ':');
    if k.None? || (k.value == 0 && (hasUser || atStart)) then IsTrimmed(h, BLANKS)
    else CleanHost(h[..k.value]) != "" && PortOf(h[k.value + 1..]).None?
  }

  predicate HostPortSurvives(host: Option<string>, port: Option<Port>, hasUser: bool, atStart: bool) {
    && (port.Some? ==> host.Some? && 0 <= port.value.number < 65536 && port.value.text == Decimal(port.value.number))
    && (host.Some? ==>
          && host.value != "" && IsLowerCase(host.value)
          && (if port.Some? then IsTrimmed(host.value, BLANKS) else HostAlone(host.value, hasUser, atStart)))
  }

  predicate AuthoritySurvives(userinfo: Option<string>, host: Option<string>, port: Option<Port>, atStart: bool) {
    && HostPortSurvives(host, port, userinfo.Some?, atStart)
    && (if userinfo.Some? then '@' !in userinfo.value else host.Some? ==> '@' !in host.value)
  }

  // Host and port without user info in front

  /** Cutting the part r after the user info at its last colon, unless that comes first. */
  function CutHost(r: string, hasUser: bool, atStart: bool): HostPart {
    var k := FindLast(r, 0, |r|, ':');
    if k.Some? && !(k.value == 0 && (hasUser || atStart)) then HostPart(r, r[..k.value], Some(r[k.value + 1..]))
    else HostPart(r, r, None)
  }

  /** Searching backwards from within the tail r of a. */
  lemma {:induction false} FindLastInTail(a: string, u: nat, r: string, c: char, n: nat)
    requires u <= |a| && a[u..] == r && n <= |r|
    ensures FindLast(a, 0, u + n, c) ==
      match FindLast(r, 0, n, c) case Some(k) => Some(u + k) case None => FindLast(a, 0, u, c)
  {
    if n > 0 {
      assert a[u + n - 1] == r[n - 1];
      FindLastInTail(a, u, r, c, n - 1);
    }
  }

  lemma NoAt(a: string)
    ensures Find(a, 0, IsAt) == |a| <==> '@' !in a
  {
    if '@' in a {
      var k :| 0 <= k < |a| && a[k] == '@';
    }
  }

  lemma WithoutUser(r: string, atStart: bool)
    requires '@' !in r
    ensures UserInfo(r) == None && HostPartOf(r, atStart) == CutHost(r, false, atStart)
  {
    NoAt(r);
    assert r[0..] == r;
  }

  /** The first at sign of a is at u, and r follows it. */
  predicate UserEndsAt(a: string, u: nat, r: string) {
    u < |a| && a[u] == '@' && '@' !in a[..u] && a[u + 1..] == r
  }

  lemma FirstAt(a: string, u: nat, r: string)
    requires UserEndsAt(a, u, r)
    ensures Find(a, 0, IsAt) == u
  {
    assert forall k :: 0 <= k < u ==> a[k] == a[..u][k];
    FindIs(a, 0, IsAt, u);
  }

  /** The last colon after the user info counts from the start of the host, and not there. */
  lemma SeparatorAfterUser(a: string, u: nat, r: string, atStart: bool)
    requires UserEndsAt(a, u, r)
    ensures var k := FindLast(r, 0, |r|, ':');
      PortSeparator(a, atStart) == if k.Some? && k.value != 0 then Some(u + 1 + k.value) else None
  {
    FirstAt(a, u, r);
    FindLastInTail(a, u + 1, r, ':', |r|);
  }

  lemma TailSlices(a: string, u: nat, r: string, k: nat)
    requires u <= |a| && a[u..] == r && k < |r|
    ensures a[u..u + k] == r[..k] && a[u + k + 1..] == r[k + 1..]
  {
  }

  lemma WithUser(a: string, u: nat, r: string, atStart: bool)
    requires UserEndsAt(a, u, r)
    ensures UserInfo(a) == Some(a[..u]) && HostPartOf(a, atStart) == CutHost(r, true, atStart)
  {
    hide Find, FindLast, PortSeparator;
    FirstAt(a, u, r);
    SeparatorAfterUser(a, u, r, atStart);
    var k := FindLast(r, 0, |r|, ':');
    if k.Some? { TailSlices(a, u + 1, r, k.value); }
  }

  // Which hosts and ports come back

  lemma LowerIsFixed(h: string)
    ensures ToLower(h) == h <==> IsLowerCase(h)
  {
    if ToLower(h) == h {
      forall i | 0 <= i < |h| ensures !IsUpper(h[i]) { assert ToLower(h)[i] == LowerChar(h[i]); }
    }
  }

  lemma CleanIsFixed(h: string)
    ensures CleanHost(h) == h <==> IsLowerCase(h) && IsTrimmed(h, BLANKS)
  {
    LowerIsFixed(h);
    TrimmedStays(h, BLANKS);
    TrimmedStays(ToLower(h), BLANKS);
    TrimIsShorter(ToLower(h));
  }

  lemma TrimIsShorter(h: string)
    ensures |Trim(h, BLANKS)| <= |h|
    ensures |Trim(h, BLANKS)| == |h| ==> Trim(h, BLANKS) == h
  {
    var t := TrimStart(h, BLANKS);
    if |t| == |h| && h != "" { assert h[0..] == h; }
  }

  lemma WholeComesBack(h: string)
    ensures HostAndPort(HostPart(h, h, None)) == (Some(h), None)
            <==> h != "" && IsLowerCase(h) && IsTrimmed(h, BLANKS)
  {
    CleanIsFixed(h);
  }

  lemma RejectedPortComesBack(h: string, raw: string, text: string)
    ensures HostAndPort(HostPart(h, raw, Some(text))) == (Some(h), None)
            <==> CleanHost(raw) != "" && PortOf(text).None? && IsLowerCase(h)
  {
    LowerIsFixed(h);
  }

  lemma AcceptedPortComesBack(h: string, whole: string, text: string, port: Port)
    requires h != "" && PortOf(text) != None
    ensures HostAndPort(HostPart(whole, h, Some(text))) == (Some(h), Some(port))
            <==> IsLowerCase(h) && IsTrimmed(h, BLANKS) && PortOf(text) == Some(port)
  {
    CleanIsFixed(h);
  }

  lemma HostAloneComesBack(h: string, hasUser: bool, atStart: bool)
    ensures HostAndPort(CutHost(h, hasUser, atStart)) == (Some(h), None)
            <==> h != "" && IsLowerCase(h) && HostAlone(h, hasUser, atStart)
  {
    var c := CutHost(h, hasUser, atStart);
    if c.portText.None? { WholeComesBack(h); } else { RejectedPortComesBack(h, c.raw, c.portText.value); }
  }

  lemma PortOfScanned(text: string, n: nat)
    requires ScanAnyBase(text) == Some((n, |text|))
    ensures PortOf(text) == if n < 65536 then Some(Port(text, n)) else None
  {
  }

  lemma DecimalIsPort(n: nat)
    ensures forall c :: c in Decimal(n) ==> '0' <= c <= '9'
    ensures PortOf(Decimal(n)) == if n < 65536 then Some(Port(Decimal(n), n)) else None
  {
    DecimalShape(n);
    ScanDecimal(n);
    PortOfScanned(Decimal(n), n);
  }

  /** The last colon of r is at k > 0. */
  lemma CutAtColon(r: string, k: nat, hasUser: bool, atStart: bool)
    requires 0 < k < |r| && r[k] == ':' && ':' !in r[k + 1..]
    ensures CutHost(r, hasUser, atStart) == HostPart(r, r[..k], Some(r[k + 1..]))
  {
    assert forall i :: k < i < |r| ==> r[i] == r[k + 1..][i - k - 1];
  }

  lemma HostWithPortComesBack(h: string, port: Port, r: string, hasUser: bool, atStart: bool)
    requires h != "" && port.number >= 0 && r == h + ":" + Decimal(port.number)
    ensures HostAndPort(CutHost(r, hasUser, atStart)) == (Some(h), Some(port))
            <==> HostPortSurvives(Some(h), Some(port), hasUser, atStart)
  {
    DecimalIsPort(port.number);
    assert r[..|h|] == h && r[|h| + 1..] == Decimal(port.number);
    CutAtColon(r, |h|, hasUser, atStart);
    if port.number < 65536 { AcceptedPortComesBack(h, r, Decimal(port.number), port); }
  }

  lemma PortNeedsHost(r: string, hasUser: bool, atStart: bool)
    requires |r| > 0 && r[0] == ':' && ':' !in r[1..]
    ensures HostAndPort(CutHost(r, hasUser, atStart)).1 == None
  {
    assert forall i :: 0 < i < |r| ==> r[i] == r[1..][i - 1];
    assert r[..0] == "" && CleanHost("") == "";
  }

  /** The text of a host and a port. */
  lemma HostPortTexts(host: Option<string>, port: Option<Port>)
    requires port.Some? ==> 0 <= port.value.number
    ensures var h := if host.Some? then host.value else "";
      HostPortText(host, port) == if port.Some? then h + ":" + Decimal(port.value.number) else h
  {
    var h := if host.Some? then host.value else "";
    assert Or(host, "", "") == h;
  }

  lemma HostPortComesBack(host: Option<string>, port: Option<Port>, r: string, hasUser: bool, atStart: bool)
    requires port.Some? ==> 0 <= port.value.number
    requires r ==
      var h := if host.Some? then host.value else "";
      if port.Some? then h + ":" + Decimal(port.value.number) else h
    ensures HostAndPort(CutHost(r, hasUser, atStart)) == (host, port)
            <==> HostPortSurvives(host, port, hasUser, atStart)
  {
    if port.None? {
      if host.Some? { HostAloneComesBack(host.value, hasUser, atStart); } else { assert CleanHost("") == ""; }
    } else if host.Some? && host.value != "" {
      HostWithPortComesBack(host.value, port.value, r, hasUser, atStart);
    } else {
      DecimalIsPort(port.value.number);
      assert r[1..] == Decimal(port.value.number);
      PortNeedsHost(r, hasUser, atStart);
    }
  }

  lemma UserComesBack(x: string, a: string, r: string, atStart: bool)
    requires a == x + "@" + r
    ensures UserInfo(a) == Some(x) <==> '@' !in x
    ensures '@' !in x ==> HostPartOf(a, atStart) == CutHost(r, true, atStart)
  {
    if '@' !in x {
      assert a[..|x|] == x && a[|x| + 1..] == r;
      WithUser(a, |x|, r, atStart);
    } else {
      var k :| 0 <= k < |x| && x[k] == '@';
      assert a[k] == '@';
      assert Find(a, 0, IsAt) <= k;
    }
  }

  lemma NoUserComesBack(a: string, atStart: bool)
    ensures UserInfo(a) == None <==> '@' !in a
    ensures '@' !in a ==> HostPartOf(a, atStart) == CutHost(a, false, atStart)
  {
    NoAt(a);
    if '@' !in a { WithoutUser(a, atStart); }
  }

  lemma AtSignInHost(host: Option<string>, port: Option<Port>)
    requires port.Some? ==> 0 <= port.value.number
    ensures '@' in HostPortText(host, port) <==> host.Some? && '@' in host.value
  {
    if port.Some? { DecimalIsPort(port.value.number); }
  }

  /** An authority is read back as it was printed exactly when it survives. */
  lemma AuthorityComesBack(userinfo: Option<string>, host: Option<string>, port: Option<Port>, a: string, atStart: bool)
    requires port.Some? ==> 0 <= port.value.number
    requires a == UserText(userinfo) + HostPortText(host, port)
    ensures UserInfo(a) == userinfo && HostAndPort(HostPartOf(a, atStart)) == (host, port)
            <==> AuthoritySurvives(userinfo, host, port, atStart)
  {
    hide HostAndPort, HostPartOf, UserInfo, CutHost, HostPortSurvives, HostPortText, Decimal;
    var r := HostPortText(host, port);
    HostPortTexts(host, port);
    HostPortComesBack(host, port, r, userinfo.Some?, atStart);
    AtSignInHost(host, port);
    if userinfo.Some? {
      UserComesBack(userinfo.value, a, r, atStart);
    } else {
      assert a == r;
      NoUserComesBack(a, atStart);
    }
  }

  /** The fields of a URI as an authority. */
  function Fields(userinfo: Option<string>, host: Option<string>, port: Option<Port>, a: string): Authority {
    Authority(if a == "" then None else Some(a), userinfo, host, port)
  }

  lemma FieldsComeBack(userinfo: Option<string>, host: Option<string>, port: Option<Port>, a: string, atStart: bool)
    requires port.Some? ==> 0 <= port.value.number
    requires a == UserText(userinfo) + HostPortText(host, port)
    ensures AuthorityOf(a, atStart) == Fields(userinfo, host, port, a)
            <==> AuthoritySurvives(userinfo, host, port, atStart)
  {
    AuthorityComesBack(userinfo, host, port, a, atStart);
    if a == "" { EmptyAuthority(userinfo, host, port); }
  }

  lemma EmptyAuthority(userinfo: Option<string>, host: Option<string>, port: Option<Port>)
    requires port.Some? ==> 0 <= port.value.number
    requires UserText(userinfo) + HostPortText(host, port) == ""
    ensures userinfo == None && port == None && (host == None || host == Some(""))
  {
    var x, y := UserText(userinfo), HostPortText(host, port);
    assert |x + y| == |x| + |y|;
  }
}
