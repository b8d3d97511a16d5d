/** The parser and printer as they run: loops over the input that set the fields of a URI object. */
module UriParser {
  import opened Basics
  import opened Strings
  import opened Numbers
  import opened PercentCoding
  import opened UriText

  lemma SliceOfSlice(s: string, lo: nat, hi: nat, x: nat, y: nat)
    requires lo + x <= lo + y <= hi <= |s|
    ensures s[lo..hi][x..y] == s[lo + x..lo + y]
  {
    assert forall k :: 0 <= k < y - x ==> s[lo..hi][x..y][k] == s[lo + x..lo + y][k];
  }

  lemma RegroupParts(a: string, x: string, y: string, z: string)
    ensures a + x + y + z == a + (x + y + z)
  {
  }

  /** What the scan of an authority [start, i) has found: the first at sign and the last colon, or -1. */
  ghost predicate Separators(input: string, start: nat, i: nat, userSeparator: int, portSeparator: int)
    requires start <= i <= |input|
  {
    && (if userSeparator == -1 then forall k :: start <= k < i ==> input[k] != '@'
        else start <= userSeparator < i && input[userSeparator] == '@'
             && forall k :: start <= k < userSeparator ==> input[k] != '@')
    && (if portSeparator == -1 then forall k :: start <= k < i ==> input[k] != ':'
        else start <= portSeparator < i && input[portSeparator] == ':'
             && forall k :: portSeparator < k < i ==> input[k] != ':')
  }

  lemma SeparatorsFound(input: string, start: nat, i: nat, userSeparator: int, portSeparator: int)
    requires start <= i <= |input| && Separators(input, start, i, userSeparator, portSeparator)
    ensures var a := input[start..i];
      && Find(a, 0, IsAt) == (if userSeparator == -1 then |a| else userSeparator - start)
      && FindLast(a, 0, |a|, ':') == (if portSeparator == -1 then None else Some(portSeparator - start))
  {
    var a := input[start..i];
    assert forall k :: 0 <= k < |a| ==> a[k] == input[start + k];
    FindIs(a, 0, IsAt, if userSeparator == -1 then |a| else userSeparator - start);
    var last := FindLast(a, 0, |a|, ':');
    if last.Some? { assert input[start + last.value] == ':'; }
    if portSeparator != -1 { assert a[portSeparator - start] == ':'; }
  }

  /** The user info and port separators of the authority in [start, i), as they count; -1 for none. */
  ghost predicate Located(input: string, start: nat, i: nat, userSeparator: int, portSeparator: int)
    requires start <= i <= |input|
  {
    var a := input[start..i];
    && (if userSeparator == -1 then UserInfo(a) == None && HostStart(a) == 0
        else start <= userSeparator < i && UserInfo(a) == Some(input[start..userSeparator])
             && HostStart(a) == userSeparator + 1 - start)
    && (if portSeparator == -1 then PortSeparator(a, start == 0) == None
        else start + HostStart(a) <= portSeparator < i && PortSeparator(a, start == 0) == Some(portSeparator - start))
  }

  lemma SeparatorsCount(input: string, start: nat, i: nat, userSeparator: int, portSeparator: int)
    requires start <= i <= |input| && Separators(input, start, i, userSeparator, portSeparator)
    ensures var dropped :=
        || (userSeparator != -1 && portSeparator != -1 && portSeparator < userSeparator)
        || portSeparator == 0
        || (userSeparator != -1 && portSeparator == userSeparator + 1);
      Located(input, start, i, userSeparator, if dropped then -1 else portSeparator)
  {
    SeparatorsFound(input, start, i, userSeparator, portSeparator);
    if userSeparator != -1 { SliceOfSlice(input, start, i, 0, userSeparator - start); }
  }

  lemma AuthorityFrom(input: string, start: nat, i: nat, userSeparator: int, portSeparator: int)
    requires start < i <= |input| && Located(input, start, i, userSeparator, portSeparator)
    ensures var from := if userSeparator == -1 then start else userSeparator + 1;
      var part := HostPart(input[from..i], input[from..if portSeparator == -1 then i else portSeparator],
                           if portSeparator == -1 then None else Some(input[portSeparator + 1..i]));
      AuthorityOf(input[start..i], start == 0) ==
        Authority(Some(input[start..i]), if userSeparator == -1 then None else Some(input[start..userSeparator]),
                  HostAndPort(part).0, HostAndPort(part).1)
  {
    hide HostAndPort, HostStart, PortSeparator, UserInfo;
    var from := if userSeparator == -1 then start else userSeparator + 1;
    SliceOfSlice(input, start, i, from - start, i - start);
    if portSeparator != -1 {
      SliceOfSlice(input, start, i, from - start, portSeparator - start);
      SliceOfSlice(input, start, i, portSeparator - start + 1, i - start);
    }
  }

  lemma AppendedOr(now: string, o: Option<string>, before: string)
    ensures now + Or(o, before, "") ==
      if o.None? then now else if before == "" then now + o.value else now + before + o.value
  {
  }

  /** A URI object. A component and its has flag are one optional field. */
  class UriObject {
    var scheme: Option<string>
    var authority: Option<string>
    var userinfo: Option<string>
    var host: Option<string>
    var port: Option<Port>
    var path: Option<string>
    var query: Option<string>
    var fragment: Option<string>

    constructor ()
      ensures Value() == Uri(None, None, None, None, None, None, None, None)
    {
      scheme, authority, userinfo, host, port, path, query, fragment := None, None, None, None, None, None, None, None;
    }

    function AuthorityValue(): Authority
      reads `authority, `userinfo, `host, `port
    {
      Authority(authority, userinfo, host, port)
    }

    function Value(): Uri
      reads this
    {
      Uri(scheme, authority, userinfo, host, port, path, query, fragment)
    }

    method Clear()
      modifies this
      ensures Value() == Uri(None, None, None, None, None, None, None, None)
    {
      scheme, authority, userinfo, host, port, path, query, fragment := None, None, None, None, None, None, None, None;
    }

    method ParseScheme(input: string) returns (i: nat)
      requires scheme == None
      modifies `scheme
      ensures i == SchemeEnd(input) && scheme == SchemeOf(input)
    {
      var len := |input|;
      i := 0;
      var c := CharAt(input, 0);
      if 'a' <= c <= 'z' || 'A' <= c <= 'Z' {
        i := 1;
        while i < len
          invariant 1 <= i <= len && scheme == None
          invariant forall k :: 1 <= k < i ==> IsSchemeChar(input[k])
        {
          c := input[i];
          if 'a' <= c <= 'z' || 'A' <= c <= 'Z' || c == '+' || c == '-' || c == '.' {
            i := i + 1;
            continue;
          }
          FindIs(input, 1, NotSchemeChar, i);
          if c == ':' {
            i := i + 1;
            if i + 2 <= len && input[i] == '/' && input[i + 1] == '/' {
              i := i + 2;
            }
            scheme := Some(ToLower(input[..i]));
            break;
          }
          break;
        }
        if scheme.None? {
          if i == len { FindIs(input, 1, NotSchemeChar, i); }
          i := 0;
        }
      }
    }

    /** Sets the fields of the authority in [start, i); the separators are positions in the input, or -1. */
    method SetAuthority(input: string, start: nat, i: nat, userSeparator: int, portSeparator: int)
      requires start < i <= |input| && AuthorityValue() == Authority(None, None, None, None)
      requires Located(input, start, i, userSeparator, portSeparator)
      modifies `authority, `userinfo, `host, `port
      ensures AuthorityValue() == AuthorityOf(input[start..i], start == 0)
    {
      hide Trim, ToLower, AuthorityOf, ScanAnyBase, UserInfo, HostStart, PortSeparator;
      AuthorityFrom(input, start, i, userSeparator, portSeparator);
      authority := Some(input[start..i]);
      var hostStart := start;
      if userSeparator != -1 {
        userinfo := Some(input[start..userSeparator]);
        hostStart := userSeparator + 1;
      }
      var hostEnd := if portSeparator == -1 then i else portSeparator;
      host := Some(Trim(ToLower(input[hostStart..hostEnd]), BLANKS));
      if |host.value| == 0 {
        host := None;
      }
      if host.Some? && portSeparator != -1 {
        var text := input[portSeparator + 1..i];
        var scanned := ScanAnyBase(text);
        if scanned.Some? && 0 <= scanned.value.0 < 65536 && scanned.value.1 == |text| {
          port := Some(Port(text, scanned.value.0));
        } else {
          hostEnd := i;
          host := Some(ToLower(input[hostStart..hostEnd]));
        }
      }
    }

    /** The loop over the authority: where it ends, its first at sign and its last colon. */
    method ScanAuthority(input: string, start: nat) returns (i: nat, userSeparator: int, portSeparator: int)
      requires start <= |input|
      ensures start <= i <= |input| && i == Find(input, start, EndsAuthority)
      ensures Separators(input, start, i, userSeparator, portSeparator)
    {
      var len := |input|;
      i, userSeparator, portSeparator := start, -1, -1;
      while i < len
        invariant start <= i <= len && Separators(input, start, i, userSeparator, portSeparator)
        invariant forall k :: start <= k < i ==> !EndsAuthority(input[k])
      {
        var c := input[i];
        if c == '@' && userSeparator == -1 {
          userSeparator := i;
        } else if c == ':' {
          portSeparator := i;
        } else if c == '/' || c == '?' || c == '#' {
          break;
        }
        i := i + 1;
      }
      FindIs(input, start, EndsAuthority, i);
    }

    method ParseAuthority(input: string, schemeEnd: nat) returns (i: nat)
      requires schemeEnd == SchemeEnd(input) && AuthorityValue() == Authority(None, None, None, None)
      modifies `authority, `userinfo, `host, `port
      ensures i == AuthorityEnd(input)
      ensures AuthorityValue() == AuthorityOf(input[AuthorityStart(input)..i], AuthorityStart(input) == 0)
    {
      hide HostAndPort, HostPartOf, UserInfo, SchemeEnd, Located, Find, Separators;
      var len := |input|;
      i := schemeEnd;
      if i + 1 < len && input[i] == '/' && input[i + 1] == '/' {
        i := i + 2;
      }
      var start := i;
      var userSeparator, portSeparator;
      i, userSeparator, portSeparator := ScanAuthority(input, start);
      SeparatorsCount(input, start, i, userSeparator, portSeparator);
      if userSeparator != -1 && portSeparator != -1 && portSeparator < userSeparator {
        portSeparator := -1;
      }
      if portSeparator == 0 || (userSeparator != -1 && portSeparator == userSeparator + 1) {
        portSeparator := -1;
      }
      if i - start > 0 {
        SetAuthority(input, start, i, userSeparator, portSeparator);
      }
    }

    method ParsePath(input: string, e: nat) returns (i: nat)
      requires e <= |input| && path == None
      modifies `path
      ensures i == PathEnd(input, e) && path == PathAt(input, e)
    {
      hide Decode;
      var len := |input|;
      i := e;
      var c := CharAt(input, i);
      if c == '/' {
        var start := i;
        i := i + 1;
        while i < len
          invariant start + 1 <= i <= len && forall k :: start + 1 <= k < i ==> !EndsPath(input[k])
        {
          c := input[i];
          if c == '?' || c == '#' {
            break;
          }
          i := i + 1;
        }
        FindIs(input, e + 1, EndsPath, i);
        if i - start >= 1 {
          path := Some(Decode(input[start..i]));
        }
      }
    }

    method ParseQuery(input: string, p: nat) returns (i: nat)
      requires p <= |input| && query == None
      modifies `query
      ensures i == QueryEnd(input, p) && query == QueryAt(input, p)
    {
      hide Decode;
      var len := |input|;
      i := p;
      var c := CharAt(input, i);
      if c == '?' {
        i := i + 1;
        var start := i;
        i := i + 1;
        while i < len
          invariant i == start + 1 || start + 1 < i <= len
          invariant forall k :: start + 1 <= k < i && k < len ==> !EndsQuery(input[k])
        {
          c := input[i];
          if c == '#' {
            break;
          }
          i := i + 1;
        }
        if p + 2 <= len { FindIs(input, p + 2, EndsQuery, i); }
        if i - start >= 1 {
          query := Some(Decode((input + [NUL])[start..i]));   // a question mark at the end takes in the terminator
        }
      }
    }

    method ParseFragment(input: string, q: nat) returns (i: nat)
      requires fragment == None
      modifies `fragment
      ensures i == FragmentEnd(input, q) && fragment == FragmentAt(input, q)
    {
      hide Decode;
      i := q;
      var c := CharAt(input, i);
      if c == '#' && i + 1 < |input| {
        i := i + 1;
        var start := i;
        var len := |input| - start;
        i := |input|;
        if len >= 1 {
          assert input[start..start + len] == input[start..];
          fragment := Some(Decode(input[start..start + len]));
        }
      }
    }

    /** uri_parse_cstr_len: clears the object, sets what it finds, and returns 0 on success. */
    method Parse(input: string) returns (code: int)
      modifies this
      ensures Value() == Parsed(input)
      ensures code == 0 <==> Accepts(input)
    {
      hide PathAt, QueryAt, FragmentAt, PathEnd, QueryEnd, FragmentEnd;
      hide AuthorityOf, SchemeOf, SchemeEnd, AuthorityStart, AuthorityEnd;
      Clear();
      var i := ParseScheme(input);
      i := ParseAuthority(input, i);
      ghost var a := AuthorityValue();
      i := ParsePath(input, i);
      i := ParseQuery(input, i);
      i := ParseFragment(input, i);
      assert AuthorityValue() == a;
      if scheme.None? && host.None? && path.None? && query.None? && fragment.None? {
        return 1;
      }
      if i != |input| {
        return 1;
      }
      return 0;
    }

    method AppendAuthority(s: Str)
      requires IsPrintable(Value())
      modifies s
      ensures s.text == old(s.text) + AuthorityText(Value())
    {
      hide Decimal;
      if userinfo.Some? {
        s.text := s.text + userinfo.value;
        s.text := s.text + "@";
      }
      assert s.text == old(s.text) + Or(userinfo, "", "@");
      ghost var afterUser := s.text;
      if host.Some? {
        s.text := s.text + host.value;
      }
      assert s.text == afterUser + Or(host, "", "");
      ghost var afterHost := s.text;
      if port.Some? {
        s.text := s.text + (":" + Decimal(port.value.number));
      }
      assert s.text == afterHost + PortText(port);
      RegroupParts(old(s.text), Or(userinfo, "", "@"), Or(host, "", ""), PortText(port));
    }

    method AppendMore(s: Str)
      requires IsPrintable(Value())
      modifies s
      ensures s.text == old(s.text) + PathAndMore(Value())
    {
      hide Encode, IsBytes, Or;
      AppendedOr(s.text, EncodeIf(path), "");
      if path.Some? {
        s.text := s.text + Encode(path.value);
      }
      AppendedOr(s.text, EncodeIf(query), "?");
      if query.Some? {
        s.text := s.text + "?";
        s.text := s.text + Encode(query.value);
      }
      AppendedOr(s.text, EncodeIf(fragment), "#");
      if fragment.Some? {
        s.text := s.text + "#";
        s.text := s.text + Encode(fragment.value);
      }
      RegroupParts(old(s.text), Or(EncodeIf(path), "", ""), Or(EncodeIf(query), "?", ""),
                   Or(EncodeIf(fragment), "#", ""));
    }

    /** uri_append_to_string. */
    method AppendTo(s: Str)
      requires IsPrintable(Value())
      modifies s
      ensures s.text == old(s.text) + Printed(Value())
    {
      hide AuthorityText, PathAndMore;
      if scheme.Some? {
        s.text := s.text + scheme.value;
      }
      assert s.text == old(s.text) + Or(scheme, "", "");
      AppendAuthority(s);
      AppendMore(s);
      RegroupParts(old(s.text), Or(scheme, "", ""), AuthorityText(Value()), PathAndMore(Value()));
    }
  }
}
