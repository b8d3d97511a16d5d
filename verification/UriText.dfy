/**
 What uri_parse_cstr_len makes of a text and what uri_append_to_string prints, as
 functions. The scheme keeps its ":" or "://", as in the source.
 */
module UriText {
  import opened Basics
  import opened Strings
  import opened Numbers
  import opened PercentCoding

  datatype Port = Port(text: string, number: int)

  datatype Uri = Uri(
    scheme: Option<string>,
    authority: Option<string>,
    userinfo: Option<string>,
    host: Option<string>,
    port: Option<Port>,
    path: Option<string>,
    query: Option<string>,
    fragment: Option<string>)

  predicate IsLetter(c: char) { 'a' <= c <= 'z' || 'A' <= c <= 'Z' }
  predicate IsSchemeChar(c: char) { IsLetter(c) || c == '+' || c == '-' || c == '.' }
  predicate NotSchemeChar(c: char) { !IsSchemeChar(c) }
  predicate IsAt(c: char) { c == '@' }
  predicate EndsAuthority(c: char) { c == '/' || c == '?' || c == '#' }
  predicate EndsPath(c: char) { c == '?' || c == '#' }
  predicate EndsQuery(c: char) { c == '#' }

  const BLANKS := " \t"

  /** Two slashes stand at position i. */
  predicate SlashesAt(t: string, i: nat) {
    i + 1 < |t| && t[i] == '/' && t[i + 1] == '/'
  }

  // Where the components end

  /** The end of the scheme and its separator; 0 without a scheme. */
  function SchemeEnd(t: string): (i: nat)
    ensures i <= |t|
  {
    if t == "" || !IsLetter(t[0]) then 0
    else
      var i := Find(t, 1, NotSchemeChar);
      if i == |t| || t[i] != ':' then 0
      else if SlashesAt(t, i + 1) then i + 3
      else i + 1
  }

  function AuthorityStart(t: string): (i: nat)
    ensures i <= |t|
  {
    var i := SchemeEnd(t);
    if SlashesAt(t, i) then i + 2 else i
  }

  function AuthorityEnd(t: string): (i: nat)
    ensures AuthorityStart(t) <= i <= |t|
  {
    Find(t, AuthorityStart(t), EndsAuthority)
  }

  /** The end of a path that starts at e, or e without one. */
  function PathEnd(t: string, e: nat): (i: nat)
    requires e <= |t|
    ensures e <= i <= |t|
  {
    if CharAt(t, e) == '/' then Find(t, e + 1, EndsPath) else e
  }

  /** The end of a query whose question mark is at p; its first character is never taken for a number sign. */
  function QueryEnd(t: string, p: nat): (i: nat)
    requires p <= |t|
    ensures p <= i <= |t| + 1
  {
    if CharAt(t, p) != '?' then p
    else if p + 2 <= |t| then Find(t, p + 2, EndsQuery)
    else p + 2
  }

  function FragmentEnd(t: string, q: nat): nat {
    if CharAt(t, q) == '#' && q + 1 < |t| then |t| else q
  }

  function PathAt(t: string, e: nat): Option<string>
    requires e <= |t|
  {
    if PathEnd(t, e) == e then None else Some(Decode(t[e..PathEnd(t, e)]))
  }

  function QueryAt(t: string, p: nat): Option<string>
    requires p <= |t|
  {
    if QueryEnd(t, p) == p then None else Some(Decode((t + [NUL])[p + 1..QueryEnd(t, p)]))
  }

  function FragmentAt(t: string, q: nat): Option<string> {
    if CharAt(t, q) == '#' && q + 1 < |t| then Some(Decode(t[q + 1..])) else None
  }

  // The authority

  /** Where the port separator is in an authority text, if it counts as one. */
  function PortSeparator(a: string, atStart: bool): (r: Option<nat>)
    ensures r.Some? ==> r.value < |a| && a[r.value] == ':'
  {
    var user := Find(a, 0, IsAt);
    var last := FindLast(a, 0, |a|, ':');
    if last.None? then None
    else if user < |a| && last.value < user then None
    else if (atStart && last.value == 0) || (user < |a| && last.value == user + 1) then None
    else last
  }

  function HostStart(a: string): (i: nat)
    ensures i <= |a|
  {
    var user := Find(a, 0, IsAt);
    if user < |a| then user + 1 else 0
  }

  function UserInfo(a: string): Option<string> {
    var user := Find(a, 0, IsAt);
    if user < |a| then Some(a[..user]) else None
  }

  function CleanHost(raw: string): string {
    Trim(ToLower(raw), BLANKS)
  }

  /** The port a text denotes: "%i" must read all of it, as a number from 0 to 65535. */
  function PortOf(text: string): Option<Port> {
    match ScanAnyBase(text)
    case Some((n, end)) => if 0 <= n < 65536 && end == |text| then Some(Port(text, n)) else None
    case None => None
  }

  /** The part of an authority after the user info: all of it, and cut at the port separator if there is one. */
  datatype HostPart = HostPart(whole: string, raw: string, portText: Option<string>)

  function HostPartOf(a: string, atStart: bool): HostPart {
    var from := HostStart(a);
    var sep := PortSeparator(a, atStart);
    if sep.Some? && from <= sep.value then HostPart(a[from..], a[from..sep.value], Some(a[sep.value + 1..]))
    else HostPart(a[from..], a[from..], None)
  }

  /** The host is what precedes the separator, cleaned, or all of the part if what follows is not a port. */
  function HostAndPort(h: HostPart): (Option<string>, Option<Port>) {
    var clean := CleanHost(h.raw);
    if clean == "" then (None, None)
    else if h.portText.None? then (Some(clean), None)
    else if PortOf(h.portText.value).None? then (Some(ToLower(h.whole)), None)
    else (Some(clean), PortOf(h.portText.value))
  }

  // Parsing

  function SchemeOf(t: string): Option<string> {
    if SchemeEnd(t) == 0 then None else Some(ToLower(t[..SchemeEnd(t)]))
  }

  /** The fields an authority text sets. */
  datatype Authority = Authority(text: Option<string>, userinfo: Option<string>, host: Option<string>,
                                 port: Option<Port>)

  function AuthorityOf(a: string, atStart: bool): Authority {
    if a == "" then Authority(None, None, None, None)
    else
      var (host, port) := HostAndPort(HostPartOf(a, atStart));
      Authority(Some(a), UserInfo(a), host, port)
  }

  /** The components of t when its authority ends at e. */
  function Components(t: string, scheme: Option<string>, a: Authority, e: nat): Uri
    requires e <= |t|
  {
    var p := PathEnd(t, e);
    Uri(scheme, a.text, a.userinfo, a.host, a.port, PathAt(t, e), QueryAt(t, p), FragmentAt(t, QueryEnd(t, p)))
  }

  function Parsed(t: string): Uri {
    var s, e := AuthorityStart(t), AuthorityEnd(t);
    Components(t, SchemeOf(t), AuthorityOf(t[s..e], s == 0), e)
  }

  /** Where the parser stops reading. */
  function Consumed(t: string): nat {
    FragmentEnd(t, QueryEnd(t, PathEnd(t, AuthorityEnd(t))))
  }

  /** The parser reports success: it found a component and read everything. */
  predicate Accepts(t: string) {
    var u := Parsed(t);
    (u.scheme.Some? || u.host.Some? || u.path.Some? || u.query.Some? || u.fragment.Some?) && Consumed(t) == |t|
  }

  // Printing

  function Or(o: Option<string>, before: string, after: string): string {
    if o.Some? then before + o.value + after else ""
  }

  predicate IsPrintable(u: Uri) {
    && (u.port.Some? ==> 0 <= u.port.value.number)
    && (u.path.Some? ==> IsBytes(u.path.value))
    && (u.query.Some? ==> IsBytes(u.query.value))
    && (u.fragment.Some? ==> IsBytes(u.fragment.value))
  }

  function EncodeIf(o: Option<string>): Option<string>
    requires o.Some? ==> IsBytes(o.value)
  {
    if o.Some? then Some(Encode(o.value)) else None
  }

  function PortText(port: Option<Port>): string
    requires port.Some? ==> 0 <= port.value.number
  {
    if port.Some? then ":" + Decimal(port.value.number) else ""
  }

  function AuthorityText(u: Uri): string
    requires IsPrintable(u)
  {
    Or(u.userinfo, "", "@") + Or(u.host, "", "") + PortText(u.port)
  }

  function PathAndMore(u: Uri): string
    requires IsPrintable(u)
  {
    Or(EncodeIf(u.path), "", "") + Or(EncodeIf(u.query), "?", "") + Or(EncodeIf(u.fragment), "#", "")
  }

  function Printed(u: Uri): string
    requires IsPrintable(u)
  {
    Or(u.scheme, "", "") + AuthorityText(u) + PathAndMore(u)
  }
}
