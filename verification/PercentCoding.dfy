/** Percent coding (sections 2.1 to 2.3 of RFC 3986): both directions, and that they invert each other. */
module PercentCoding {
  import opened Basics
  import opened Strings

  predicate IsByte(c: char) { c as int < 256 }

  predicate IsBytes(s: string) {
    forall i :: 0 <= i < |s| ==> IsByte(s[i])
  }

  /** The characters that stay as they are: unreserved and reserved ones. */
  predicate IsPlain(c: char) {
    || 'a' <= c <= 'z' || 'A' <= c <= 'Z' || '0' <= c <= '9' || c == '-' || c == '.' || c == '_' || c == '~'
    || c == ':' || c == '/' || c == '?' || c == '#' || c == '[' || c == ']' || c == '@' || c == '!' || c == '$'
    || c == '&' || c == '\'' || c == '(' || c == ')' || c == '*' || c == '+' || c == ',' || c == ';' || c == '='
  }

  predicate IsHexDigit(c: char) { '0' <= c <= '9' || 'A' <= c <= 'F' }

  function HexDigit(v: nat): char
    requires v < 16
  {
    if v < 10 then (v + '0' as int) as char else (v - 10 + 'A' as int) as char
  }

  function HexValue(c: char): (r: Option<nat>)
    ensures r.Some? ==> r.value < 16
  {
    if '0' <= c <= '9' then Some(c as int - '0' as int)
    else if 'a' <= c <= 'f' then Some(c as int - 'a' as int + 10)
    else if 'A' <= c <= 'F' then Some(c as int - 'A' as int + 10)
    else None
  }

  function EncodeChar(c: char): string
    requires IsByte(c)
  {
    if IsPlain(c) then [c] else ['%', HexDigit(c as int / 16), HexDigit(c as int % 16)]
  }

  function Encode(s: string): string
    requires IsBytes(s)
  {
    if s == "" then "" else EncodeChar(s[0]) + Encode(s[1..])
  }

  /** The text starts with a percent sign and two hexadecimal digits. */
  predicate IsEscape(s: string) {
    |s| > 2 && s[0] == '%' && HexValue(s[1]).Some? && HexValue(s[2]).Some?
  }

  function EscapedChar(s: string): char
    requires IsEscape(s)
  {
    (HexValue(s[1]).value * 16 + HexValue(s[2]).value) as char
  }

  function Decode(s: string): string {
    if s == "" then ""
    else if IsEscape(s) then [EscapedChar(s)] + Decode(s[3..])
    else [s[0]] + Decode(s[1..])
  }

  lemma HexRoundTrip(v: nat)
    requires v < 16
    ensures HexValue(HexDigit(v)) == Some(v)
  {
  }

  lemma EncodedCharDecodes(c: char, t: string)
    requires IsByte(c)
    ensures Decode(EncodeChar(c) + t) == [c] + Decode(t)
  {
    var e := EncodeChar(c) + t;
    if IsPlain(c) {
      assert e[1..] == t;
    } else {
      HexRoundTrip(c as int / 16);
      HexRoundTrip(c as int % 16);
      assert e[3..] == t;
    }
  }

  /** Decoding undoes encoding, whatever follows the encoded text. */
  lemma {:induction false} DecodeUndoesEncode(s: string, t: string)
    requires IsBytes(s)
    ensures Decode(Encode(s) + t) == s + Decode(t)
  {
    hide Decode, EncodeChar, IsByte;
    if s == "" {
      assert Encode(s) + t == t;
    } else {
      assert Encode(s) + t == EncodeChar(s[0]) + (Encode(s[1..]) + t);
      EncodedCharDecodes(s[0], Encode(s[1..]) + t);
      DecodeUndoesEncode(s[1..], t);
      assert s + Decode(t) == [s[0]] + (s[1..] + Decode(t));
    }
  }

  lemma EncodeIsInjective(s: string, t: string)
    requires IsBytes(s) && IsBytes(t) && Encode(s) == Encode(t)
    ensures s == t
  {
    hide Encode, IsBytes;
    DecodeUndoesEncode(s, "");
    DecodeUndoesEncode(t, "");
    assert Encode(s) + "" == Encode(s) && Encode(t) + "" == Encode(t);
    assert s + Decode("") == s && t + Decode("") == t;
  }

  lemma {:induction false} DecodeKeepsBytes(s: string)
    requires IsBytes(s)
    ensures IsBytes(Decode(s)) && |Decode(s)| <= |s|
  {
    if s != "" {
      DecodeKeepsBytes(if IsEscape(s) then s[3..] else s[1..]);
    }
  }

  /** Decoding and encoding again normalises: doing it twice is doing it once. */
  lemma NormalisingIsIdempotent(s: string)
    requires IsBytes(s)
    ensures IsBytes(Decode(s)) && IsBytes(Decode(Encode(Decode(s))))
    ensures Encode(Decode(Encode(Decode(s)))) == Encode(Decode(s))
  {
    hide Encode, Decode, IsByte;
    DecodeKeepsBytes(s);
    var d := Decode(s);
    EmptyEncoded();
    DecodeUndoesEncode(d, "");
    assert Encode(d) + "" == Encode(d) && d + "" == d;
  }

  /** Which characters appear in an encoded text: plain ones, and the percent signs and digits of escapes. */
  lemma {:induction false} EncodedChars(s: string, c: char)
    requires IsBytes(s) && c in Encode(s)
    ensures IsPlain(c) || c == '%'
    ensures c in s || c == '%' || IsHexDigit(c)
  {
    var e := EncodeChar(s[0]);
    assert Encode(s) == e + Encode(s[1..]);
    if c !in e {
      EncodedChars(s[1..], c);
    } else if !IsPlain(s[0]) {
      HexIsDigit(s[0] as int / 16);
      HexIsDigit(s[0] as int % 16);
    }
  }

  lemma HexIsDigit(v: nat)
    requires v < 16
    ensures IsHexDigit(HexDigit(v)) && IsPlain(HexDigit(v))
  {
  }

  /** Encoding piece by piece. */
  lemma {:induction false} EncodeConcat(s: string, t: string)
    requires IsBytes(s) && IsBytes(t)
    ensures IsBytes(s + t) && Encode(s + t) == Encode(s) + Encode(t)
  {
    hide EncodeChar, IsByte;
    if s == "" {
      assert s + t == t;
    } else {
      EncodeConcat(s[1..], t);
      assert s + t == [s[0]] + (s[1..] + t);
      var e, es, et := EncodeChar(s[0]), Encode(s[1..]), Encode(t);
      assert e + (es + et) == (e + es) + et;
    }
  }

  lemma DecodeStep(s: string, i: nat)
    requires i < |s|
    ensures Decode(s[i..]) ==
      if IsEscape(s[i..]) then [EscapedChar(s[i..])] + Decode(s[i + 3..]) else [s[i]] + Decode(s[i + 1..])
  {
    if IsEscape(s[i..]) { assert s[i..][3..] == s[i + 3..]; } else { assert s[i..][1..] == s[i + 1..]; }
  }

  lemma Shift(before: string, c: char, rest: string, whole: string)
    requires before + ([c] + rest) == whole
    ensures (before + [c]) + rest == whole
  {
    assert before + ([c] + rest) == (before + [c]) + rest;
  }

  /** Appends the decoded range of src to dst; src may be dst itself. */
  method AppendDecoded(dst: Str, src: Str, start: nat, len: nat)
    requires start + len <= |src.text|
    modifies dst
    ensures dst.text == old(dst.text) + Decode(old(src.text)[start..start + len])
  {
    var s := src.text[start..start + len];   // the bytes at the source pointer, copied before dst grows
    var i := 0;
    while i < len
      invariant i <= len
      invariant dst.text + Decode(s[i..]) == old(dst.text) + Decode(s)
    {
      DecodeStep(s, i);
      ghost var before, whole := dst.text, old(dst.text) + Decode(s);
      if s[i] == '%' && i + 2 < len {
        var high, low := HexValue(s[i + 1]), HexValue(s[i + 2]);
        if high.Some? && low.Some? {
          var c := (high.value * 16 + low.value) as char;
          dst.text := dst.text + [c];
          i := i + 2;
        } else {
          dst.text := dst.text + [s[i]];
        }
      } else {
        dst.text := dst.text + [s[i]];
      }
      i := i + 1;
      Shift(before, dst.text[|before|], Decode(s[i..]), whole);
    }
  }

  lemma EmptyEncoded()
    ensures Encode("") == "" && Decode("") == ""
  {
  }

  lemma EncodeStep(s: string, i: nat)
    requires i < |s| && IsBytes(s)
    ensures IsBytes(s[..i]) && IsBytes(s[..i + 1])
    ensures Encode(s[..i + 1]) == Encode(s[..i]) + EncodeChar(s[i])
  {
    EncodeConcat(s[..i], [s[i]]);
    assert s[..i + 1] == s[..i] + [s[i]];
    assert Encode([s[i]]) == EncodeChar(s[i]) + "";
  }

  /** Appends the encoded range of src to dst; src may be dst itself. */
  method AppendEncoded(dst: Str, src: Str, start: nat, len: nat)
    requires start + len <= |src.text| && IsBytes(src.text[start..start + len])
    modifies dst
    ensures dst.text == old(dst.text) + Encode(old(src.text)[start..start + len])
  {
    hide Encode, EncodeChar, IsPlain;
    EmptyEncoded();
    var s := src.text[start..start + len];
    var i := 0;
    while i < len
      invariant i <= len && IsBytes(s[..i])
      invariant dst.text == old(dst.text) + Encode(s[..i])
    {
      EncodeStep(s, i);
      var c := s[i];
      EncodedAs(c, HexDigit(c as int / 16), HexDigit(c as int % 16));
      if IsPlain(c) {
        dst.text := dst.text + [c];
      } else {
        var high, low := c as int / 16, c as int % 16;
        var first := if high < 10 then (high + '0' as int) as char else (high + ('A' as int - 10)) as char;
        var second := if low < 10 then (low + '0' as int) as char else (low + ('A' as int - 10)) as char;
        dst.text := dst.text + ['%', first, second];
      }
      i := i + 1;
    }
    assert s[..len] == s;
  }

  lemma EncodedAs(c: char, first: char, second: char)
    requires IsByte(c) && first == HexDigit(c as int / 16) && second == HexDigit(c as int % 16)
    ensures EncodeChar(c) == if IsPlain(c) then [c] else ['%', first, second]
  {
  }
}
