/** Case folding, digits, the percent codec and the Base64 tables, against the literal characters they stand for. */
module Tables {
  import opened Basics
  import opened Strings
  import opened Numbers
  import opened PercentCoding
  import opened HttpHeaders
  import opened Alphabets
  import Base64

  // Case

  lemma LowerLetter(c: char)
    ensures c !in UPPER ==> LowerChar(c) == c
    ensures forall k: nat :: k < 26 ==> (c == UPPER[k] ==> LowerChar(c) == LOWER[k])
  {
    hide UPPER, LOWER;
    LetterAt(0);
    Letters(c);
    forall k: nat | k < 26
      ensures c == UPPER[k] ==> LowerChar(c) == LOWER[k]
    {
      LetterAt(k);
    }
  }

  /** Lower-casing takes each letter of one alphabet to the same letter of the other and keeps all else. */
  lemma LowerCasing(s: string, i: nat)
    requires i < |s|
    ensures |ToLower(s)| == |s|
    ensures forall k: nat :: k < 26 ==> (s[i] == UPPER[k] ==> ToLower(s)[i] == LOWER[k])
    ensures s[i] !in UPPER ==> ToLower(s)[i] == s[i]
  {
    hide UPPER, LOWER;
    LowerLetter(s[i]);
  }

  /** The same character, or the same letter in the two cases. */
  ghost predicate SameLetter(a: char, b: char) {
    a == b || exists k: nat :: k < 26 && ((a == UPPER[k] && b == LOWER[k]) || (a == LOWER[k] && b == UPPER[k]))
  }

  lemma SameLetters(a: char, b: char)
    ensures LowerChar(a) == LowerChar(b) <==> SameLetter(a, b)
  {
    hide UPPER, LOWER;
    LetterAt(0);
    forall k: nat | k < 26
      ensures UPPER[k] == ('A' as int + k) as char && LOWER[k] == ('a' as int + k) as char
    {
      LetterAt(k);
    }
    if a != b && LowerChar(a) == LowerChar(b) {
      var k := LowerChar(a) as int - 'a' as int;
      assert (a == UPPER[k] && b == LOWER[k]) || (a == LOWER[k] && b == UPPER[k]);
    }
  }

  /** Names are the same exactly if they have one length and the same letters up to case. */
  lemma SameNames(a: string, b: string)
    ensures SameName(a, b) <==> |a| == |b| && forall i: nat :: i < |a| ==> SameLetter(a[i], b[i])
  {
    hide LowerChar, SameLetter;
    if |a| == |b| {
      forall i: nat | i < |a|
        ensures ToLower(a)[i] == ToLower(b)[i] <==> SameLetter(a[i], b[i])
      {
        SameLetters(a[i], b[i]);
      }
      if forall i: nat :: i < |a| ==> SameLetter(a[i], b[i]) {
        assert ToLower(a) == ToLower(b);
      }
    } else {
      assert |ToLower(a)| != |ToLower(b)|;
    }
  }

  // Hexadecimal digits

  /** The digit spells the value, in either case. */
  predicate Spells(d: char, v: nat) {
    v < 16 && (d == HEX[v] || d == UPPER_HEX[v])
  }

  lemma HexDigits(d: char, v: nat)
    ensures Spells(d, v) <==> HexValue(d) == Some(v)
    ensures Spells(d, v) <==> v < 16 && DigitValue(d) == v
  {
    hide HEX, UPPER_HEX;
    if v < 16 { HexAt(v); }
  }

  /** An escape of either spelling decodes to its byte, whatever follows. */
  lemma EscapeDecodes(c: char, high: char, low: char, t: string)
    requires IsByte(c) && Spells(high, c as int / 16) && Spells(low, c as int % 16)
    ensures Decode(['%', high, low] + t) == [c] + Decode(t)
  {
    hide Spells;
    HexDigits(high, c as int / 16);
    HexDigits(low, c as int % 16);
    var s := ['%', high, low] + t;
    assert s[3..] == t && EscapedChar(s) == c;
  }

  /** Any other character decodes to itself: also a percent sign that two digits do not follow. */
  lemma OthersDecode(c: char, t: string)
    requires c == '%' ==> |t| < 2 || !exists v: nat, w: nat :: Spells(t[0], v) && Spells(t[1], w)
    ensures Decode([c] + t) == [c] + Decode(t)
  {
    hide Spells;
    var s := [c] + t;
    assert s[1..] == t;
    if |t| >= 2 {
      HexIsSpelled(t[0]);
      HexIsSpelled(t[1]);
    }
  }

  lemma HexIsSpelled(d: char)
    ensures HexValue(d).Some? <==> exists v: nat :: Spells(d, v)
  {
    hide Spells;
    forall v: nat ensures Spells(d, v) <==> HexValue(d) == Some(v) { HexDigits(d, v); }
    if HexValue(d).Some? { assert Spells(d, HexValue(d).value); }
  }

  // Plain characters

  const MARKS := "-._~:/?#[]@!$&'()*+,;="

  /** The unreserved and the reserved characters of RFC 3986. */
  predicate Listed(c: char) {
    c in UPPER || c in LOWER || c in DIGITS || c in MARKS
  }

  lemma Marks(c: char)
    ensures c in MARKS <==>
      || c == '-' || c == '.' || c == '_' || c == '~' || c == ':' || c == '/' || c == '?' || c == '#' || c == '['
      || c == ']' || c == '@' || c == '!' || c == '$' || c == '&' || c == '\'' || c == '(' || c == ')' || c == '*'
      || c == '+' || c == ',' || c == ';' || c == '='
  {
  }

  lemma DigitChars(c: char)
    ensures c in DIGITS <==> '0' <= c <= '9'
  {
    hide DIGITS;
    DigitAt(0);
    if '0' <= c <= '9' { DigitAt(c as int - '0' as int); }
    forall v: nat | v < 10
      ensures '0' <= DIGITS[v] <= '9'
    {
      DigitAt(v);
    }
  }

  lemma PlainIsListed(c: char)
    ensures IsPlain(c) <==> Listed(c)
  {
    hide UPPER, LOWER, DIGITS, MARKS;
    Letters(c);
    DigitChars(c);
    Marks(c);
  }

  /** A byte that is not listed is encoded as a percent sign and its two digits, a listed one as itself. */
  lemma CharEncodes(c: char)
    requires IsByte(c)
    ensures EncodeChar(c) == if Listed(c) then [c] else ['%', UPPER_HEX[c as int / 16], UPPER_HEX[c as int % 16]]
  {
    hide Listed, IsPlain, UPPER_HEX;
    PlainIsListed(c);
    HexAt(c as int / 16);
    HexAt(c as int % 16);
  }

  /** Exactly the texts of listed characters are encoded as they are. */
  lemma {:induction false} ListedStays(s: string)
    requires IsBytes(s)
    ensures |Encode(s)| >= |s|
    ensures Encode(s) == s <==> forall i :: 0 <= i < |s| ==> Listed(s[i])
    decreases |s|
  {
    hide Listed, IsByte, EncodeChar;
    if s != "" {
      var rest := s[1..];
      ListedStays(rest);
      CharSize(s[0]);
      assert s == [s[0]] + rest;
      assert Encode(s) == EncodeChar(s[0]) + Encode(rest);
      if |EncodeChar(s[0])| == 1 {
        assert Encode(s)[1..] == Encode(rest);
      }
    }
  }

  lemma CharSize(c: char)
    requires IsByte(c)
    ensures |EncodeChar(c)| == (if Listed(c) then 1 else 3) && (Listed(c) ==> EncodeChar(c) == [c])
  {
    hide Listed, IsPlain;
    PlainIsListed(c);
  }

  // Base64

  const BASE64 := UPPER + LOWER + DIGITS + "+/"

  /** The encoding table is the alphabet of RFC 4648, in its order. */
  lemma Base64Alphabet(v: nat)
    requires v < 64
    ensures |BASE64| == 64 && Base64.CharOf(v) == BASE64[v]
  {
    hide UPPER, LOWER, DIGITS;
    LetterAt(0);
    DigitAt(0);
    if v < 26 { LetterAt(v); }
    else if v < 52 { LetterAt(v - 26); }
    else if v < 62 { DigitAt(v - 52); }
  }
}
