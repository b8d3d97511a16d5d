/** The characters that the codecs and the case folding deal with, as literals. */
module Alphabets {

  const UPPER := "ABCDEFGHIJKLMNOPQRSTUVWXYZ"
  const LOWER := "abcdefghijklmnopqrstuvwxyz"
  const DIGITS := "0123456789"
  const HEX := "0123456789abcdef"
  const UPPER_HEX := "0123456789ABCDEF"

  lemma LetterAt(k: nat)
    requires k < 26
    ensures |UPPER| == 26 && UPPER[k] == ('A' as int + k) as char
    ensures |LOWER| == 26 && LOWER[k] == ('a' as int + k) as char
  {
  }

  lemma DigitAt(v: nat)
    requires v < 10
    ensures |DIGITS| == 10 && DIGITS[v] == ('0' as int + v) as char
  {
  }

  lemma HexAt(v: nat)
    requires v < 16
    ensures |HEX| == 16 && HEX[v] == if v < 10 then ('0' as int + v) as char else ('a' as int + v - 10) as char
    ensures |UPPER_HEX| == 16
    ensures UPPER_HEX[v] == if v < 10 then ('0' as int + v) as char else ('A' as int + v - 10) as char
  {
  }

  lemma Letters(c: char)
    ensures c in UPPER <==> 'A' <= c <= 'Z'
    ensures c in LOWER <==> 'a' <= c <= 'z'
  {
    hide UPPER, LOWER;
    LetterAt(0);
    if 'A' <= c <= 'Z' { LetterAt(c as int - 'A' as int); }
    if 'a' <= c <= 'z' { LetterAt(c as int - 'a' as int); }
    forall k: nat | k < 26
      ensures 'A' <= UPPER[k] <= 'Z' && 'a' <= LOWER[k] <= 'z'
    {
      LetterAt(k);
    }
  }
}
