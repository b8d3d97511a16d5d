/** Printing and scanning integers as "%d", "%zu" and "%i" do, on unbounded integers. */
module Numbers {
  import opened Basics
  import opened Strings

  /** The value of a digit in bases up to 16, and 16 for any other character. */
  function DigitValue(c: char): nat {
    if '0' <= c <= '9' then c as int - '0' as int
    else if 'a' <= c <= 'f' then c as int - 'a' as int + 10
    else if 'A' <= c <= 'F' then c as int - 'A' as int + 10
    else 16
  }

  function Value(digits: string, base: nat): nat {
    if digits == "" then 0
    else Value(digits[..|digits| - 1], base) * base + DigitValue(digits[|digits| - 1])
  }

  function Decimal(n: nat): (s: string)
    ensures s != ""
  {
    (if n < 10 then "" else Decimal(n / 10)) + [(n % 10 + '0' as int) as char]
  }

  lemma ValueSnoc(digits: string, c: char, base: nat)
    ensures Value(digits + [c], base) == Value(digits, base) * base + DigitValue(c)
  {
    assert (digits + [c])[..|digits|] == digits;
  }

  lemma LastDigit(n: nat)
    ensures var c := (n % 10 + '0' as int) as char;
      '0' <= c <= '9' && DigitValue(c) == n % 10 && (c == '0' <==> n % 10 == 0)
      && Decimal(n) == (if n < 10 then "" else Decimal(n / 10)) + [c]
  {
  }

  lemma {:induction false} DecimalShape(n: nat)
    ensures forall i :: 0 <= i < |Decimal(n)| ==> '0' <= Decimal(n)[i] <= '9'
    ensures n > 0 ==> Decimal(n)[0] != '0'
    ensures n == 0 ==> Decimal(n) == "0"
    ensures Value(Decimal(n), 10) == n
  {
    hide Decimal, DigitValue;
    var last := (n % 10 + '0' as int) as char;
    LastDigit(n);
    if n >= 10 {
      DecimalShape(n / 10);
      ValueSnoc(Decimal(n / 10), last, 10);
    } else {
      ValueSnoc("", last, 10);
      assert "" + [last] == [last];
    }
  }

  predicate IsSpace(c: char) { c == ' ' || 9 <= c as int <= 13 }
  predicate NotSpace(c: char) { !IsSpace(c) }

  /** Where the digits start, after white space and a sign. */
  function DigitsStart(s: string): (i: nat)
    ensures i <= |s|
  {
    var w := Find(s, 0, NotSpace);
    if w < |s| && (s[w] == '-' || s[w] == '+') then w + 1 else w
  }

  function IsNegative(s: string): bool {
    var w := Find(s, 0, NotSpace);
    w < |s| && s[w] == '-'
  }

  /** The base "%i" reads in: 16 after 0x and a hexadecimal digit, 8 after 0, else 10. */
  function DetectBase(s: string, i: nat): nat {
    if CharAt(s, i) != '0' then 10
    else if (CharAt(s, i + 1) == 'x' || CharAt(s, i + 1) == 'X') then 16
    else 8
  }

  function DigitsEnd(s: string, i: nat, base: nat): (j: nat)
    requires i <= |s|
    ensures i <= j <= |s|
    decreases |s| - i
  {
    if i < |s| && DigitValue(s[i]) < base then DigitsEnd(s, i + 1, base) else i
  }

  lemma {:induction false} AllDigits(s: string, i: nat, base: nat)
    requires i <= |s| && forall k :: i <= k < |s| ==> DigitValue(s[k]) < base
    ensures DigitsEnd(s, i, base) == |s|
    decreases |s| - i
  {
    if i < |s| { AllDigits(s, i + 1, base); }
  }

  /** Reads digits in the given base; the number read and where it ends, or nothing without a digit. */
  function ScanDigits(s: string, i: nat, base: nat, negative: bool): Option<(int, nat)>
    requires i <= |s|
  {
    var end := DigitsEnd(s, i, base);
    var n: int := Value(s[i..end], base);
    if end == i then None else Some((if negative then -n else n, end))
  }

  /** sscanf with "%i%n": the number and the count of characters read. */
  function ScanAnyBase(s: string): Option<(int, nat)> {
    var i := DigitsStart(s);
    var base := DetectBase(s, i);
    if base == 16 then
      if i + 2 <= |s| then ScanDigits(s, i + 2, 16, IsNegative(s)) else None
    else ScanDigits(s, i, base, IsNegative(s))
  }

  const SIZE_MODULUS: nat := 0x1_0000_0000_0000_0000

  /** sscanf with "%zu": a negative number wraps around, one that does not fit becomes the largest size. */
  function ScanSize(s: string): (r: Option<nat>)
    ensures r.Some? ==> r.value < SIZE_MODULUS
  {
    match ScanDigits(s, DigitsStart(s), 10, IsNegative(s))
    case None => None
    case Some((n, _)) =>
      Some(if 0 < n + SIZE_MODULUS && n < SIZE_MODULUS then n % SIZE_MODULUS else SIZE_MODULUS - 1)
  }

  lemma DecimalStart(n: nat)
    ensures DigitsStart(Decimal(n)) == 0 && !IsNegative(Decimal(n))
    ensures n > 0 ==> DetectBase(Decimal(n), 0) == 10
  {
    DecimalShape(n);
    FindIs(Decimal(n), 0, NotSpace, 0);
  }

  lemma DecimalDigits(n: nat)
    ensures ScanDigits(Decimal(n), 0, 10, false) == Some((n, |Decimal(n)|))
  {
    hide Decimal, Value, DigitsEnd;
    DecimalShape(n);
    AllDigits(Decimal(n), 0, 10);
    assert Decimal(n)[0..|Decimal(n)|] == Decimal(n);
  }

  lemma ScanZero()
    ensures ScanAnyBase("0") == Some((0, 1))
  {
    FindIs("0", 0, NotSpace, 0);
    assert DetectBase("0", 0) == 8;
    assert "0"[0..1] == "0" && "0"[..0] == "";
    assert Value("0", 8) == 0;
    AllDigits("0", 0, 8);
  }

  lemma ScanUnsigned(s: string, n: nat, end: nat)
    requires DigitsStart(s) == 0 && !IsNegative(s) && ScanDigits(s, 0, 10, false) == Some((n, end))
    ensures n < SIZE_MODULUS ==> ScanSize(s) == Some(n)
    ensures DetectBase(s, 0) == 10 ==> ScanAnyBase(s) == Some((n, end))
  {
  }

  /** A printed number scans as itself, to its end. */
  lemma ScanDecimal(n: nat)
    ensures ScanAnyBase(Decimal(n)) == Some((n, |Decimal(n)|))
    ensures n < SIZE_MODULUS ==> ScanSize(Decimal(n)) == Some(n)
  {
    DecimalStart(n);
    DecimalDigits(n);
    ScanUnsigned(Decimal(n), n, |Decimal(n)|);
    if n == 0 { ScanZero(); }
  }
}
