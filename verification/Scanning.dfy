/** What "%zu" and "%i" read: white space, a sign, digits, and where they stop. */
module Scanning {
  import opened Basics
  import opened Strings
  import opened Numbers

  ghost predicate Spaces(w: string) {
    forall i :: 0 <= i < |w| ==> w[i] == ' ' || 9 <= w[i] as int <= 13
  }

  predicate IsSign(sign: string) { sign == "" || sign == "+" || sign == "-" }

  ghost predicate DigitsOf(ds: string, base: nat) {
    ds != "" && forall i :: 0 <= i < |ds| ==> DigitValue(ds[i]) < base
  }

  /** The text does not go on with a digit. */
  predicate Stops(rest: string, base: nat) {
    rest == "" || DigitValue(rest[0]) >= base
  }

  /** The text of a number starts with neither white space nor a sign. */
  predicate NoLead(s: string) {
    s == "" || (NotSpace(s[0]) && s[0] != '+' && s[0] != '-')
  }

  lemma Lead(w: string, sign: string, s: string, t: string)
    requires Spaces(w) && IsSign(sign) && NoLead(s) && t == w + sign + s
    ensures DigitsStart(t) == |w + sign| && (IsNegative(t) <==> sign == "-") && t[|w + sign|..] == s
  {
    assert forall i :: 0 <= i < |w| ==> t[i] == w[i];
    if sign != "" { assert t[|w|] == sign[0]; } else if s != "" { assert t[|w|] == s[0]; }
    FindIs(t, 0, NotSpace, |w|);
  }

  lemma {:induction false} DigitsStop(t: string, i: nat, ds: string, rest: string, base: nat)
    requires i <= |t| && t[i..] == ds + rest && Stops(rest, base)
    requires forall k :: 0 <= k < |ds| ==> DigitValue(ds[k]) < base
    ensures DigitsEnd(t, i, base) == i + |ds| && t[i..i + |ds|] == ds
    decreases |ds|
  {
    assert forall k {:trigger t[k]} :: i <= k < |t| ==> t[k] == (ds + rest)[k - i];
    if ds != "" {
      assert t[i] == ds[0];
      DigitsStop(t, i + 1, ds[1..], rest, base);
    } else if rest != "" {
      assert t[i] == rest[0];
    }
  }

  /** "%zu": the digits' value; a negative one wraps around, one that does not fit is the largest size. */
  lemma SizeReads(w: string, sign: string, ds: string, rest: string)
    requires Spaces(w) && IsSign(sign) && DigitsOf(ds, 10) && Stops(rest, 10)
    ensures var n := Value(ds, 10);
      ScanSize(w + sign + ds + rest) ==
        Some(if n >= 0x1_0000_0000_0000_0000 then 0xFFFF_FFFF_FFFF_FFFF
             else if sign == "-" && n > 0 then 0x1_0000_0000_0000_0000 - n else n)
  {
    hide DigitsStart, IsNegative, DigitsEnd, Value;
    var t, i, n := w + sign + ds + rest, |w + sign|, Value(ds, 10);
    assert t == w + sign + (ds + rest);
    DigitLead(ds + rest);
    Lead(w, sign, ds + rest, t);
    DigitsStop(t, i, ds, rest, 10);
    if n < SIZE_MODULUS { Wrap(n); }
  }

  lemma DigitLead(s: string)
    requires s != "" && DigitValue(s[0]) < 16
    ensures NoLead(s)
  {
  }

  lemma Wrap(n: int)
    requires 0 <= n < SIZE_MODULUS
    ensures n % SIZE_MODULUS == n && (-n) % SIZE_MODULUS == if n == 0 then 0 else SIZE_MODULUS - n
  {
  }

  /** "%zu" reads nothing without a digit. */
  lemma SizeFails(w: string, sign: string, rest: string)
    requires Spaces(w) && IsSign(sign) && NoLead(rest) && Stops(rest, 10)
    ensures ScanSize(w + sign + rest) == None
  {
    hide DigitsStart, IsNegative, DigitsEnd;
    var t := w + sign + rest;
    Lead(w, sign, rest, t);
    assert rest == "" + rest;
    DigitsStop(t, |w + sign|, "", rest, 10);
  }

  /** The prefix and the digits of a number in one of the three bases. */
  ghost predicate InBase(prefix: string, ds: string, rest: string, base: nat) {
    && DigitsOf(ds, base) && Stops(rest, base)
    && match base
       case 10 => prefix == "" && ds[0] != '0'
       case 8 => prefix == "" && ds[0] == '0' && (ds == "0" && rest != "" ==> rest[0] != 'x' && rest[0] != 'X')
       case 16 => prefix == "0x" || prefix == "0X"
       case _ => false
  }

  function WithSign(sign: string, n: int): int {
    if sign == "-" then -n else n
  }

  /** "%i": decimal, octal after a zero, hexadecimal after 0x, with the number of characters read. */
  lemma AnyBaseReads(w: string, sign: string, prefix: string, ds: string, rest: string, base: nat)
    requires Spaces(w) && IsSign(sign) && InBase(prefix, ds, rest, base)
    ensures var read := w + sign + prefix + ds;
      ScanAnyBase(read + rest) == Some((WithSign(sign, Value(ds, base)), |read|))
  {
    hide DigitsStart, IsNegative, ScanAnyBase, ScanDigits, Value, DigitValue, Spaces;
    var lead, s := w + sign, prefix + ds + rest;
    var t := lead + s;
    assert w + sign + prefix + ds + rest == t;
    BaseLead(prefix, ds, rest, base);
    DigitLead(s);
    Lead(w, sign, s, t);
    Behind(lead, s, 0);
    Behind(lead, s, 1);
    BaseDigits(lead + prefix, prefix, ds, rest, base, sign == "-");
    assert t == lead + prefix + (ds + rest) && |w + sign + prefix + ds| == |lead + prefix + ds|;
    AnyBaseIs(t, |lead|, base, sign == "-");
  }

  lemma AnyBaseIs(t: string, i: nat, base: nat, negative: bool)
    requires DigitsStart(t) == i && IsNegative(t) == negative && DetectBase(t, i) == base
    requires base == 16 ==> i + 2 <= |t|
    ensures ScanAnyBase(t) == ScanDigits(t, if base == 16 then i + 2 else i, base, negative)
  {
    hide DigitsStart, IsNegative, DetectBase, ScanDigits;
  }

  lemma Behind(lead: string, s: string, k: nat)
    ensures CharAt(lead + s, |lead| + k) == CharAt(s, k)
  {
  }

  lemma BaseDigits(lead: string, prefix: string, ds: string, rest: string, base: nat, negative: bool)
    requires InBase(prefix, ds, rest, base)
    ensures var t := lead + (ds + rest);
      ScanDigits(t, |lead|, base, negative) ==
        Some((if negative then WithSign("-", Value(ds, base)) else Value(ds, base), |lead + ds|))
  {
    hide DigitsEnd, Value;
    var t := lead + (ds + rest);
    assert t[|lead|..] == ds + rest;
    DigitsStop(t, |lead|, ds, rest, base);
  }

  lemma BaseLead(prefix: string, ds: string, rest: string, base: nat)
    requires InBase(prefix, ds, rest, base)
    ensures var s := prefix + ds + rest;
      && s != "" && DigitValue(s[0]) < 16
      && (CharAt(s, 0) == '0' <==> base != 10)
      && (base != 10 ==> (CharAt(s, 1) == 'x' || CharAt(s, 1) == 'X' <==> base == 16))
  {
    var s := prefix + ds + rest;
    if base == 16 {
      assert s[0] == '0' && s[1] == prefix[1];
    } else {
      assert s[0] == ds[0];
      if |ds| > 1 { assert s[1] == ds[1]; } else if rest != "" { assert s[1] == rest[0]; }
    }
  }
}
