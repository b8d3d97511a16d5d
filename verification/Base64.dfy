/**
 Base64 (section 4 of RFC 4648): the codec's loops over arrays, their exact output, and how
 they invert each other.
 */
module Base64 {
  import opened Basics
  import opened Strings

  type Byte = b: nat | b < 256

  const PADDING := '='
  const ILLEGAL: Byte := 255

  /** The character of a six-bit value: the encoding table by its ranges. */
  function CharOf(v: nat): char
    requires v < 64
  {
    if v < 26 then ('A' as int + v) as char
    else if v < 52 then ('a' as int + v - 26) as char
    else if v < 62 then ('0' as int + v - 52) as char
    else if v == 62 then '+' else '/'
  }

  /** The six-bit value of a character, or the illegal value: the decoding table by its ranges. */
  function ValueOf(c: char): Byte {
    if 'A' <= c <= 'Z' then c as int - 'A' as int
    else if 'a' <= c <= 'z' then c as int - 'a' as int + 26
    else if '0' <= c <= '9' then c as int - '0' as int + 52
    else if c == '+' then 62 else if c == '/' then 63 else ILLEGAL
  }

  predicate InAlphabet(c: char) { ValueOf(c) != ILLEGAL }

  lemma TablesInvert(c: char, v: nat)
    ensures v < 64 ==> ValueOf(CharOf(v)) == v && CharOf(v) != PADDING
    ensures InAlphabet(c) ==> ValueOf(c) < 64 && CharOf(ValueOf(c)) == c
    ensures !InAlphabet(PADDING) && !InAlphabet(NUL)
  {
  }

  // Encoding

  /** Six bits of each of four characters, from three bytes. */
  function Sixes(b0: Byte, b1: Byte, b2: Byte): (nat, nat, nat, nat) {
    (b0 / 4, b0 % 4 * 16 + b1 / 16, b1 % 16 * 4 + b2 / 64, b2 % 64)
  }

  /** One number has the bytes as its digits to base 256 and the six-bit values as those to base 64, highest first. */
  lemma SameNumber(b0: Byte, b1: Byte, b2: Byte)
    ensures var (s0, s1, s2, s3) := Sixes(b0, b1, b2);
      s0 * 262144 + s1 * 4096 + s2 * 64 + s3 == b0 * 65536 + b1 * 256 + b2
  {
  }

  /** The byte at i, or zero past the end. */
  function At(b: seq<Byte>, i: nat): Byte {
    if i < |b| then b[i] else 0
  }

  /** Four characters for three bytes, of which the last may be padding. */
  function QuadOf(b0: Byte, b1: Byte, b2: Byte, padding2: bool, padding3: bool): (s: string)
    ensures |s| == 4
  {
    var (s0, s1, s2, s3) := Sixes(b0, b1, b2);
    [CharOf(s0), CharOf(s1), if padding2 then PADDING else CharOf(s2), if padding3 then PADDING else CharOf(s3)]
  }

  /** The four characters for the bytes from i on. */
  function Quad(b: seq<Byte>, i: nat): (s: string)
    ensures |s| == 4
  {
    QuadOf(At(b, i), At(b, i + 1), At(b, i + 2), i + 1 >= |b|, i + 2 >= |b|)
  }

  lemma OneBlock(n: nat)
    requires n > 0
    ensures (n + 2) / 3 * 4 == 4 + if n <= 3 then 0 else (n - 3 + 2) / 3 * 4
  {
  }

  function EncodeFrom(b: seq<Byte>, i: nat): (s: string)
    ensures |s| == if i >= |b| then 0 else (|b| - i + 2) / 3 * 4
    decreases |b| - i
  {
    if i >= |b| then ""
    else
      OneBlock(|b| - i);
      Quad(b, i) + EncodeFrom(b, i + 3)
  }

  function Encode(b: seq<Byte>): string { EncodeFrom(b, 0) }

  /** The body of the encoding loop: one block. */
  method PutQuad(dst: array<char>, at: nat, src: seq<Byte>, i: nat)
    requires i < |src| && at + 4 <= dst.Length
    modifies dst
    ensures dst[..at + 4] == old(dst[..at]) + Quad(src, i) && dst[at + 4..] == old(dst[at + 4..])
  {
    hide CharOf;
    var src0, src1, src2, padding2, padding3 := src[i], 0, 0, true, true;
    if i + 1 < |src| {
      src1, padding2 := src[i + 1], false;
    }
    if i + 2 < |src| {
      src2, padding3 := src[i + 2], false;
    }
    dst[at + 0] := CharOf(src0 / 4);
    dst[at + 1] := CharOf(src0 % 4 * 16 + src1 / 16);
    dst[at + 2] := if padding2 then PADDING else CharOf(src1 % 16 * 4 + src2 / 64);
    dst[at + 3] := if padding3 then PADDING else CharOf(src2 % 64);
  }

  lemma EncodeStep(before: string, b: seq<Byte>, i: nat)
    requires i < |b|
    ensures before + EncodeFrom(b, i) == before + Quad(b, i) + EncodeFrom(b, i + 3)
  {
  }

  /** Writes the text and a terminating NUL into the destination if there is room, and nothing otherwise. */
  method EncodeInto(dst: array<char>, src: seq<Byte>) returns (code: int)
    modifies dst
    ensures |Encode(src)| == (|src| + 2) / 3 * 4
    ensures code == if |Encode(src)| + 1 <= dst.Length then 0 else 1
    ensures code == 0 ==> dst[..] == Encode(src) + [NUL] + old(dst[..])[|Encode(src)| + 1..]
    ensures code == 1 ==> dst[..] == old(dst[..])
  {
    hide Quad, EncodeFrom;
    var expected := (|src| + 2) / 3 * 4;
    if expected + 1 > dst.Length {
      return 1;
    }
    ghost var was := dst[..];
    var i, at := 0, 0;
    assert dst[..0] + Encode(src) == Encode(src);
    while i < |src|
      invariant i <= |src| + 2 && at + |EncodeFrom(src, i)| == expected
      invariant dst[..at] + EncodeFrom(src, i) == Encode(src)
      invariant dst[at..] == was[at..]
    {
      EncodeStep(dst[..at], src, i);
      PutQuad(dst, at, src, i);
      assert was[at + 4..] == was[at..][4..];
      i, at := i + 3, at + 4;
    }
    assert dst[..at] == Encode(src);
    dst[at] := NUL;
    assert dst[..at + 1] == Encode(src) + [NUL];
    assert dst[at + 1..] == was[at + 1..];
    assert dst[..] == dst[..at + 1] + dst[at + 1..];
    return 0;
  }

  // Decoding

  /** The three bytes of four six-bit values. */
  function Bytes(v0: Byte, v1: Byte, v2: Byte, v3: Byte): (seq<Byte>)
    requires v0 < 64 && v1 < 64 && v2 < 64 && v3 < 64
  {
    [v0 * 4 + v1 / 16, v1 % 16 * 16 + v2 / 4, v2 % 4 * 64 + v3]
  }

  lemma BytesBits(b0: Byte, b1: Byte, b2: Byte)
    ensures b0 / 4 * 4 + (b0 % 4 * 16 + b1 / 16) / 16 == b0
    ensures (b0 % 4 * 16 + b1 / 16) % 16 * 16 + (b1 % 16 * 4 + b2 / 64) / 4 == b1
    ensures (b1 % 16 * 4 + b2 / 64) % 4 * 64 + b2 % 64 == b2
  {
    Carry(b0 % 4, b1 / 16, 16);
    Carry(b1 % 16, b2 / 64, 4);
  }

  lemma SixesBits(v0: nat, v1: nat, v2: nat, v3: nat)
    requires v0 < 64 && v1 < 64 && v2 < 64 && v3 < 64
    ensures (v0 * 4 + v1 / 16) / 4 == v0
    ensures (v0 * 4 + v1 / 16) % 4 * 16 + (v1 % 16 * 16 + v2 / 4) / 16 == v1
    ensures (v1 % 16 * 16 + v2 / 4) % 16 * 4 + (v2 % 4 * 64 + v3) / 64 == v2
    ensures (v2 % 4 * 64 + v3) % 64 == v3
  {
    Carry(v0, v1 / 16, 4);
    Carry(v1 % 16, v2 / 4, 16);
    Carry(v2 % 4, v3, 64);
  }

  lemma Carry(high: nat, low: nat, base: nat)
    requires low < base && (base == 4 || base == 16 || base == 64)
    ensures (high * base + low) / base == high && (high * base + low) % base == low
  {
  }

  /** The bits of bytes come back from six-bit values, and those of six-bit values from bytes. */
  lemma BitsInvert(b0: Byte, b1: Byte, b2: Byte, v0: Byte, v1: Byte, v2: Byte, v3: Byte)
    requires v0 < 64 && v1 < 64 && v2 < 64 && v3 < 64
    ensures var (s0, s1, s2, s3) := Sixes(b0, b1, b2);
      s0 < 64 && s1 < 64 && s2 < 64 && s3 < 64 && Bytes(s0, s1, s2, s3) == [b0, b1, b2]
    ensures var b := Bytes(v0, v1, v2, v3); Sixes(b[0], b[1], b[2]) == (v0, v1, v2, v3)
  {
    hide Sixes, Bytes;
    SixesThenBytes(b0, b1, b2);
    BytesThenSixes(v0, v1, v2, v3);
  }

  lemma SixesThenBytes(b0: Byte, b1: Byte, b2: Byte)
    ensures var (s0, s1, s2, s3) := Sixes(b0, b1, b2);
      s0 < 64 && s1 < 64 && s2 < 64 && s3 < 64 && Bytes(s0, s1, s2, s3) == [b0, b1, b2]
  {
    BytesBits(b0, b1, b2);
  }

  lemma BytesThenSixes(v0: Byte, v1: Byte, v2: Byte, v3: Byte)
    requires v0 < 64 && v1 < 64 && v2 < 64 && v3 < 64
    ensures var b := Bytes(v0, v1, v2, v3); Sixes(b[0], b[1], b[2]) == (v0, v1, v2, v3)
  {
    SixesBits(v0, v1, v2, v3);
  }

  /** The bytes of a block; only the last block may be padded, in its last one or two characters. */
  function BlockBytes(c0: char, c1: char, c2: char, c3: char, last: bool): (r: Option<seq<Byte>>)
    ensures r.Some? ==> |r.value| == 3
  {
    var v0, v1, v2, v3 := ValueOf(c0), ValueOf(c1), ValueOf(c2), ValueOf(c3);
    if v0 == ILLEGAL || v1 == ILLEGAL then None
    else if !last then
      if v2 == ILLEGAL || v3 == ILLEGAL then None else Some(Bytes(v0, v1, v2, v3))
    else if c2 == PADDING then
      if c3 != PADDING then None else Some(Bytes(v0, v1, 0, 0))
    else if v2 == ILLEGAL then None
    else if c3 == PADDING then Some(Bytes(v0, v1, v2, 0))
    else if v3 == ILLEGAL then None
    else Some(Bytes(v0, v1, v2, v3))
  }

  function Triple(t: string, i: nat): (r: Option<seq<Byte>>)
    requires i + 4 <= |t|
    ensures r.Some? ==> |r.value| == 3
  {
    BlockBytes(t[i], t[i + 1], t[i + 2], t[i + 3], i + 4 >= |t|)
  }

  function DecodeFrom(t: string, i: nat): (r: Option<seq<Byte>>)
    requires i <= |t| && (|t| - i) % 4 == 0
    ensures r.Some? ==> |r.value| == (|t| - i) / 4 * 3
    decreases |t| - i
  {
    if i == |t| then Some([])
    else
      var b, rest := Triple(t, i), DecodeFrom(t, i + 4);
      if b.None? || rest.None? then None else Some(b.value + rest.value)
  }

  function Decode(t: string): Option<seq<Byte>> {
    if |t| % 4 == 0 then DecodeFrom(t, 0) else None
  }

  /** Alphabet characters, at the end perhaps one or two paddings, and whole blocks. */
  ghost predicate WellFormed(t: string) {
    && |t| % 4 == 0
    && (forall i :: 0 <= i < |t| ==>
          InAlphabet(t[i]) || (t[i] == '=' && (i == |t| - 1 || (i == |t| - 2 && t[|t| - 1] == '='))))
  }

  ghost predicate WellFormedFrom(t: string, from: nat) {
    forall i :: from <= i < |t| ==>
      InAlphabet(t[i]) || (t[i] == '=' && (i == |t| - 1 || (i == |t| - 2 && t[|t| - 1] == '=')))
  }

  lemma {:induction false} DecodesFrom(t: string, i: nat)
    requires i <= |t| && (|t| - i) % 4 == 0
    ensures DecodeFrom(t, i).Some? <==> WellFormedFrom(t, i)
    decreases |t| - i
  {
    hide ValueOf;
    TablesInvert(PADDING, 0);
    if i < |t| { DecodesFrom(t, i + 4); }
  }

  /** Exactly the well-formed texts decode. */
  lemma DecodesExactly(t: string)
    ensures Decode(t).Some? <==> WellFormed(t)
  {
    if |t| % 4 == 0 { DecodesFrom(t, 0); }
  }

  /** The body of the decoding loop: one block, or a failure before anything is written. */
  method PutTriple(dst: array<Byte>, at: nat, t: string, i: nat) returns (ok: bool)
    requires i + 4 <= |t| && at + 3 <= dst.Length
    modifies dst
    ensures ok <==> Triple(t, i).Some?
    ensures if ok then dst[..at + 3] == old(dst[..at]) + Triple(t, i).value && dst[at + 3..] == old(dst[at + 3..])
            else dst[..] == old(dst[..])
  {
    hide ValueOf;
    TablesInvert(t[i], 0);
    TablesInvert(t[i + 1], 0);
    TablesInvert(t[i + 2], 0);
    TablesInvert(t[i + 3], 0);
    var value0, value1, value2, value3 := ValueOf(t[i]), ValueOf(t[i + 1]), ValueOf(t[i + 2]), ValueOf(t[i + 3]);
    if value0 == ILLEGAL || value1 == ILLEGAL {
      return false;
    }
    if i + 4 < |t| {
      if value2 == ILLEGAL || value3 == ILLEGAL {
        return false;
      }
    } else if t[i + 2] == PADDING {
      if t[i + 3] != PADDING {
        return false;
      }
      value2, value3 := 0, 0;
    } else {
      if value2 == ILLEGAL {
        return false;
      }
      if t[i + 3] == PADDING {
        value3 := 0;
      } else if value3 == ILLEGAL {
        return false;
      }
    }
    dst[at + 0] := value0 * 4 + value1 / 16;
    dst[at + 1] := value1 % 16 * 16 + value2 / 4;
    dst[at + 2] := value2 % 4 * 64 + value3;
    return true;
  }

  lemma DecodeStep(before: seq<Byte>, t: string, i: nat)
    requires i < |t| && (|t| - i) % 4 == 0
    ensures DecodeFrom(t, i).Some? <==> Triple(t, i).Some? && DecodeFrom(t, i + 4).Some?
    ensures DecodeFrom(t, i).Some? ==>
      before + DecodeFrom(t, i).value == before + Triple(t, i).value + DecodeFrom(t, i + 4).value
  {
    hide Triple;
  }

  lemma DecodeEnd(t: string)
    ensures DecodeFrom(t, |t|) == Some([])
  {
  }

  /** Succeeds just if the text decodes and there is room for three bytes a block; nothing is written behind them. */
  method DecodeInto(dst: array<Byte>, t: string) returns (code: int)
    modifies dst
    ensures code == if Decode(t).Some? && |t| / 4 * 3 <= dst.Length then 0 else 1
    ensures code == 0 ==> dst[..] == Decode(t).value + old(dst[..])[|Decode(t).value|..]
    ensures |t| / 4 * 3 <= dst.Length ==> dst[|t| / 4 * 3..] == old(dst[|t| / 4 * 3..])
  {
    hide Triple, DecodeFrom;
    if |t| % 4 != 0 {
      return 1;
    }
    var expected := (|t| + 3) / 4 * 3;
    if expected > dst.Length {
      return 1;
    }
    assert 4 * expected == 3 * |t|;
    ghost var was := dst[..];
    var i, at := 0, 0;
    while i < |t|
      invariant i <= |t| && (|t| - i) % 4 == 0 && 4 * at == 3 * i
      invariant Decode(t).Some? <==> DecodeFrom(t, i).Some?
      invariant Decode(t).Some? ==> dst[..at] + DecodeFrom(t, i).value == Decode(t).value
      invariant dst[at..] == was[at..]
    {
      DecodeStep(dst[..at], t, i);
      var ok := PutTriple(dst, at, t, i);
      if !ok {
        assert dst[expected..] == was[at..][expected - at..];
        return 1;
      }
      assert was[at + 3..] == was[at..][3..];
      i, at := i + 4, at + 3;
    }
    DecodeEnd(t);
    assert dst[..at] + [] == dst[..at];
    assert dst[..] == dst[..at] + dst[at..];
    return 0;
  }

  /** A text that encodes bytes ends with one padding for each byte that its last block lacks, and has no other. */
  lemma {:induction false} PaddingTells(b: seq<Byte>, i: nat, k: nat)
    requires i <= |b| + 2 && k < |EncodeFrom(b, i)|
    ensures var n := |b| - i;
      EncodeFrom(b, i)[k] == '=' <==> k >= |EncodeFrom(b, i)| - (if n % 3 == 0 then 0 else 3 - n % 3)
    decreases |b| - i
  {
    hide Quad, CharOf, ValueOf;
    QuadPadding(b, i);
    if k >= 4 { PaddingTells(b, i + 3, k - 4); }
    LastBlock(|b| - i);
  }

  lemma LastBlock(n: nat)
    requires n > 0
    ensures n <= 3 ==> (n + 2) / 3 * 4 == 4
    ensures n > 3 ==> (n - 3) % 3 == n % 3 && (n + 2) / 3 * 4 == 4 + (n - 3 + 2) / 3 * 4 >= 8
  {
    OneBlock(n);
  }

  lemma QuadPadding(b: seq<Byte>, i: nat)
    requires i < |b|
    ensures var q := Quad(b, i);
      q[0] != '=' && q[1] != '=' && (q[2] == '=' <==> i + 1 == |b|) && (q[3] == '=' <==> i + 2 >= |b|)
  {
    hide CharOf, ValueOf;
    var (s0, s1, s2, s3) := Sixes(At(b, i), At(b, i + 1), At(b, i + 2));
    TablesInvert(PADDING, s0);
    TablesInvert(PADDING, s1);
    TablesInvert(PADDING, s2);
    TablesInvert(PADDING, s3);
  }

  // Round trips

  /** The bytes filled up with zeros to a multiple of three. */
  function Padded(b: seq<Byte>): seq<Byte> {
    b + seq((3 - |b| % 3) % 3, _ => 0)
  }

  function PaddedFrom(b: seq<Byte>, i: nat): seq<Byte>
    decreases |b| - i
  {
    if i >= |b| then [] else [At(b, i), At(b, i + 1), At(b, i + 2)] + PaddedFrom(b, i + 3)
  }

  lemma PaddedAt(b: seq<Byte>)
    ensures |Padded(b)| % 3 == 0 && |b| <= |Padded(b)| < |b| + 3
    ensures forall k: nat :: k < |Padded(b)| ==> Padded(b)[k] == At(b, k)
  {
  }

  lemma {:induction false} PaddedFromIs(b: seq<Byte>, i: nat)
    requires i % 3 == 0 && i <= |b| + 2
    ensures PaddedFrom(b, i) == if i >= |b| then [] else Padded(b)[i..]
    decreases |b| - i
  {
    hide Padded, At;
    PaddedAt(b);
    if i < |b| {
      PaddedFromIs(b, i + 3);
      var p := Padded(b);
      assert i + 3 <= |p| && (i + 3 >= |b| ==> |p| == i + 3);
      assert p[i..] == [p[i], p[i + 1], p[i + 2]] + p[i + 3..];
    }
  }

  lemma ZeroSixes(b0: Byte, b1: Byte, b2: Byte)
    ensures var s := Sixes(b0, b1, b2);
      (b2 == 0 ==> s.3 == 0) && (b1 == 0 && b2 == 0 ==> s.2 == 0)
  {
  }

  lemma BlockDecodes(b0: Byte, b1: Byte, b2: Byte, padding2: bool, padding3: bool, last: bool)
    requires (padding2 ==> padding3 && b1 == 0) && (padding3 ==> last && b2 == 0)
    ensures var q := QuadOf(b0, b1, b2, padding2, padding3);
      BlockBytes(q[0], q[1], q[2], q[3], last) == Some([b0, b1, b2])
  {
    hide CharOf, ValueOf, Sixes, Bytes;
    var (s0, s1, s2, s3) := Sixes(b0, b1, b2);
    BitsInvert(b0, b1, b2, 0, 0, 0, 0);
    ZeroSixes(b0, b1, b2);
    TablesInvert(PADDING, s0);
    TablesInvert(PADDING, s1);
    TablesInvert(PADDING, s2);
    TablesInvert(PADDING, s3);
  }

  lemma QuadDecodes(b: seq<Byte>, i: nat, t: string, at: nat)
    requires i < |b| && at + 4 <= |t| && t[at..at + 4] == Quad(b, i) && (at + 4 == |t| <==> i + 3 >= |b|)
    ensures Triple(t, at) == Some([At(b, i), At(b, i + 1), At(b, i + 2)])
  {
    hide BlockBytes, QuadOf;
    BlockDecodes(At(b, i), At(b, i + 1), At(b, i + 2), i + 1 >= |b|, i + 2 >= |b|, at + 4 >= |t|);
    var q := t[at..at + 4];
    assert t[at] == q[0] && t[at + 1] == q[1] && t[at + 2] == q[2] && t[at + 3] == q[3];
  }

  lemma {:induction false} EncodedDecodes(b: seq<Byte>, i: nat, t: string, at: nat)
    requires i % 3 == 0 && at <= |t| && t[at..] == EncodeFrom(b, i)
    ensures (|t| - at) % 4 == 0 && DecodeFrom(t, at) == Some(PaddedFrom(b, i))
    decreases |b| - i
  {
    hide Quad, Triple, At;
    if i < |b| {
      var q, rest := Quad(b, i), EncodeFrom(b, i + 3);
      assert t[at..] == q + rest;
      assert t[at..at + 4] == q && t[at + 4..] == rest;
      QuadDecodes(b, i, t, at);
      EncodedDecodes(b, i + 3, t, at + 4);
    }
  }

  /** Decoding an encoded text gives the bytes back, filled up with zeros to a multiple of three. */
  lemma DecodeUndoesEncode(b: seq<Byte>)
    ensures Decode(Encode(b)) == Some(Padded(b))
  {
    var t := Encode(b);
    assert t[0..] == EncodeFrom(b, 0);
    EncodedDecodes(b, 0, t, 0);
    PaddedFromIs(b, 0);
    assert b == [] ==> Padded(b) == [];
  }

  /** A text with the character of value zero for each padding. */
  function Filled(t: string): (r: string)
    ensures |r| == |t| && forall i :: 0 <= i < |t| ==> r[i] == Fill(t[i])
  {
    seq(|t|, i requires 0 <= i < |t| => Fill(t[i]))
  }

  function Fill(c: char): char { if c == PADDING then 'A' else c }

  lemma BlockEncodes(c0: char, c1: char, c2: char, c3: char, last: bool)
    requires BlockBytes(c0, c1, c2, c3, last).Some?
    ensures var b := BlockBytes(c0, c1, c2, c3, last).value;
      QuadOf(b[0], b[1], b[2], false, false) == [Fill(c0), Fill(c1), Fill(c2), Fill(c3)]
  {
    hide CharOf, ValueOf, Sixes, Bytes;
    TablesInvert(c0, 0);
    TablesInvert(c1, 0);
    TablesInvert(c2, 0);
    TablesInvert(c3, 0);
    ZeroIsA();
    var v2 := if c2 == PADDING then 0 else ValueOf(c2);
    var v3 := if c3 == PADDING then 0 else ValueOf(c3);
    BitsInvert(0, 0, 0, ValueOf(c0), ValueOf(c1), v2, v3);
  }

  lemma TripleEncodes(t: string, at: nat, b: seq<Byte>, i: nat)
    requires at + 4 <= |t| && Triple(t, at).Some? && i + 3 <= |b| && b[i..i + 3] == Triple(t, at).value
    ensures Quad(b, i) == Filled(t)[at..at + 4]
  {
    hide BlockBytes, QuadOf;
    BlockEncodes(t[at], t[at + 1], t[at + 2], t[at + 3], at + 4 >= |t|);
    var w := b[i..i + 3];
    assert b[i] == w[0] && b[i + 1] == w[1] && b[i + 2] == w[2];
  }

  lemma ZeroIsA()
    ensures CharOf(0) == 'A' && ValueOf(PADDING) == ILLEGAL
  {
  }

  lemma {:induction false} DecodedEncodes(t: string, at: nat, b: seq<Byte>, i: nat)
    requires at <= |t| && (|t| - at) % 4 == 0 && i <= |b| && DecodeFrom(t, at) == Some(b[i..])
    ensures EncodeFrom(b, i) == Filled(t)[at..]
    decreases |t| - at
  {
    hide Quad, Triple;
    if at < |t| {
      DecodeStep([], t, at);
      var w := Triple(t, at).value;
      assert b[i..] == w + DecodeFrom(t, at + 4).value;
      assert b[i..i + 3] == w && b[i + 3..] == DecodeFrom(t, at + 4).value;
      TripleEncodes(t, at, b, i);
      DecodedEncodes(t, at + 4, b, i + 3);
      assert Filled(t)[at..] == Filled(t)[at..at + 4] + Filled(t)[at + 4..];
    }
  }

  /** Encoding decoded bytes gives the text back, paddings filled: no bit of an accepted text is lost. */
  lemma EncodeUndoesDecode(t: string)
    requires Decode(t).Some?
    ensures Encode(Decode(t).value) == Filled(t)
  {
    var b := Decode(t).value;
    assert b[0..] == b && Filled(t)[0..] == Filled(t);
    DecodedEncodes(t, 0, b, 0);
  }
}
