/**
 The string type of the server: bytes with a terminating NUL that the length does
 not count. Texts are Dafny strings; a Str is a string object changed in place.
 */
module Strings {
  import opened Basics

  const NUL: char := 0 as char

  /** The character a C pointer sees at position i: the terminator from the end on. */
  function CharAt(s: string, i: nat): char {
    if i < |s| then s[i] else NUL
  }

  // Searching

  /** The first position from i on whose character satisfies p, or the end. */
  function Find(s: string, i: nat, p: char -> bool): (j: nat)
    requires i <= |s|
    ensures i <= j <= |s|
    ensures forall k :: i <= k < j ==> !p(s[k])
    ensures j < |s| ==> p(s[j])
    decreases |s| - i
  {
    if i == |s| || p(s[i]) then i else Find(s, i + 1, p)
  }

  lemma FindIs(s: string, i: nat, p: char -> bool, j: nat)
    requires i <= j <= |s| && (forall k :: i <= k < j ==> !p(s[k])) && (j < |s| ==> p(s[j]))
    ensures Find(s, i, p) == j
  {
  }

  /** The last position in [lo, hi) that holds c. */
  function FindLast(s: string, lo: nat, hi: nat, c: char): (r: Option<nat>)
    requires lo <= hi <= |s|
    ensures r.Some? ==> lo <= r.value < hi && s[r.value] == c && forall k :: r.value < k < hi ==> s[k] != c
    ensures r.None? ==> forall k :: lo <= k < hi ==> s[k] != c
    decreases hi - lo
  {
    if lo == hi then None else if s[hi - 1] == c then Some(hi - 1) else FindLast(s, lo, hi - 1, c)
  }

  /** The first position from start on that holds no character of find, searching up to a NUL. */
  function FirstNotOf(s: string, find: string, start: nat): (r: Option<nat>)
    ensures r.Some? ==> start <= r.value < |s| && s[r.value] != NUL && s[r.value] !in find
    ensures r.Some? ==> forall k :: start <= k < r.value ==> s[k] in find && s[k] != NUL
    ensures r.None? ==> forall k :: start <= k < |s| && s[k] !in find ==> exists m :: start <= m <= k && s[m] == NUL
    decreases |s| - start
  {
    if start >= |s| || s[start] == NUL then None
    else if s[start] !in find then Some(start)
    else FirstNotOf(s, find, start + 1)
  }

  /** The last position before end that holds no character of find. */
  function LastNotOf(s: string, find: string, end: nat): (r: Option<nat>)
    requires end <= |s|
    ensures r.Some? ==> r.value < end && s[r.value] !in find && forall k :: r.value < k < end ==> s[k] in find
    ensures r.None? ==> forall k :: 0 <= k < end ==> s[k] in find
  {
    if end == 0 then None
    else if s[end - 1] !in find then Some(end - 1)
    else LastNotOf(s, find, end - 1)
  }

  // Transforming

  predicate IsUpper(c: char) { 'A' <= c <= 'Z' }

  function LowerChar(c: char): char {
    if IsUpper(c) then (c as int - 'A' as int + 'a' as int) as char else c
  }

  function ToLower(s: string): (r: string)
    ensures |r| == |s| && forall i :: 0 <= i < |s| ==> r[i] == LowerChar(s[i])
  {
    seq(|s|, i requires 0 <= i < |s| => LowerChar(s[i]))
  }

  predicate IsLowerCase(s: string) {
    forall i :: 0 <= i < |s| ==> !IsUpper(s[i])
  }

  function TrimStart(s: string, find: string): (r: string)
    ensures |r| <= |s|
    ensures r != "" ==> r == s[|s| - |r|..] && r[0] !in find
  {
    match FirstNotOf(s, find, 0)
    case None => ""
    case Some(i) => s[i..]
  }

  function TrimEnd(s: string, find: string): (r: string)
    ensures r <= s
    ensures r != "" ==> r[|r| - 1] !in find
  {
    match LastNotOf(s, find, |s|)
    case None => ""
    case Some(i) => s[..i + 1]
  }

  function Trim(s: string, find: string): string {
    TrimEnd(TrimStart(s, find), find)
  }

  /** The text starts and ends with other characters than those of find, and does not start with NUL. */
  predicate IsTrimmed(s: string, find: string) {
    s == "" || (s[0] !in find && s[0] != NUL && s[|s| - 1] !in find)
  }

  /** Trimming leaves exactly the trimmed texts as they are. */
  lemma TrimmedStays(s: string, find: string)
    ensures Trim(s, find) == s <==> IsTrimmed(s, find)
  {
    if s != "" {
      var t := TrimStart(s, find);
      if s[0] !in find && s[0] != NUL {
        assert t == s[0..] == s;
      } else {
        assert |t| < |s|;
      }
    }
  }

  ghost predicate Over(s: string, find: string) {
    forall i :: 0 <= i < |s| ==> s[i] in find && s[i] != NUL
  }

  /** What is trimmed at the start: all leading characters of find, and everything if a NUL follows them. */
  lemma {:induction false} StartTrimmed(b: string, t: string, find: string)
    requires Over(b, find) && (t == "" || t[0] !in find || t[0] == NUL)
    ensures TrimStart(b + t, find) == if t != "" && t[0] == NUL then "" else t
  {
    FirstBehind(b + t, b, t, find, 0);
    assert (b + t)[|b|..] == t;
  }

  lemma {:induction false} FirstBehind(s: string, b: string, t: string, find: string, i: nat)
    requires s == b + t && i <= |b| && Over(b, find) && (t == "" || t[0] !in find || t[0] == NUL)
    ensures FirstNotOf(s, find, i) == if t == "" || t[0] == NUL then None else Some(|b|)
    decreases |b| - i
  {
    if i < |b| {
      assert s[i] == b[i];
      FirstBehind(s, b, t, find, i + 1);
    } else if t != "" {
      assert s[|b|] == t[0];
    }
  }

  /** What is trimmed at the end: all trailing characters of find. */
  lemma EndTrimmed(t: string, e: string, find: string)
    requires (forall i :: 0 <= i < |e| ==> e[i] in find) && (t == "" || t[|t| - 1] !in find)
    ensures TrimEnd(t + e, find) == t
  {
    LastBefore(t + e, t, e, find, |e|);
    assert (t + e)[..|t|] == t;
  }

  lemma {:induction false} LastBefore(s: string, t: string, e: string, find: string, n: nat)
    requires s == t + e && n <= |e| && (forall i :: 0 <= i < |e| ==> e[i] in find)
    requires t == "" || t[|t| - 1] !in find
    ensures LastNotOf(s, find, |t| + n) == if t == "" then None else Some(|t| - 1)
  {
    if n > 0 {
      assert s[|t| + n - 1] == e[n - 1];
      LastBefore(s, t, e, find, n - 1);
    } else if t != "" {
      assert s[|t| - 1] == t[|t| - 1];
    }
  }

  /** The range [start, end) of s, cut off at the end of s. */
  function Slice(s: string, start: nat, end: nat): (r: string)
    ensures |r| == Max(0, Min(end, |s|) - start)
    ensures forall i :: 0 <= i < |r| ==> r[i] == s[start + i]
  {
    if start >= end || start >= |s| then "" else if end > |s| then s[start..] else s[start..end]
  }

  /** The inner loop of the searches: is c one of the characters of find? */
  method IsOneOf(c: char, find: string) returns (found: bool)
    ensures found == (c in find)
  {
    var f := 0;
    while f < |find|
      invariant f <= |find|
      invariant c !in find[..f]
    {
      if c == find[f] {
        return true;
      }
      f := f + 1;
    }
    return false;
  }

  /** A string object. */
  class Str {
    var text: string

    constructor (text: string)
      ensures this.text == text
    {
      this.text := text;
    }

    method Clear()
      modifies this
      ensures text == ""
    {
      text := "";
    }

    method AppendSubstr(src: Str, start: nat, end: nat)
      modifies this
      ensures text == old(text) + Slice(old(src.text), start, end)
    {
      if start >= end || start >= |src.text| {
        return;
      }
      var stop := if end > |src.text| then |src.text| else end;
      text := text + src.text[start..stop];
    }

    /** Within one object an empty range leaves the text as it was; otherwise the text becomes the range. */
    method SetSubstr(src: Str, start: nat, end: nat)
      modifies this
      ensures src == this && (start >= end || start >= |old(src.text)|) ==> text == old(text)
      ensures !(src == this && (start >= end || start >= |old(src.text)|)) ==> text == Slice(old(src.text), start, end)
    {
      if src == this {
        if start >= end || start >= |text| {
          return;
        }
        var stop := if end > |text| then |text| else end;
        text := text[start..stop];
      } else {
        Clear();
        AppendSubstr(src, start, end);
      }
    }

    method IndexNotOfAny(find: string, start: nat) returns (r: Option<nat>)
      ensures r == FirstNotOf(text, find, start)
    {
      if |text| == 0 || start >= |text| {
        return None;
      }
      var i := start;
      while CharAt(text, i) != NUL
        invariant start <= i <= |text|
        invariant FirstNotOf(text, find, start) == FirstNotOf(text, find, i)
        decreases |text| - i
      {
        var found := IsOneOf(text[i], find);
        if !found {
          return Some(i);
        }
        i := i + 1;
      }
      return None;
    }

    method ReverseIndexNotOfAny(find: string, start: nat) returns (r: Option<nat>)
      ensures r == if |text| == 0 then None else LastNotOf(text, find, if start >= |text| then |text| else start + 1)
    {
      if |text| == 0 {
        return None;
      }
      var i: int := if start >= |text| then |text| - 1 else start;
      ghost var end := i + 1;
      while i != -1
        invariant -1 <= i < |text| && i < end <= |text|
        invariant LastNotOf(text, find, end) == LastNotOf(text, find, i + 1)
        decreases i
      {
        var found := IsOneOf(text[i], find);
        if !found {
          return Some(i);
        }
        i := i - 1;
      }
      return None;
    }

    method TrimStartAnyOf(src: Str, find: string)
      modifies this
      ensures text == TrimStart(old(src.text), find)
    {
      var i := src.IndexNotOfAny(find, 0);
      if i.None? {
        Clear();
      } else {
        SetSubstr(src, i.value, |src.text|);
      }
    }

    method TrimEndAnyOf(src: Str, find: string)
      modifies this
      ensures text == TrimEnd(old(src.text), find)
    {
      var i := src.ReverseIndexNotOfAny(find, |src.text|);
      if i.None? {
        Clear();
      } else {
        SetSubstr(src, 0, i.value + 1);
      }
    }

    method TrimAnyOf(src: Str, find: string)
      modifies this
      ensures text == Trim(old(src.text), find)
    {
      TrimStartAnyOf(src, find);
      TrimEndAnyOf(this, find);
    }

    /** Lower-casing in place or from another string, one character at a time. */
    method SetLower(src: Str)
      modifies this
      ensures text == ToLower(old(src.text))
    {
      ghost var was := src.text;
      var len := |src.text|;
      if src != this {
        text := seq(len, i => NUL);
      }
      var i := 0;
      while i < len
        invariant 0 <= i <= len == |text| == |src.text| == |was|
        invariant src != this ==> src.text == was
        invariant forall k :: 0 <= k < i ==> text[k] == LowerChar(was[k])
        invariant forall k :: i <= k < len ==> src.text[k] == was[k]
      {
        var c := src.text[i];
        text := text[i := if 'A' <= c <= 'Z' then (c as int - 'A' as int + 'a' as int) as char else c];
        i := i + 1;
      }
    }
  }

  // Comparing

  /** string_compare_cstr_len without regard to case: zero exactly for equal texts up to case. */
  method CompareIgnoringCase(a: string, b: string) returns (diff: int)
    ensures diff == 0 <==> ToLower(a) == ToLower(b)
  {
    var min := if |a| < |b| then |a| else |b|;
    var i := 0;
    while i < min
      invariant 0 <= i <= min
      invariant ToLower(a)[..i] == ToLower(b)[..i]
    {
      var d := LowerChar(a[i]) as int - LowerChar(b[i]) as int;
      if d != 0 {
        assert ToLower(a)[i] != ToLower(b)[i];
        return d;
      }
      i := i + 1;
    }
    return |a| - |b|;
  }
}
