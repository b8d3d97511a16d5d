/** string_split: cutting a text at the leftmost matches of a delimiter. */
module Splitting {
  import opened Basics

  datatype Range = Range(start: nat, end: nat)

  /** The delimiter stands at position i, and not at the very end of the text: there it is never looked for. */
  predicate MatchesAt(s: string, delim: string, i: nat) {
    i + |delim| < |s| && s[i..i + |delim|] == delim
  }

  function NextMatch(s: string, delim: string, i: nat): (r: Option<nat>)
    ensures r.Some? ==> i <= r.value && r.value + |delim| < |s| && MatchesAt(s, delim, r.value)
    decreases |s| - i
  {
    if i + |delim| >= |s| then None
    else if MatchesAt(s, delim, i) then Some(i)
    else NextMatch(s, delim, i + 1)
  }

  ghost predicate NoMatchIn(s: string, delim: string, from: nat, to: nat) {
    forall i :: from <= i < to ==> !MatchesAt(s, delim, i)
  }

  lemma {:induction false} NextMatchIsFirst(s: string, delim: string, i: nat)
    ensures var r := NextMatch(s, delim, i); NoMatchIn(s, delim, i, if r.Some? then r.value else |s|)
    decreases |s| - i
  {
    if i + |delim| < |s| && !MatchesAt(s, delim, i) { NextMatchIsFirst(s, delim, i + 1); }
  }

  lemma {:induction false} FirstMatchIs(s: string, delim: string, i: nat, j: nat)
    requires i <= j && NoMatchIn(s, delim, i, j) && (MatchesAt(s, delim, j) || j + |delim| >= |s|)
    ensures NextMatch(s, delim, i) == if MatchesAt(s, delim, j) then Some(j) else None
    decreases |s| - i
  {
    if i < j && i + |delim| < |s| { FirstMatchIs(s, delim, i + 1, j); }
  }

  /** The ranges s[start..] is cut into; max limits their number, 0 does not. */
  function Ranges(s: string, start: nat, delim: string, max: nat): (r: seq<Range>)
    requires start <= |s| && 0 < |delim|
    ensures |r| >= 1
    decreases |s| - start
  {
    var next := NextMatch(s, delim, start);
    if max == 1 || next.None? then [Range(start, |s|)]
    else
      [Range(start, next.value)]
      + Ranges(s, next.value + |delim|, delim, if max == 0 then 0 else max - 1)
  }

  function Texts(s: string, ranges: seq<Range>): seq<string>
    requires forall r :: r in ranges ==> r.start <= r.end <= |s|
  {
    seq(|ranges|, k requires 0 <= k < |ranges| => s[ranges[k].start..ranges[k].end])
  }

  function Join(parts: seq<string>, delim: string): string {
    if parts == [] then "" else if |parts| == 1 then parts[0] else parts[0] + delim + Join(parts[1..], delim)
  }

  /** The ranges lie in the text and follow each other with one delimiter between two. */
  ghost predicate Adjacent(s: string, start: nat, delim: string, ranges: seq<Range>) {
    && |ranges| >= 1
    && ranges[0].start == start
    && ranges[|ranges| - 1].end == |s|
    && (forall k :: 0 <= k < |ranges| ==> ranges[k].start <= ranges[k].end <= |s|)
    && (forall k :: 0 <= k < |ranges| - 1 ==>
          ranges[k + 1].start == ranges[k].end + |delim| && MatchesAt(s, delim, ranges[k].end))
  }

  lemma {:induction false} RangesAreAdjacent(s: string, start: nat, delim: string, max: nat)
    requires start <= |s| && 0 < |delim|
    ensures Adjacent(s, start, delim, Ranges(s, start, delim, max))
    decreases |s| - start
  {
    hide NextMatch, Adjacent, MatchesAt;
    var next := NextMatch(s, delim, start);
    if max == 1 || next.None? {
      OnePiece(s, start, delim);
    } else {
      var rest := Ranges(s, next.value + |delim|, delim, if max == 0 then 0 else max - 1);
      RangesAreAdjacent(s, next.value + |delim|, delim, if max == 0 then 0 else max - 1);
      AdjacentCons(s, start, delim, Range(start, next.value), rest);
    }
  }

  lemma OnePiece(s: string, start: nat, delim: string)
    requires start <= |s|
    ensures Adjacent(s, start, delim, [Range(start, |s|)])
  {
  }

  lemma AdjacentCons(s: string, start: nat, delim: string, first: Range, rest: seq<Range>)
    requires start == first.start <= first.end && MatchesAt(s, delim, first.end)
    requires Adjacent(s, first.end + |delim|, delim, rest)
    ensures Adjacent(s, start, delim, [first] + rest)
  {
    hide MatchesAt;
    assert first.end <= |s| by { MatchInside(s, delim, first.end); }
  }

  lemma MatchInside(s: string, delim: string, i: nat)
    requires MatchesAt(s, delim, i)
    ensures i + |delim| < |s|
  {
  }

  /** No piece could have been cut earlier, and there are fewer than max only if nothing is left to cut. */
  ghost predicate Leftmost(s: string, delim: string, max: nat, r: seq<Range>) {
    && |r| >= 1
    && (max != 0 ==> |r| <= max)
    && (forall k :: 0 <= k < |r| - 1 ==> NoMatchIn(s, delim, r[k].start, r[k].end))
    && (max == 0 || |r| < max ==> NoMatchIn(s, delim, r[|r| - 1].start, |s|))
  }

  lemma {:induction false} RangesAreLeftmost(s: string, start: nat, delim: string, max: nat)
    requires start <= |s| && 0 < |delim|
    ensures Leftmost(s, delim, max, Ranges(s, start, delim, max))
    decreases |s| - start
  {
    hide NextMatch, MatchesAt, NoMatchIn, Leftmost;
    var next := NextMatch(s, delim, start);
    NextMatchIsFirst(s, delim, start);
    if max == 1 || next.None? {
      LeftmostOne(s, delim, max, Range(start, |s|));
    } else {
      var left := if max == 0 then 0 else max - 1;
      var rest := Ranges(s, next.value + |delim|, delim, left);
      RangesAreLeftmost(s, next.value + |delim|, delim, left);
      LeftmostCons(s, delim, max, Range(start, next.value), rest);
    }
  }

  lemma LeftmostOne(s: string, delim: string, max: nat, only: Range)
    requires max == 1 || NoMatchIn(s, delim, only.start, |s|)
    ensures Leftmost(s, delim, max, [only])
  {
  }

  lemma LeftmostCons(s: string, delim: string, max: nat, first: Range, rest: seq<Range>)
    requires max != 1 && NoMatchIn(s, delim, first.start, first.end)
    requires Leftmost(s, delim, if max == 0 then 0 else max - 1, rest)
    ensures Leftmost(s, delim, max, [first] + rest)
  {
  }

  /** Joining the pieces with the delimiter gives the text back. */
  lemma {:induction false} SplitThenJoin(s: string, start: nat, delim: string, max: nat)
    requires start <= |s| && 0 < |delim|
    ensures Adjacent(s, start, delim, Ranges(s, start, delim, max))
    ensures Join(Texts(s, Ranges(s, start, delim, max)), delim) == s[start..]
  {
    RangesAreAdjacent(s, start, delim, max);
    JoinAdjacent(s, start, delim, Ranges(s, start, delim, max));
  }

  lemma {:induction false} JoinAdjacent(s: string, start: nat, delim: string, r: seq<Range>)
    requires Adjacent(s, start, delim, r)
    ensures Join(Texts(s, r), delim) == s[start..]
    decreases |r|
  {
    if |r| > 1 {
      AdjacentTail(s, start, delim, r);
      JoinAdjacent(s, r[1].start, delim, r[1..]);
      assert Texts(s, r)[1..] == Texts(s, r[1..]);
    }
  }

  lemma AdjacentTail(s: string, start: nat, delim: string, r: seq<Range>)
    requires Adjacent(s, start, delim, r) && |r| > 1
    ensures Adjacent(s, r[1].start, delim, r[1..])
    ensures s[start..] == s[start..r[0].end] + delim + s[r[1].start..]
  {
    var i, j := r[0].end, r[1].start;
    assert MatchesAt(s, delim, i) && j == i + |delim|;
    assert s[start..] == s[start..i] + s[i..j] + s[j..];
  }

  /** The caller's array with the first n ranges written to it as pairs. */
  function Written(was: seq<nat>, r: seq<Range>, n: nat): (w: seq<nat>)
    requires n <= |r| && 2 * n <= |was|
    ensures |w| == |was|
  {
    if n == 0 then was
    else Written(was, r, n - 1)[2 * n - 2 := r[n - 1].start][2 * n - 1 := r[n - 1].end]
  }

  lemma {:induction false} WrittenAt(was: seq<nat>, r: seq<Range>, n: nat, j: nat)
    requires n <= |r| && 2 * n <= |was| && j < |was|
    ensures Written(was, r, n)[j] ==
      if j >= 2 * n then was[j] else if j % 2 == 0 then r[j / 2].start else r[j / 2].end
  {
    if n > 0 { WrittenAt(was, r, n - 1, j); }
  }

  lemma {:induction false} WrittenPrefix(was: seq<nat>, r: seq<Range>, more: seq<Range>, n: nat)
    requires n <= |r| && 2 * n <= |was|
    ensures Written(was, r + more, n) == Written(was, r, n)
  {
    if n > 0 { WrittenPrefix(was, r, more, n - 1); }
  }

  /** Stores the next piece if there is room for it. */
  method Put(results: array<nat>, capacity: nat, piece: Range, n: nat, ghost was: seq<nat>, ghost done: seq<Range>)
    requires n == |done| && 2 * capacity <= results.Length == |was|
    requires results[..] == Written(was, done, Min(n, capacity))
    modifies results
    ensures results[..] == Written(was, done + [piece], Min(n + 1, capacity))
  {
    WrittenPrefix(was, done, [piece], Min(n, capacity));
    if n < capacity {
      results[2 * n + 0] := piece.start;
      results[2 * n + 1] := piece.end;
    }
  }

  /** There is only one way to split leftmost. */
  lemma SplitIsUnique(s: string, start: nat, delim: string, max: nat, q: seq<Range>, r: seq<Range>)
    requires 0 < |delim| && max != 1
    requires Adjacent(s, start, delim, q) && Leftmost(s, delim, max, q)
    requires Adjacent(s, start, delim, r) && Leftmost(s, delim, max, r)
    ensures q == r
  {
    hide Adjacent, Leftmost;
    FirstStart(s, start, delim, q);
    FirstStart(s, start, delim, r);
    var n := Min(|q|, |r|);
    var k := 0;
    while k < n
      invariant k <= n && q[..k] == r[..k]
      invariant k < n ==> q[k].start == r[k].start
      invariant k == n ==> |q| == |r|
    {
      SamePiece(s, start, delim, max, q, r, k);
      k := k + 1;
    }
  }

  lemma FirstStart(s: string, start: nat, delim: string, r: seq<Range>)
    requires Adjacent(s, start, delim, r)
    ensures |r| >= 1 && r[0].start == start
  {
  }

  lemma SamePiece(s: string, start: nat, delim: string, max: nat, q: seq<Range>, r: seq<Range>, k: nat)
    requires 0 < |delim| && max != 1
    requires Adjacent(s, start, delim, q) && Leftmost(s, delim, max, q)
    requires Adjacent(s, start, delim, r) && Leftmost(s, delim, max, r)
    requires k < |q| && k < |r| && q[k].start == r[k].start
    ensures q[k] == r[k] && (k + 1 == |q| <==> k + 1 == |r|)
    ensures k + 1 < |q| && k + 1 < |r| ==> q[k + 1].start == r[k + 1].start
  {
  }

  /** done are leftmost cuts of the text from start to from. */
  ghost predicate Cuts(s: string, delim: string, start: nat, done: seq<Range>, from: nat)
    decreases |done|
  {
    if done == [] then from == start
    else
      var last := done[|done| - 1];
      && last.start <= last.end && last.end + |delim| == from
      && NoMatchIn(s, delim, last.start, last.end) && MatchesAt(s, delim, last.end)
      && Cuts(s, delim, start, done[..|done| - 1], last.start)
  }

  /** Cutting the last piece once more. */
  lemma CutLast(s: string, start: nat, delim: string, init: seq<Range>, from: nat, i: nat)
    requires from <= i && MatchesAt(s, delim, i)
    requires Adjacent(s, start, delim, init + [Range(from, |s|)])
    ensures Adjacent(s, start, delim, init + [Range(from, i)] + [Range(i + |delim|, |s|)])
  {
    var q, r := init + [Range(from, |s|)], init + [Range(from, i)] + [Range(i + |delim|, |s|)];
    forall k | 0 <= k < |r| - 1
      ensures r[k + 1].start == r[k].end + |delim| && MatchesAt(s, delim, r[k].end) && r[k].start <= r[k].end
    {
      if k < |init| { assert q[k] == r[k] && q[k + 1].start == r[k + 1].start; }
    }
    assert r[0].start == q[0].start;
  }

  lemma {:induction false} CutsThenRest(s: string, delim: string, start: nat, done: seq<Range>, from: nat)
    requires from <= |s| && Cuts(s, delim, start, done, from)
    ensures Adjacent(s, start, delim, done + [Range(from, |s|)])
    ensures forall k :: 0 <= k < |done| ==> NoMatchIn(s, delim, done[k].start, done[k].end)
    decreases |done|
  {
    if done != [] {
      var init, last := done[..|done| - 1], done[|done| - 1];
      CutsThenRest(s, delim, start, init, last.start);
      CutLast(s, start, delim, init, last.start, last.end);
      assert done == init + [last];
    }
  }

  lemma NothingCut(s: string, delim: string, start: nat, was: seq<nat>)
    ensures Cuts(s, delim, start, [], start) && NoMatchIn(s, delim, start, start) && Written(was, [], 0) == was
  {
  }

  lemma CutOnce(s: string, delim: string, start: nat, done: seq<Range>, from: nat, i: nat)
    requires Cuts(s, delim, start, done, from) && from <= i && NoMatchIn(s, delim, from, i) && MatchesAt(s, delim, i)
    ensures Cuts(s, delim, start, done + [Range(from, i)], i + |delim|)
    ensures NoMatchIn(s, delim, i + |delim|, i + |delim|)
  {
    var all := done + [Range(from, i)];
    assert all[..|all| - 1] == done;
  }

  lemma NoMatchGrows(s: string, delim: string, from: nat, i: nat)
    requires NoMatchIn(s, delim, from, i) && !MatchesAt(s, delim, i)
    ensures NoMatchIn(s, delim, from, i + 1)
  {
  }

  lemma NothingLeft(s: string, delim: string, from: nat, i: nat)
    requires NoMatchIn(s, delim, from, i) && i + |delim| >= |s|
    ensures NoMatchIn(s, delim, from, |s|)
  {
  }

  lemma LeftmostSnoc(s: string, delim: string, max: nat, done: seq<Range>, last: Range)
    requires forall k :: 0 <= k < |done| ==> NoMatchIn(s, delim, done[k].start, done[k].end)
    requires (max != 0 ==> |done| < max) && (max == 0 || |done| + 1 < max ==> NoMatchIn(s, delim, last.start, |s|))
    ensures Leftmost(s, delim, max, done + [last])
  {
    hide NoMatchIn;
    var r := done + [last];
    assert forall k :: 0 <= k < |r| - 1 ==> r[k] == done[k];
  }

  lemma CutsAreRanges(s: string, delim: string, start: nat, done: seq<Range>, from: nat, i: nat, max: nat)
    requires 0 < |delim| && start <= |s| && from <= |s| && Cuts(s, delim, start, done, from)
    requires max != 1 && (max != 0 ==> |done| < max)
    requires |done| + 1 == max || (from <= i && NoMatchIn(s, delim, from, i) && i + |delim| >= |s|)
    ensures Ranges(s, start, delim, max) == done + [Range(from, |s|)]
  {
    hide Ranges, Adjacent, Leftmost, Cuts, NoMatchIn, MatchesAt;
    RangesAreAdjacent(s, start, delim, max);
    RangesAreLeftmost(s, start, delim, max);
    CutsThenRest(s, delim, start, done, from);
    if max == 0 || |done| + 1 < max { NothingLeft(s, delim, from, i); }
    LeftmostSnoc(s, delim, max, done, Range(from, |s|));
    SplitIsUnique(s, start, delim, max, Ranges(s, start, delim, max), done + [Range(from, |s|)]);
  }

  /**
   results receives start and end of the first pieces, as far as capacity allows; the count is that of
   all pieces. The exception is max_results 1: the text is still cut once, and the second piece counted
   but not stored.
   */
  method Split(s: string, start: nat, delim: string, results: array<nat>, capacity: nat, maxResults: nat)
    returns (count: nat)
    requires start <= |s| && 0 < |delim| && results.Length >= 2 * capacity
    modifies results
    ensures var r := Ranges(s, start, delim, if maxResults == 1 then 2 else maxResults);
      && count == |r|
      && results[..] == Written(old(results[..]), r, Min(if maxResults == 1 then 1 else count, capacity))
  {
    hide Cuts, NoMatchIn, Written, Ranges;
    ghost var was, done := results[..], [];
    NothingCut(s, delim, start, was);
    var len := |s|;
    if |delim| > len - start {
      CutsAreRanges(s, delim, start, done, start, start, if maxResults == 1 then 2 else maxResults);
      Put(results, capacity, Range(start, len), 0, was, done);
      return 1;
    }
    var from := start;
    count := 0;
    var i := start;
    while i < len - |delim|
      invariant start <= from <= i && from < len
      invariant maxResults != 0 ==> count + 1 < (if maxResults == 1 then 2 else maxResults)
      invariant |done| == count && Cuts(s, delim, start, done, from) && NoMatchIn(s, delim, from, i)
      invariant results[..] == Written(was, done, Min(count, capacity))
      decreases len - i
    {
      if s[i..i + |delim|] == delim {
        Put(results, capacity, Range(from, i), count, was, done);
        CutOnce(s, delim, start, done, from, i);
        done := done + [Range(from, i)];
        from := i + |delim|;
        i := i + |delim| - 1;
        count := count + 1;
        if maxResults != 0 && count + 1 >= maxResults {
          break;
        }
      } else {
        NoMatchGrows(s, delim, from, i);
      }
      i := i + 1;
    }
    CutsAreRanges(s, delim, start, done, from, i, if maxResults == 1 then 2 else maxResults);
    if from < len {
      if maxResults == 0 || count < maxResults {
        Put(results, capacity, Range(from, len), count, was, done);
      } else {
        WrittenPrefix(was, done, [Range(from, len)], Min(count, capacity));
      }
      count := count + 1;
    }
  }
}
