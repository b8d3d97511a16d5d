/**
 Receiving a request: how far http_request_parse reads, what the ways of cutting the same
 bytes into reads have in common, and which of them it accepts.
 */
module HttpReceive {
  import opened Basics
  import opened Numbers
  import opened HttpHead
  import opened HttpGrammar

  const CHUNK: nat := 1024
  const MAX_HEAD: nat := 64 * CHUNK

  /** What one read from the connection gives; no bytes at the end of the stream. */
  datatype Read = Data(bytes: string) | Failure

  /**
   The buffer length at which reading stops. With a Content-Length it counts from the empty
   line, not from the body.
   */
  function Limit(b: string): nat {
    match ScanHead(b)
    case More(_, _) => MAX_HEAD
    case Malformed(_) => |b|
    case Complete(h) => if h.length.Present? then (h.blank + h.length.size) % SIZE_MODULUS else |b|
  }

  /** How the read loop ends and the buffer then: broken off by a malformed line or a failed read, or not. */
  datatype Reception = Stopped(buffer: string) | Broken(buffer: string)

  function Received(b: string, input: seq<Read>): Reception
    decreases |input|
  {
    if ScanHead(b).Malformed? then Broken(b)
    else if |b| >= Limit(b) || input == [] || input[0] == Data("") then Stopped(b)
    else if input[0].Failure? then Broken(b)
    else Received(b + input[0].bytes, input[1..])
  }

  datatype Outcome = Rejected | Accepted(head: Head, body: string)

  function OutcomeOf(received: Reception): Outcome {
    if received.Broken? || !ScanHead(received.buffer).Complete? then Rejected
    else
      var b, h := received.buffer, ScanHead(received.buffer).head;
      if |b| - h.BodyStart() == h.BodySize() then Accepted(h, b[h.BodyStart()..]) else Rejected
  }

  /** What http_request_parse returns and stores when its reads give these. */
  function Parse(input: seq<Read>): Outcome {
    OutcomeOf(Received("", input))
  }

  /** Reading goes on for the first 65536 bytes in search of the head, and not beyond. */
  lemma LimitOfHead(b: string)
    requires ScanHead(b).More?
    ensures |b| >= Limit(b) <==> |b| >= 65536
  {
    hide ScanHead;
  }

  // Soundness

  function Bytes(input: seq<Read>): string {
    if input == [] || input[0].Failure? then "" else input[0].bytes + Bytes(input[1..])
  }

  lemma {:induction false} ReceivedIsPrefix(b: string, input: seq<Read>)
    ensures var r := Received(b, input);
      r.buffer <= b + Bytes(input) && (r.Stopped? ==> !ScanHead(r.buffer).Malformed?)
    decreases |input|
  {
    hide ScanHead, Limit;
    if input != [] && input[0].Data? {
      ReceivedIsPrefix(b + input[0].bytes, input[1..]);
      assert b + input[0].bytes + Bytes(input[1..]) == b + Bytes(input);
    }
  }

  /**
   Whatever is accepted starts the bytes that were read and is a request line, header
   lines, an empty line and a body of the size that the single Content-Length value
   tells, none without that header.
   */
  lemma AcceptedIsWellFormed(input: seq<Read>)
    requires Parse(input).Accepted?
    ensures var (h, body) := (Parse(input).head, Parse(input).body);
      exists first, lines :: Denote(first, lines, h) && first + CRLF + Block(lines) + body <= Bytes(input)
        && TellSize(lines, |body|)
  {
    hide ScanHead, Denote, Block, Received, TellSize;
    var b, h := Received("", input).buffer, Parse(input).head;
    ReceivedIsPrefix("", input);
    assert "" + Bytes(input) == Bytes(input);
    var first, lines := CompleteIsGrammar(b);
    MeaningDenotes(first, lines, b[h.BodyStart()..]);
    DenotedLength(first, lines, h);
  }

  // The end of the reads

  /** The reads that follow an end of the stream do not count, and that end is like no more reads. */
  lemma {:induction false} NothingAfterEnd(b: string, input: seq<Read>, more: seq<Read>)
    ensures Received(b, input + [Data("")] + more) == Received(b, input)
    decreases |input|
  {
    hide ScanHead, Limit;
    var all := input + [Data("")] + more;
    if input == [] {
      assert all[0] == Data("");
    } else {
      assert all[0] == input[0] && all[1..] == input[1..] + [Data("")] + more;
      if input[0].Data? { NothingAfterEnd(b + input[0].bytes, input[1..], more); }
    }
  }

  /** Reading on: a read that comes before the limit breaks the reception off if it fails. */
  lemma {:induction false} FailureBreaksOff(b: string, input: seq<Read>, more: seq<Read>)
    requires forall k :: 0 <= k < |input| ==> input[k].Data? && input[k].bytes != ""
    ensures var r := Received(b, input);
      Received(b, input + [Failure] + more) ==
        if r.Stopped? && |r.buffer| < Limit(r.buffer) then Broken(r.buffer) else r
    decreases |input|
  {
    hide ScanHead, Limit;
    var all := input + [Failure] + more;
    if input == [] {
      assert all[0] == Failure;
    } else {
      assert all[0] == input[0] && all[1..] == input[1..] + [Failure] + more;
      FailureBreaksOff(b + input[0].bytes, input[1..], more);
    }
  }

  lemma {:induction false} StopIsFinal(b: string, input: seq<Read>, more: seq<Read>)
    requires OutcomeOf(Received(b, input)).Accepted?
    ensures Received(b, input + more) == Received(b, input)
    decreases |input|
  {
    hide ScanHead, OutcomeOf;
    var r := Received(b, input);
    if |b| < Limit(b) && input != [] && input[0] != Data("") {
      assert (input + more)[0] == input[0] && (input + more)[1..] == input[1..] + more;
      if input[0].Data? { StopIsFinal(b + input[0].bytes, input[1..], more); } else { BrokenIsRejected(b); }
    } else {
      if |b| < Limit(b) { AcceptedHasStopped(b); }
    }
  }

  lemma BrokenIsRejected(b: string)
    ensures OutcomeOf(Broken(b)) == Rejected
  {
  }

  /** What makes a request is never short of the limit. */
  lemma AcceptedHasStopped(b: string)
    requires OutcomeOf(Stopped(b)).Accepted?
    ensures |b| >= Limit(b)
  {
    hide ScanHead;
  }

  /** Once the reads make a request, nothing that follows them changes it. */
  lemma AcceptedIsFinal(input: seq<Read>, more: seq<Read>)
    requires Parse(input).Accepted?
    ensures Parse(input + more) == Parse(input)
  {
    hide OutcomeOf, Received;
    StopIsFinal("", input, more);
  }

  // Independence of the head

  /** The reads deliver t, nothing else, and then the stream ends. */
  ghost predicate Delivers(input: seq<Read>, t: string) {
    && (forall k :: 0 <= k < |input| ==> input[k].Data? && 1 <= |input[k].bytes| <= 1024)
    && Bytes(input) == t
  }

  lemma ScanOfPrefix(b: string, t: string)
    requires b <= t && !ScanHead(b).More?
    ensures ScanHead(t) == ScanHead(b)
  {
    hide ScanFrom;
    assert t == b + t[|b|..];
    ScanExtends(b, t[|b|..], 0, NOTHING);
  }

  /** Given b, the reads deliver the rest of t. */
  ghost predicate DeliverRest(b: string, input: seq<Read>, t: string) {
    b <= t && Delivers(input, t[|b|..])
  }

  lemma OneRead(b: string, input: seq<Read>, t: string)
    requires DeliverRest(b, input, t) && input != []
    ensures DeliverRest(b + input[0].bytes, input[1..], t) && input[0].Data? && input[0].bytes != ""
  {
    var c := input[0].bytes;
    assert t[|b|..] == c + Bytes(input[1..]);
    assert t == b + t[|b|..] == b + c + Bytes(input[1..]);
    assert t[|b + c|..] == Bytes(input[1..]);
  }

  /** The head ends within the bytes that are read in any case, or nothing more was sent. */
  predicate HeadInReach(t: string) {
    |t| <= MAX_HEAD || !ScanHead(t[..MAX_HEAD]).More?
  }

  lemma {:induction false} ReceivedHasHead(b: string, input: seq<Read>, t: string)
    requires DeliverRest(b, input, t) && HeadInReach(t)
    ensures var r := Received(b, input);
      r.buffer <= t && ScanHead(r.buffer) == ScanHead(t) && (r.Broken? <==> ScanHead(t).Malformed?)
    decreases |input|
  {
    hide ScanHead;
    if !ScanHead(b).More? { ScanOfPrefix(b, t); }
    if |b| >= Limit(b) {
      if |t| > MAX_HEAD && ScanHead(b).More? {
        assert t[..MAX_HEAD] <= b;
        ScanOfPrefix(t[..MAX_HEAD], b);
      }
      assert |b| == |t| ==> b == t;
    } else if input == [] {
      assert b == t;
    } else {
      OneRead(b, input, t);
      ReceivedHasHead(b + input[0].bytes, input[1..], t);
    }
  }

  /**
   However the same bytes are cut into reads, also within a CRLF: the head is rejected for
   all of them or none, and the method, the headers and the start of the body are those of
   the whole text scanned at once.
   */
  lemma HeadIsIndependentOfReads(input: seq<Read>, t: string)
    requires Delivers(input, t) && HeadInReach(t)
    ensures ScanHead(Received("", input).buffer) == ScanHead(t)
    ensures Received("", input).Broken? <==> ScanHead(t).Malformed?
    ensures Parse(input).Accepted? ==> ScanHead(t) == Complete(Parse(input).head)
  {
    hide ScanHead, Received;
    assert t[|""|..] == t;
    ReceivedHasHead("", input, t);
  }

  // The body

  /** The buffer length at the first end of a read at or past the goal, or at the end of the stream. */
  function Reached(have: nat, input: seq<Read>, goal: nat): nat
    decreases |input|
  {
    if have >= goal || input == [] || input[0].Failure? then have
    else Reached(have + |input[0].bytes|, input[1..], goal)
  }

  /**
   The first length at which reading stops once the head is complete: two bytes short of the
   request, but not before the body, and with the wrap-around of a Content-Length that large.
   */
  function Goal(h: Head): nat {
    Max(h.BodyStart(), (h.blank + h.BodySize()) % 0x1_0000_0000_0000_0000)
  }

  /** The head is read as a whole: it ends within the limit, or the read that passes the limit still holds its end. */
  predicate HeadIsRead(input: seq<Read>, h: Head) {
    h.BodyStart() <= MAX_HEAD || Reached(0, input, MAX_HEAD) >= h.BodyStart()
  }

  lemma ScanOfLongPrefix(b: string, t: string, h: Head)
    requires b <= t && ScanHead(t) == Complete(h)
    ensures ScanHead(b) == if |b| >= h.BodyStart() then Complete(h) else ScanHead(b)
    ensures |b| < h.BodyStart() <==> ScanHead(b).More?
  {
    hide ScanHead, Denote, Block, CRLF;
    if !ScanHead(b).More? {
      ScanOfPrefix(b, t);
      CompleteIsInside(b);
    } else if |b| >= h.BodyStart() {
      CompletesExactlyOnHeads(t, h);
      var first, lines :| Denote(first, lines, h) && first + CRLF + Block(lines) <= t;
      DenotedSize(first, lines, h);
      assert first + CRLF + Block(lines) <= b;
      CompletesExactlyOnHeads(b, h);
    }
  }

  lemma CompleteIsInside(b: string)
    ensures ScanHead(b).Complete? ==> ScanHead(b).head.BodyStart() <= |b|
  {
  }

  lemma DenotedSize(first: string, lines: seq<string>, h: Head)
    requires Denote(first, lines, h)
    ensures |first + CRLF + Block(lines)| == h.BodyStart()
  {
  }

  /** Reading stops at the goal, or at the limit before the head is complete. */
  lemma StopsAtGoal(b: string, t: string, h: Head)
    requires b <= t && ScanHead(t) == Complete(h)
    ensures !ScanHead(b).Malformed?
    ensures |b| >= Limit(b) <==> |b| >= Goal(h) || MAX_HEAD <= |b| < h.BodyStart()
    ensures OutcomeOf(Stopped(b)) ==
      if |b| == h.BodyStart() + h.BodySize() then Accepted(h, t[h.BodyStart()..|b|]) else Rejected
  {
    hide ScanHead;
    ScanOfLongPrefix(b, t, h);
    assert b == t[..|b|];
  }

  lemma {:induction false} AcceptedFrom(b: string, input: seq<Read>, t: string, h: Head)
    requires DeliverRest(b, input, t) && ScanHead(t) == Complete(h)
    ensures var end := h.BodyStart() + h.BodySize();
      OutcomeOf(Received(b, input)) ==
        if (h.BodyStart() <= MAX_HEAD || Reached(|b|, input, MAX_HEAD) >= h.BodyStart())
           && Reached(|b|, input, Goal(h)) == end && end <= |t|
        then Accepted(h, t[h.BodyStart()..end]) else Rejected
    decreases |input|
  {
    hide ScanHead, Limit, OutcomeOf;
    StopsAtGoal(b, t, h);
    if |b| < Goal(h) && !(MAX_HEAD <= |b| < h.BodyStart()) && input != [] {
      OneRead(b, input, t);
      AcceptedFrom(b + input[0].bytes, input[1..], t, h);
    } else {
      StoppedOutcome(b, input, t, h);
    }
  }

  /** The outcome where reading stops: at the goal, at the limit, or with nothing left to read. */
  lemma StoppedOutcome(b: string, input: seq<Read>, t: string, h: Head)
    requires DeliverRest(b, input, t) && ScanHead(t) == Complete(h)
    requires |b| >= Goal(h) || MAX_HEAD <= |b| < h.BodyStart() || input == []
    ensures var end := h.BodyStart() + h.BodySize();
      OutcomeOf(Stopped(b)) ==
        if (h.BodyStart() <= MAX_HEAD || Reached(|b|, input, MAX_HEAD) >= h.BodyStart())
           && Reached(|b|, input, Goal(h)) == end && end <= |t|
        then Accepted(h, t[h.BodyStart()..end]) else Rejected
  {
    hide ScanHead, Limit, OutcomeOf;
    StopsAtGoal(b, t, h);
    CompleteIsInside(t);
    if input == [] { assert b == t; }
  }

  /**
   A request is accepted exactly if its head is read and the first read to end at or past the
   goal ends where the request does.
   */
  lemma AcceptedExactly(input: seq<Read>, t: string, h: Head)
    requires Delivers(input, t) && ScanHead(t) == Complete(h)
    ensures Parse(input).Accepted? <==>
      HeadIsRead(input, h) && Reached(0, input, Goal(h)) == h.BodyStart() + h.BodySize()
    ensures Parse(input).Accepted? ==>
      var end := h.BodyStart() + h.BodySize(); end <= |t| && Parse(input) == Accepted(h, t[h.BodyStart()..end])
  {
    hide ScanHead, Received;
    assert t[|""|..] == t;
    AcceptedFrom("", input, t, h);
    ReachedIsInside("", input, t, Goal(h));
  }

  lemma {:induction false} ReachedIsInside(b: string, input: seq<Read>, t: string, goal: nat)
    requires DeliverRest(b, input, t)
    ensures Reached(|b|, input, goal) <= |t|
    decreases |input|
  {
    if |b| < goal && input != [] {
      OneRead(b, input, t);
      ReachedIsInside(b + input[0].bytes, input[1..], t, goal);
    }
  }

  lemma TwoReadsDeliver(a: string, c: string)
    requires 1 <= |a| <= 1024 && 1 <= |c| <= 1024
    ensures Delivers([Data(a), Data(c)], a + c)
    ensures forall goal: nat :: 0 < goal <= |a| ==> Reached(0, [Data(a), Data(c)], goal) == |a|
  {
    var input := [Data(a), Data(c)];
    assert input[1..] == [Data(c)] && [Data(c)][1..] == [];
    assert Bytes([Data(c)]) == c + "" == c;
    assert forall goal: nat :: 0 < goal <= |a| ==> Reached(0, input, goal) == Reached(|a|, input[1..], goal);
  }

  lemma OneReadReceives(t: string)
    ensures Parse([Data(t)]).Accepted? ==> Received("", [Data(t)]) == Stopped(t)
  {
    hide ScanHead;
    assert [Data(t)][1..] == [] && "" + t == t;
    CompleteIsInside("");
  }

  /**
   The same bytes that are accepted in one read are rejected when the last byte of a body
   comes in a read of its own.
   */
  lemma LastByteAlone(t: string)
    requires |t| <= 1024 && Parse([Data(t)]).Accepted? && Parse([Data(t)]).body != ""
    ensures !Parse([Data(t[..|t| - 1]), Data(t[|t| - 1..])]).Accepted?
  {
    hide ScanHead, Received, Reached, Bytes;
    OneReadReceives(t);
    CompleteIsInside(t);
    var h, a, c := Parse([Data(t)]).head, t[..|t| - 1], t[|t| - 1..];
    TwoReadsDeliver(a, c);
    assert a + c == t;
    AcceptedExactly([Data(a), Data(c)], t, h);
  }
}
