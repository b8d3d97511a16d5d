/** Buffer streams, the buffered reader with its seekable cache, and reading a whole stream. */
module Streams {
  import opened Basics

  // A stream over a buffer

  /** What a write at a position leaves in the buffer. */
  function Overwritten(data: string, position: nat, bytes: string): string
    requires position <= |data|
  {
    data[..position] + bytes + (if position + |bytes| < |data| then data[position + |bytes|..] else "")
  }

  /** Where a seek ends up: the last byte is as far as it goes, not the end. */
  function SeekTo(length: nat, position: nat): nat {
    if length == 0 then 0 else if position >= length then length - 1 else position
  }

  class Buffer {
    var data: string

    constructor (data: string)
      ensures this.data == data
    {
      this.data := data;
    }
  }

  class BufferStream {
    const buffer: Buffer
    var position: nat

    ghost predicate Valid()
      reads this, buffer
    {
      position <= |buffer.data|
    }

    constructor (buffer: Buffer)
      ensures Valid() && this.buffer == buffer && position == 0
    {
      this.buffer, position := buffer, 0;
    }

    method SetPosition(pos: nat) returns (result: nat)
      modifies this
      ensures Valid() && result == position == SeekTo(|buffer.data|, pos)
    {
      var len := |buffer.data|;
      result := pos;
      if len == 0 {
        result := 0;
      } else if result >= len {
        result := len - 1;
      }
      position := result;
    }

    method Read(n: nat) returns (bytes: string)
      requires Valid()
      modifies this
      ensures Valid() && position == old(position) + |bytes|
      ensures |bytes| == Min(n, |buffer.data| - old(position)) && bytes == buffer.data[old(position)..position]
    {
      var remaining := |buffer.data| - position;
      var k := n;
      if remaining < k {
        k := remaining;
      }
      bytes := buffer.data[position..position + k];
      position := position + k;
    }

    method Write(bytes: string)
      requires Valid()
      modifies this, buffer
      ensures Valid() && position == old(position) + |bytes|
      ensures buffer.data == Overwritten(old(buffer.data), old(position), bytes)
    {
      var needed := position + |bytes|;
      if needed > |buffer.data| {
        buffer.data := buffer.data[..position] + bytes;
      } else {
        buffer.data := buffer.data[..position] + bytes + buffer.data[needed..];
      }
      position := needed;
    }

    /** Bytes that were written come back after a seek to where they were written, and no other byte changes. */
    method WriteThenRead(bytes: string) returns (back: string)
      requires Valid()
      modifies this, buffer
      ensures bytes != "" ==> back == bytes
      ensures |buffer.data| == Max(old(|buffer.data|), old(position) + |bytes|)
      ensures forall i :: 0 <= i < old(|buffer.data|) && !(old(position) <= i < old(position) + |bytes|) ==>
                buffer.data[i] == old(buffer.data[i])
    {
      var start := position;
      Write(bytes);
      var at := SetPosition(start);
      back := Read(|bytes|);
    }
  }

  /**
   A seek goes to the furthest position up to the one that is meant at which there is a byte,
   or to the start of an empty buffer; so it never goes to the end of what has been written.
   */
  lemma SeekArrives(length: nat, position: nat, p: nat)
    ensures SeekTo(length, position) == position <==> position < length || (length == 0 && position == 0)
    ensures length > 0 ==> SeekTo(length, position) < length && SeekTo(length, position) <= position
    ensures p < length && p <= position ==> p <= SeekTo(length, position)
  {
  }

  // The cache of the buffered reader

  datatype Cache = Cache(bytes: string, position: nat)

  /** A read, with the number of bytes that the input is ready to give at once, or a seek. */
  datatype Op = Read(n: nat, ready: nat) | Seek(position: nat)

  /** What the input gives when asked for n bytes at a position: at least one unless it is at its end. */
  function Given(all: string, at: nat, n: nat, ready: nat): (k: nat)
    requires at <= |all|
    ensures k <= n && at + k <= |all|
    ensures k == 0 <==> n == 0 || at == |all|
    ensures 1 <= ready <= n && at + ready <= |all| ==> k == ready
  {
    Min(Min(n, |all| - at), Max(1, ready))
  }

  ghost predicate Agrees(c: Cache, all: string) {
    c.bytes <= all && c.position <= |c.bytes|
  }

  /** The bytes that the input gives for an operation. */
  function Fetched(all: string, c: Cache, op: Op): nat
    requires Agrees(c, all)
  {
    if op.Read? && |c.bytes| - c.position < op.n
    then Given(all, |c.bytes|, op.n - (|c.bytes| - c.position), op.ready) else 0
  }

  function Step(all: string, c: Cache, op: Op): (r: Cache)
    requires Agrees(c, all)
    ensures Agrees(r, all)
  {
    match op
    case Seek(p) => Cache(c.bytes, Min(p, |c.bytes|))
    case Read(n, ready) =>
      var bytes := all[..|c.bytes| + Fetched(all, c, op)];
      Cache(bytes, c.position + Min(n, |bytes| - c.position))
  }

  function Output(all: string, c: Cache, op: Op): string
    requires Agrees(c, all)
  {
    if op.Seek? then "" else Step(all, c, op).bytes[c.position..Step(all, c, op).position]
  }

  /** All that a run of operations reads. */
  function Outputs(all: string, c: Cache, ops: seq<Op>): seq<string>
    requires Agrees(c, all)
    decreases |ops|
  {
    if ops == [] then [] else [Output(all, c, ops[0])] + Outputs(all, Step(all, c, ops[0]), ops[1..])
  }

  /** A file of which everything up to a high-water mark has been read: what the reader is meant to look like. */
  datatype File = File(position: nat, high: nat)

  function FileStep(all: string, f: File, op: Op): File {
    match op
    case Seek(p) => File(Min(p, f.high), f.high)
    case Read(n, _) =>
      var p := Min(f.position + n, |all|);
      File(p, Max(f.high, p))
  }

  function FileOutput(all: string, f: File, op: Op): string
    requires f.position <= |all|
  {
    if op.Seek? then "" else all[f.position..Min(f.position + op.n, |all|)]
  }

  function FileOutputs(all: string, f: File, ops: seq<Op>): seq<string>
    requires f.position <= f.high <= |all|
    decreases |ops|
  {
    if ops == [] then [] else [FileOutput(all, f, ops[0])] + FileOutputs(all, FileStep(all, f, ops[0]), ops[1..])
  }

  function FileOf(c: Cache): File { File(c.position, |c.bytes|) }

  /** The input gives all that it is asked for, as far as it goes. */
  predicate Eager(op: Op) { op.Read? ==> op.ready >= op.n }

  lemma StepRefines(all: string, c: Cache, op: Op)
    requires Agrees(c, all) && Eager(op)
    ensures FileOf(Step(all, c, op)) == FileStep(all, FileOf(c), op)
    ensures Output(all, c, op) == FileOutput(all, FileOf(c), op)
  {
  }

  /** Over any run on an input that gives what it is asked for, the reader reads what the file would. */
  lemma {:induction false} ReaderRefinesFile(all: string, c: Cache, ops: seq<Op>)
    requires Agrees(c, all) && forall op :: op in ops ==> Eager(op)
    ensures Outputs(all, c, ops) == FileOutputs(all, FileOf(c), ops)
    decreases |ops|
  {
    if ops != [] {
      StepRefines(all, c, ops[0]);
      ReaderRefinesFile(all, Step(all, c, ops[0]), ops[1..]);
    }
  }

  function After(all: string, c: Cache, ops: seq<Op>): (r: Cache)
    requires Agrees(c, all)
    ensures Agrees(r, all)
    decreases |ops|
  {
    if ops == [] then c else After(all, Step(all, c, ops[0]), ops[1..])
  }

  /** The furthest position of a run. */
  function Furthest(all: string, c: Cache, ops: seq<Op>): nat
    requires Agrees(c, all)
    decreases |ops|
  {
    if ops == [] then c.position else Max(c.position, Furthest(all, Step(all, c, ops[0]), ops[1..]))
  }

  lemma StepReadsAhead(all: string, c: Cache, op: Op)
    requires Agrees(c, all)
    ensures |Step(all, c, op).bytes| == Max(|c.bytes|, Step(all, c, op).position)
  {
  }

  /**
   Whatever the input gives at a time: the cache is what the input has given, and nothing
   was fetched that was not also read.
   */
  lemma {:induction false} NothingIsReadAhead(all: string, c: Cache, ops: seq<Op>)
    requires Agrees(c, all)
    ensures var r := After(all, c, ops);
      Agrees(r, all) && |r.bytes| == Max(|c.bytes|, Furthest(all, c, ops))
    decreases |ops|
  {
    if ops != [] {
      StepReadsAhead(all, c, ops[0]);
      NothingIsReadAhead(all, Step(all, c, ops[0]), ops[1..]);
    }
  }

  /** A read gives the bytes of the input at the position; it gives none only at the end of the input. */
  lemma ReadsAreTrue(all: string, c: Cache, n: nat, ready: nat)
    requires Agrees(c, all)
    ensures var (r, out) := (Step(all, c, Read(n, ready)), Output(all, c, Read(n, ready)));
      && r.position == c.position + |out| <= |all| && out == all[c.position..r.position] && |out| <= n
      && (out == "" <==> n == 0 || c.position == |all|)
  {
  }

  // The objects

  /** An input stream; reading may give less than asked for, and may fail after a number of reads. */
  class Source {
    const all: string
    var at: nat
    var good: Option<nat>

    ghost predicate Valid()
      reads this
    {
      at <= |all|
    }

    constructor (all: string)
      ensures Valid() && this.all == all && at == 0 && good == None
    {
      this.all, at, good := all, 0, None;
    }

    method Read(n: nat, ready: nat) returns (result: int, bytes: string)
      requires Valid()
      modifies this
      ensures Valid()
      ensures result < 0 <==> old(good) == Some(0)
      ensures result < 0 ==> bytes == "" && at == old(at)
      ensures result >= 0 ==> result == at - old(at) == Given(all, old(at), n, ready) && bytes == all[old(at)..at]
      ensures old(good) == None ==> good == None
    {
      if good == Some(0) {
        return -1, "";
      }
      if good.Some? {
        good := Some(good.value - 1);
      }
      var k := Given(all, at, n, ready);
      bytes := all[at..at + k];
      at := at + k;
      return k, bytes;
    }
  }

  /** stream_read_buffer: what was read goes behind what the buffer holds. */
  method ReadBuffer(input: Source, dst: Buffer, n: nat, ready: nat) returns (result: int)
    requires input.Valid()
    modifies input, dst
    ensures input.Valid()
    ensures result < 0 <==> old(input.good) == Some(0)
    ensures result < 0 ==> dst.data == old(dst.data) && input.at == old(input.at)
    ensures result >= 0 ==> result == input.at - old(input.at) == Given(input.all, old(input.at), n, ready)
    ensures result >= 0 ==> dst.data == old(dst.data) + input.all[old(input.at)..input.at]
    ensures old(input.good) == None ==> input.good == None
  {
    var bytes;
    result, bytes := input.Read(n, ready);
    if result > 0 {
      dst.data := dst.data + bytes;
    } else {
      assert dst.data + "" == dst.data;
    }
  }

  /** However much the input gives at a time, in the end the buffer holds all of it, or as much as the limit allows. */
  method ReadAll(input: Source, dst: Buffer, max: nat, blockSize: nat) returns (total: int)
    requires input.Valid()
    modifies input, dst
    ensures input.Valid() && old(input.at) <= input.at
    ensures dst.data == old(dst.data) + input.all[old(input.at)..input.at]
    ensures total >= 0 ==> total == input.at - old(input.at) && (max > 0 ==> total <= max)
    ensures total >= 0 && blockSize == 0 ==> total == 0
    ensures total >= 0 && blockSize > 0 ==> input.at == |input.all| || (max > 0 && total == max)
    ensures old(input.good) == None ==> total >= 0
  {
    var n := 0;
    while true
      invariant input.Valid() && input.at == old(input.at) + n && (max > 0 ==> n <= max)
      invariant blockSize == 0 ==> n == 0
      invariant dst.data == old(dst.data) + input.all[old(input.at)..input.at]
      invariant old(input.good) == None ==> input.good == None
      decreases |input.all| - input.at
    {
      var nextRead := blockSize;
      if max > 0 && n + nextRead > max {
        nextRead := max - n;
      }
      if nextRead == 0 {
        break;
      }
      var ready: nat := *;
      ghost var from := input.at;
      var result := ReadBuffer(input, dst, nextRead, ready);
      if result < 0 {
        return result;
      }
      assert input.all[old(input.at)..from] + input.all[from..input.at] == input.all[old(input.at)..input.at];
      if result == 0 || (max > 0 && n >= max) {
        break;
      }
      n := n + result;
    }
    return n;
  }

  class BufferedReader {
    const input: Source
    const cache: Buffer
    var position: nat

    ghost function Value(): Cache
      reads this, cache
    {
      Cache(cache.data, position)
    }

    /** The cache is what the input has given. */
    ghost predicate Valid()
      reads this, cache, input
    {
      input.Valid() && input.good == None && cache.data == input.all[..input.at] && position <= |cache.data|
    }

    constructor (input: Source)
      requires input.Valid() && input.at == 0 && input.good == None
      ensures Valid() && fresh(cache) && this.input == input && Value() == Cache("", 0)
    {
      this.input := input;
      cache := new Buffer("");
      position := 0;
    }

    method SetPosition(pos: nat) returns (result: nat)
      requires Valid()
      modifies this
      ensures Valid() && Value() == Step(input.all, old(Value()), Seek(pos)) && result == position
    {
      var len := |cache.data|;
      result := pos;
      if result > len {
        result := len;
      }
      position := result;
    }

    method Read(n: nat, ready: nat) returns (bytes: string)
      requires Valid()
      modifies this, cache, input
      ensures Valid() && Value() == Step(input.all, old(Value()), Op.Read(n, ready))
      ensures bytes == Output(input.all, old(Value()), Op.Read(n, ready))
    {
      var k, available := n, |cache.data| - position;
      if available < n {
        var desired := n - available;
        var result := ReadBuffer(input, cache, desired, ready);
        assert cache.data == input.all[..input.at];
        available := available + result;
      }
      if available < k {
        k := available;
      }
      bytes := cache.data[position..position + k];
      position := position + k;
    }
  }
}
