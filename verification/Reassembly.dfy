/** Reassembly of frames from reads of any size. */
module Reassembly {
  import opened Words
  import opened Buffers
  import opened Frames

  const BUFFER_SIZE := 64

  /** Whether the handler of a frame throws, which may depend on the frames before it. */
  type Handler = (seq<seq<Byte>>, seq<Byte>) -> bool

  /** The frames dispatched so far, the bytes behind them, and whether a check or a handler failed. */
  datatype Parsed = Parsed(frames: seq<seq<Byte>>, rest: seq<Byte>, failed: bool)

  /** The sequential parse of a byte stream. */
  function Parse(throws: Handler, max: nat, frames: seq<seq<Byte>>, bytes: seq<Byte>): Parsed
    decreases |bytes|
  {
    if |bytes| < HEADER_SIZE then Parsed(frames, bytes, false)
    else if !Checked(bytes, max) then Parsed(frames, bytes, true)
    else if |bytes| < FrameSize(bytes) then Parsed(frames, bytes, false)
    else
      var frame := bytes[..FrameSize(bytes)];
      if throws(frames, frame) then Parsed(frames + [frame], bytes, true)
      else Parse(throws, max, frames + [frame], bytes[|frame|..])
  }

  /** Parsing a part first and the rest later is parsing the whole. */
  lemma {:induction false} ParseSplit(throws: Handler, max: nat, frames: seq<seq<Byte>>, a: seq<Byte>, b: seq<Byte>)
    ensures var first := Parse(throws, max, frames, a);
      var whole := Parse(throws, max, frames, a + b);
      if first.failed then whole.failed && whole.frames == first.frames
      else whole == Parse(throws, max, first.frames, first.rest + b)
    decreases |a|
  {
    if |a| >= HEADER_SIZE {
      HeaderOfPrefix(a, b);
      var n := FrameSize(a);
      if Checked(a, max) && n <= |a| {
        assert (a + b)[..n] == a[..n];
        assert (a + b)[n..] == a[n..] + b;
        if !throws(frames, a[..n]) { ParseSplit(throws, max, frames + [a[..n]], a[n..], b); }
      }
    }
  }

  /** What is left is the beginning of one frame at most, and that frame will pass the checks. */
  lemma {:induction false} ParseRest(throws: Handler, max: nat, frames: seq<seq<Byte>>, bytes: seq<Byte>)
    ensures var p := Parse(throws, max, frames, bytes);
      !p.failed ==>
        |p.rest| < HEADER_SIZE || (Checked(p.rest, max) && |p.rest| < FrameSize(p.rest) <= HEADER_SIZE + max)
    decreases |bytes|
  {
    if |bytes| >= HEADER_SIZE && Checked(bytes, max) && FrameSize(bytes) <= |bytes| {
      var n := FrameSize(bytes);
      if !throws(frames, bytes[..n]) { ParseRest(throws, max, frames + [bytes[..n]], bytes[n..]); }
    }
  }

  /** A header of no known type, or of a longer payload than is allowed. */
  predicate BadHeader(bytes: seq<Byte>, max: nat) {
    |bytes| >= 9 && (bytes[3] > 9 || (bytes[0] as int) * 0x10000 + (bytes[1] as int) * 0x100 + bytes[2] > max)
  }

  /** The parse fails if and only if it stops at a bad header, or the handler of the last frame throws. */
  lemma {:induction false} ParseFailsIff(throws: Handler, max: nat, frames: seq<seq<Byte>>, bytes: seq<Byte>)
    ensures var p := Parse(throws, max, frames, bytes);
      && |frames| <= |p.frames|
      && (p.failed <==>
            BadHeader(p.rest, max) || exists i :: |frames| <= i < |p.frames| && throws(p.frames[..i], p.frames[i]))
    decreases |bytes|
  {
    if |bytes| >= HEADER_SIZE && Checked(bytes, max) && FrameSize(bytes) <= |bytes| {
      var frame := bytes[..FrameSize(bytes)];
      var more := frames + [frame];
      assert more[..|frames|] == frames;
      if throws(frames, frame) {
        assert throws(more[..|frames|], more[|frames|]);
      } else {
        ParseFailsIff(throws, max, more, bytes[|frame|..]);
        ParseConserves(throws, max, more, bytes[|frame|..]);
        assert Parse(throws, max, more, bytes[|frame|..]).frames[..|frames|] == frames;
      }
    }
  }

  /** A dispatched frame is complete, of a known type and no larger than the limit. */
  predicate WholeFrame(frame: seq<Byte>, max: nat) {
    |frame| >= HEADER_SIZE && |frame| == FrameSize(frame) && Checked(frame, max)
  }

  /**
   * The dispatched frames are the bytes of the stream, in order and without gaps: together with the rest
   * they are the stream itself, and each one is a whole frame.
   */
  lemma {:induction false} ParseConserves(throws: Handler, max: nat, frames: seq<seq<Byte>>, bytes: seq<Byte>)
    ensures var p := Parse(throws, max, frames, bytes);
      && frames <= p.frames
      && (!p.failed ==> Concat(p.frames) + p.rest == Concat(frames) + bytes)
      && forall i :: |frames| <= i < |p.frames| ==> WholeFrame(p.frames[i], max)
    decreases |bytes|
  {
    if |bytes| >= HEADER_SIZE && Checked(bytes, max) && FrameSize(bytes) <= |bytes| {
      var n := FrameSize(bytes);
      var frame := bytes[..n];
      assert frame + bytes[n..] == bytes;
      HeaderOfPrefix(frame, bytes[n..]);
      assert (frames + [frame])[..|frames|] == frames;
      ConcatAssoc(Concat(frames), frame, bytes[n..]);
      if !throws(frames, frame) { ParseConserves(throws, max, frames + [frame], bytes[n..]); }
    }
  }

  /** Whole frames written one after the other are dispatched as they were written. */
  lemma {:induction false} ParseInverts(throws: Handler, max: nat, frames: seq<seq<Byte>>)
    requires forall i :: 0 <= i < |frames| ==> WholeFrame(frames[i], max) && !throws(frames[..i], frames[i])
    ensures Parse(throws, max, [], Concat(frames)) == Parsed(frames, [], false)
  {
    if frames != [] {
      var n := |frames| - 1;
      var before, last := frames[..n], frames[n];
      forall i | 0 <= i < n ensures WholeFrame(before[i], max) && !throws(before[..i], before[i]) {
        assert before[..i] == frames[..i];
      }
      hide Parse, WholeFrame;
      ParseInverts(throws, max, before);
      ParseSplit(throws, max, [], Concat(before), last);
      assert [] + last == last;
      ParseOne(throws, max, before, last);
      assert frames == before + [last];
    }
  }

  lemma ParseOne(throws: Handler, max: nat, frames: seq<seq<Byte>>, last: seq<Byte>)
    requires WholeFrame(last, max) && !throws(frames, last)
    ensures Parse(throws, max, frames, last) == Parsed(frames + [last], [], false)
  {
    assert last[..|last|] == last && last[|last|..] == [];
  }

  // ---------------------------------------------------------------- the receiving side of the client

  class Receiver {
    const throws: Handler
    const maxFrameSize: nat
    var dispatched: seq<seq<Byte>>
    var failed: bool

    constructor (throws: Handler, maxFrameSize: nat)
      ensures this.throws == throws && this.maxFrameSize == maxFrameSize && dispatched == [] && !failed
    {
      this.throws := throws;
      this.maxFrameSize := maxFrameSize;
      dispatched := [];
      failed := false;
    }

    /** Hands a frame to its handler; an exception ends the connection. */
    method Dispatch(frame: seq<Byte>)
      modifies this
      ensures dispatched == old(dispatched) + [frame] && failed == (old(failed) || throws(old(dispatched), frame))
    {
      failed := failed || throws(dispatched, frame);
      dispatched := dispatched + [frame];
    }

    /** A DATA frame that fills the whole buffer is handed over with it. */
    method DispatchWhole(io: Buffer)
      requires io.Valid()
      modifies this, io
      ensures io.Valid() && io.maxsize == 0 && fresh(io.memory)
      ensures dispatched == old(dispatched) + [old(io.DataView())]
      ensures failed == (old(failed) || throws(old(dispatched), old(io.DataView())))
    {
      var moved := new Buffer.Move(io);
      Dispatch(moved.memory[..moved.offset]);
    }

    /** Any other frame is read in place, or copied when it carries data. */
    method DispatchPart(frame: seq<Byte>)
      requires |frame| >= HEADER_SIZE
      modifies this
      ensures dispatched == old(dispatched) + [frame] && failed == (old(failed) || throws(old(dispatched), frame))
    {
      if FrameType(frame) == DATA {
        var frameBuff := new Buffer(|frame|);
        var copied := frameBuff.Commit(frame);
        assert frameBuff.DataView() == frame;
        Dispatch(frameBuff.memory[..frameBuff.offset]);
      } else {
        Dispatch(frame);
      }
    }

    /** Makes room for the rest of an incomplete frame when the buffer cannot hold it. */
    method Enlarge(io: Buffer, incoming: seq<Byte>, size: nat)
      requires io.Valid() && |incoming| <= size
      modifies io
      ensures io.Valid() && io.maxsize == size && io.DataView() == incoming && fresh(io.memory)
    {
      var bigBuff := new Buffer(size);
      var copied := bigBuff.Commit(incoming);
      assert incoming[..|incoming|] == incoming;
      io.Assign(bigBuff);
    }

    /** Dispatches the complete frame in front and goes on behind it; nothing is left behind a moved buffer. */
    method TakeFrame(io: Buffer, view: seq<Byte>, incoming: seq<Byte>, usedBytes: nat, n: nat)
      returns (incoming': seq<Byte>, used': nat)
      requires io.Valid() && io.DataView() == view && !failed
      requires usedBytes <= |view| && incoming == view[usedBytes..] && HEADER_SIZE <= n <= |incoming|
      modifies this, io
      ensures io.Valid() && (io.memory == old(io.memory) || fresh(io.memory))
      ensures dispatched == old(dispatched) + [incoming[..n]] && failed == throws(old(dispatched), incoming[..n])
      ensures failed ==> incoming' == incoming && used' == usedBytes
      ensures !failed ==> incoming' == incoming[n..] && used' <= |view|
      ensures !failed && incoming' != [] ==> incoming' == view[used'..] && unchanged(io)
    {
      if FrameType(incoming) == DATA && usedBytes == 0 && n == |view| {
        assert incoming[..n] == view;
        DispatchWhole(io);
        incoming', used' := if failed then incoming else incoming[n..], usedBytes;
      } else {
        assert incoming[n..] == view[usedBytes + n..];
        DispatchPart(incoming[..n]);
        incoming', used' := if failed then incoming else incoming[n..], if failed then usedBytes else usedBytes + n;
      }
    }

    /** The loop over the frames of the buffer, up to an incomplete one or a failure. */
    method ReadFrames(io: Buffer) returns (incoming: seq<Byte>, usedBytes: nat)
      requires io.Valid() && !failed && io.maxsize >= BUFFER_SIZE && io.offset >= HEADER_SIZE
      modifies this, io
      ensures io.Valid() && (io.memory == old(io.memory) || fresh(io.memory))
      ensures var p := Parse(throws, maxFrameSize, old(dispatched), old(io.DataView()));
        dispatched == p.frames && failed == p.failed && (!failed ==> Settled(io, incoming, usedBytes, p.rest))
    {
      ghost var goal := Parse(throws, maxFrameSize, dispatched, io.DataView());
      hide Parse, FrameSize, Checked;
      var view := io.memory[..io.offset];
      incoming := view;
      usedBytes := 0;
      var more := true;
      while more
        invariant io.Valid() && usedBytes <= |view| && (io.memory == old(io.memory) || fresh(io.memory))
        invariant more ==> !failed && incoming == view[usedBytes..] && |incoming| >= HEADER_SIZE
        invariant more ==> io.DataView() == view && io.maxsize == old(io.maxsize) && io.memory == old(io.memory)
        invariant more ==> goal == Parse(throws, maxFrameSize, dispatched, incoming)
        invariant !more ==> dispatched == goal.frames && failed == goal.failed
        invariant !more && !failed ==> Settled(io, incoming, usedBytes, goal.rest)
        decreases more, |incoming|
      {
        ParseStep(throws, maxFrameSize, dispatched, incoming);
        if !Checked(incoming, maxFrameSize) {
          failed := true;
          more := false;
        } else if FrameSize(incoming) <= |incoming| {
          incoming, usedBytes := TakeFrame(io, view, incoming, usedBytes, FrameSize(incoming));
          more := !failed && |incoming| >= HEADER_SIZE;
          if !failed && !more { ParseShort(throws, maxFrameSize, dispatched, incoming); }
        } else {
          if io.maxsize < FrameSize(incoming) {
            Enlarge(io, incoming, FrameSize(incoming));
            usedBytes := 0;
          }
          more := false;
        }
      }
    }

    /**
     * Dispatches the complete frames of the buffer as the sequential parse does; unless something fails,
     * the returned buffer holds the unparsed tail and has room for the next read.
     */
    method OnRead(io: Buffer) returns (next: Buffer)
      requires io.Valid() && !failed && io.maxsize >= BUFFER_SIZE
      modifies this, io, io.memory
      ensures next.Valid() && (next == io || fresh(next)) && (next.memory == old(io.memory) || fresh(next.memory))
      ensures var p := Parse(throws, maxFrameSize, old(dispatched), old(io.DataView()));
        && dispatched == p.frames && failed == p.failed
        && (!failed ==> next.DataView() == p.rest && next.FreeSize() > 0 && next.maxsize >= BUFFER_SIZE)
    {
      if io.offset < HEADER_SIZE {
        return io;
      }
      hide Parse;
      var incoming, usedBytes := ReadFrames(io);
      if incoming == [] {
        return new Buffer(BUFFER_SIZE);
      }
      if usedBytes != 0 {
        io.Consume(usedBytes);
      }
      return io;
    }
  }

  lemma ParseStep(throws: Handler, max: nat, frames: seq<seq<Byte>>, bytes: seq<Byte>)
    requires |bytes| >= HEADER_SIZE
    ensures var n := FrameSize(bytes);
      var p := Parse(throws, max, frames, bytes);
      && n >= HEADER_SIZE
      && (!Checked(bytes, max) ==> p == Parsed(frames, bytes, true))
      && (Checked(bytes, max) && |bytes| < n ==> p == Parsed(frames, bytes, false))
      && (Checked(bytes, max) && n <= |bytes| ==>
            if throws(frames, bytes[..n]) then p == Parsed(frames + [bytes[..n]], bytes, true)
            else p == Parse(throws, max, frames + [bytes[..n]], bytes[n..]))
  {
  }

  lemma ParseShort(throws: Handler, max: nat, frames: seq<seq<Byte>>, bytes: seq<Byte>)
    requires |bytes| < HEADER_SIZE
    ensures Parse(throws, max, frames, bytes) == Parsed(frames, bytes, false)
  {
  }

  /** The unread bytes are in the buffer behind the used ones, and there is room for more. */
  ghost predicate Settled(io: Buffer, incoming: seq<Byte>, usedBytes: nat, rest: seq<Byte>)
    reads io, io.memory
  {
    && io.Valid()
    && (incoming == [] ==> rest == [])
    && (incoming != [] ==> usedBytes <= io.offset && io.DataView()[usedBytes..] == rest)
    && (incoming != [] ==> io.maxsize >= BUFFER_SIZE && |rest| < io.maxsize)
  }

  // ---------------------------------------------------------------- a connection

  /** What reads of these chunks leave, one after the other. */
  ghost function AfterReads(throws: Handler, max: nat, chunks: seq<seq<Byte>>): Parsed {
    if chunks == [] then Parsed([], [], false)
    else
      var before := AfterReads(throws, max, chunks[..|chunks| - 1]);
      if before.failed then before
      else Parse(throws, max, before.frames, before.rest + chunks[|chunks| - 1])
  }

  /** However the bytes are split, the dispatched frames, the failure and the tail are those of the whole stream. */
  lemma {:induction false} ChunkingIndependence(throws: Handler, max: nat, chunks: seq<seq<Byte>>)
    ensures var whole := Parse(throws, max, [], Concat(chunks));
      var read := AfterReads(throws, max, chunks);
      read.frames == whole.frames && read.failed == whole.failed && (!read.failed ==> read.rest == whole.rest)
  {
    if chunks != [] {
      var n := |chunks| - 1;
      ChunkingIndependence(throws, max, chunks[..n]);
      ParseSplit(throws, max, [], Concat(chunks[..n]), chunks[n]);
    }
  }

  lemma OneMoreRead(throws: Handler, max: nat, chunks: seq<seq<Byte>>, chunk: seq<Byte>)
    requires !AfterReads(throws, max, chunks).failed
    ensures var before := AfterReads(throws, max, chunks);
      AfterReads(throws, max, chunks + [chunk]) == Parse(throws, max, before.frames, before.rest + chunk)
  {
    hide Parse;
    assert (chunks + [chunk])[..|chunks|] == chunks;
  }

  /** The session: the input buffer and the client that empties it. */
  class Connection {
    const client: Receiver
    var input: Buffer
    ghost var chunks: seq<seq<Byte>>

    ghost predicate Valid()
      reads this, client, input, input.memory
    {
      && input.Valid()
      && var read := AfterReads(client.throws, client.maxFrameSize, chunks);
      && client.dispatched == read.frames && client.failed == read.failed
      && (!client.failed ==> input.DataView() == read.rest && input.FreeSize() > 0 && input.maxsize >= BUFFER_SIZE)
    }

    constructor (throws: Handler, maxFrameSize: nat)
      ensures Valid() && chunks == [] && client.throws == throws && client.maxFrameSize == maxFrameSize
    {
      client := new Receiver(throws, maxFrameSize);
      input := new Buffer(BUFFER_SIZE);
      chunks := [];
    }

    /** One read into the free part of the buffer. */
    method OnDataRead(chunk: seq<Byte>)
      requires Valid() && !client.failed && |chunk| <= input.FreeSize()
      modifies this, client, input, input.memory
      ensures Valid() && chunks == old(chunks) + [chunk]
      ensures input == old(input) || fresh(input)
    {
      hide Parse, AfterReads;
      OneMoreRead(client.throws, client.maxFrameSize, chunks, chunk);
      var copied := input.Commit(chunk);
      assert chunk[..copied] == chunk;
      input := client.OnRead(input);
      chunks := chunks + [chunk];
    }
  }

  /** In every reachable state of a connection the dispatched frames are those of the bytes received. */
  lemma ConnectionParses(c: Connection)
    requires c.Valid()
    ensures var whole := Parse(c.client.throws, c.client.maxFrameSize, [], Concat(c.chunks));
      && c.client.dispatched == whole.frames && c.client.failed == whole.failed
      && (!c.client.failed ==> c.input.DataView() == whole.rest)
      && (!c.client.failed ==> Concat(c.client.dispatched) + c.input.DataView() == Concat(c.chunks))
  {
    ChunkingIndependence(c.client.throws, c.client.maxFrameSize, c.chunks);
    ParseConserves(c.client.throws, c.client.maxFrameSize, [], Concat(c.chunks));
    assert Concat([]) + Concat(c.chunks) == Concat(c.chunks);
  }
}
