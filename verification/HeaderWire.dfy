/** Header frames as bytes: built, cut into reads anyhow, parsed and decoded. */
module HeaderWire {
  import opened Words
  import opened Bits
  import opened Outcomes
  import opened Huffman
  import opened DynamicTables
  import opened StaticTable
  import opened Wire
  import opened Blocks
  import opened StringCodec
  import opened Encoders
  import opened Decoders
  import opened Sessions
  import opened Connections
  import opened Frames
  import opened Reassembly
  import opened HeaderEmission

  function FlagBits(f: OutFrame): Byte {
    (if f.endHeaders then END_HEADERS else 0) + (if f.endStream then END_STREAM else 0)
  }

  function Written(streamId: nat, f: OutFrame): seq<Byte>
    requires streamId < TWO_32
  {
    Build(f.kind, FlagBits(f), streamId, f.payload)
  }

  /**
   * The octets of a frame: 24 bits of length, the type, the flags, of which bit 0 is END_STREAM and bit 2
   * END_HEADERS, 32 bits of stream id, and the payload.
   */
  lemma WrittenOctets(streamId: nat, f: OutFrame)
    requires streamId < TWO_32 && |f.payload| < 0x1000000
    ensures var bytes := Written(streamId, f);
      && |bytes| == 9 + |f.payload| && bytes[9..] == f.payload
      && FromBigEndian(bytes[..3]) == |f.payload| && FromBigEndian(bytes[5..9]) == streamId
      && bytes[3] == f.kind && DATA == 0 && HEADERS == 1 && CONTINUATION == 9
      && bytes[4] < 8 && (bytes[4] % 2 == 1 <==> f.endStream) && (bytes[4] / 4 % 2 == 1 <==> f.endHeaders)
  {
    var bytes := Written(streamId, f);
    BuildRoundTrip(f.kind, FlagBits(f), streamId, f.payload, []);
    assert bytes + [] == bytes;
    hide Build;
    ThreeRead(bytes[..3]);
    FourRead(bytes[5..9]);
  }

  lemma ThreeRead(s: seq<Byte>)
    requires |s| == 3
    ensures FromBigEndian(s) == (s[0] as int) * 65536 + (s[1] as int) * 256 + s[2]
  {
    assert s[..2][..1] == s[..1] && s[..1][..0] == [];
    assert FromBigEndian(s[..1]) == s[0];
  }

  lemma FourRead(s: seq<Byte>)
    requires |s| == 4
    ensures FromBigEndian(s) == (s[0] as int) * 0x1000000 + (s[1] as int) * 65536 + (s[2] as int) * 256 + s[3]
  {
    ThreeRead(s[..3]);
  }

  function WrittenAll(streamId: nat, frames: seq<OutFrame>): (bs: seq<seq<Byte>>)
    requires streamId < TWO_32
    ensures |bs| == |frames| && forall i :: 0 <= i < |frames| ==> bs[i] == Written(streamId, frames[i])
  {
    seq(|frames|, i requires 0 <= i < |frames| => Written(streamId, frames[i]))
  }

  /** A dispatched frame as its handler sees it. */
  function ReadFrame(bytes: seq<Byte>): OutFrame
    requires |bytes| >= HEADER_SIZE
  {
    OutFrame(FrameType(bytes), BitAnd(Flags(bytes), END_HEADERS) != 0, BitAnd(Flags(bytes), END_STREAM) != 0,
      bytes[HEADER_SIZE..])
  }

  function ReadAll(frames: seq<seq<Byte>>): (fs: seq<OutFrame>)
    requires forall i :: 0 <= i < |frames| ==> |frames[i]| >= HEADER_SIZE
    ensures |fs| == |frames| && forall i :: 0 <= i < |frames| ==> fs[i] == ReadFrame(frames[i])
  {
    seq(|frames|, i requires 0 <= i < |frames| => ReadFrame(frames[i]))
  }

  /** The frame passes the peer's checks. */
  predicate Fits(f: OutFrame, max: nat) {
    f.kind <= CONTINUATION && |f.payload| <= max
  }

  predicate AllFramesFit(frames: seq<OutFrame>, max: nat) {
    forall i :: 0 <= i < |frames| ==> Fits(frames[i], max)
  }

  /** Handlers that take every frame. */
  const ACCEPTING: Handler := (frames, frame) => false

  // ---------------------------------------------------------------- one frame

  lemma WrittenWhole(streamId: nat, f: OutFrame, max: nat)
    requires streamId < TWO_32 && Fits(f, max) && max < 0x1000000
    ensures WholeFrame(Written(streamId, f), max) && ReadFrame(Written(streamId, f)) == f
  {
    var bytes := Written(streamId, f);
    BuildRoundTrip(f.kind, FlagBits(f), streamId, f.payload, []);
    assert bytes + [] == bytes;
    assert bytes[HEADER_SIZE..] == bytes[HEADER_SIZE..FrameSize(bytes)];
    assert BitAnd(0, 4) == 0 && BitAnd(1, 4) == 0 && BitAnd(4, 4) == 4 && BitAnd(5, 4) == 4;
    assert BitAnd(0, 1) == 0 && BitAnd(1, 1) == 1 && BitAnd(4, 1) == 0 && BitAnd(5, 1) == 1;
  }

  /** A frame that does not fit is refused on sight, whatever follows. */
  lemma WrittenRefused(throws: Handler, max: nat, streamId: nat, f: OutFrame, before: seq<seq<Byte>>, rest: seq<Byte>)
    requires streamId < TWO_32 && !Fits(f, max) && |f.payload| < 0x1000000
    ensures Parse(throws, max, before, Written(streamId, f) + rest).failed
    ensures Parse(throws, max, before, Written(streamId, f) + rest).frames == before
  {
    BuildRoundTrip(f.kind, FlagBits(f), streamId, f.payload, rest);
  }

  // ---------------------------------------------------------------- many frames

  /** Frames that are built, sent and read in pieces of any size are dispatched, complete and in order. */
  lemma FramesArrive(throws: Handler, max: nat, streamId: nat, frames: seq<OutFrame>, chunks: seq<seq<Byte>>)
    requires streamId < TWO_32 && AllFramesFit(frames, max) && max < 0x1000000
    requires var bytes := WrittenAll(streamId, frames);
      Concat(chunks) == Concat(bytes) && forall i :: 0 <= i < |bytes| ==> !throws(bytes[..i], bytes[i])
    ensures AfterReads(throws, max, chunks) == Parsed(WrittenAll(streamId, frames), [], false)
    ensures forall i :: 0 <= i < |frames| ==> |WrittenAll(streamId, frames)[i]| >= HEADER_SIZE
    ensures ReadAll(WrittenAll(streamId, frames)) == frames
  {
    var bytes := WrittenAll(streamId, frames);
    forall i | 0 <= i < |frames|
      ensures WholeFrame(bytes[i], max) && |bytes[i]| >= HEADER_SIZE && ReadFrame(bytes[i]) == frames[i]
    {
      WrittenWhole(streamId, frames[i], max);
    }
    hide Written, ReadFrame, Parse, WholeFrame, Fits;
    ParseInverts(throws, max, bytes);
    ChunkingIndependence(throws, max, chunks);
    assert ReadAll(bytes) == frames;
  }

  /** The bytes of some pieces are those of the first ones, of the next one and of the rest. */
  lemma {:induction false} ConcatAt<T>(pieces: seq<seq<T>>, k: nat) returns (rest: seq<T>)
    requires k < |pieces|
    ensures Concat(pieces) == Concat(pieces[..k]) + (pieces[k] + rest)
  {
    var n := |pieces| - 1;
    if k == n {
      rest := [];
      assert pieces[k] + rest == pieces[k];
    } else {
      var rest' := ConcatAt(pieces[..n], k);
      rest := rest' + pieces[n];
      assert pieces[..n][..k] == pieces[..k];
      ConcatAssoc(Concat(pieces[..k]), pieces[k] + rest', pieces[n]);
      ConcatAssoc(pieces[k], rest', pieces[n]);
    }
  }

  /** The first frame that does not fit ends the connection; the frames before it have been dispatched. */
  lemma FramesRefused(max: nat, streamId: nat, frames: seq<OutFrame>, k: nat, chunks: seq<seq<Byte>>)
    requires streamId < TWO_32 && max < 0x1000000 && k < |frames| && |frames[k].payload| < 0x1000000
    requires AllFramesFit(frames[..k], max) && !Fits(frames[k], max)
    requires Concat(chunks) == Concat(WrittenAll(streamId, frames))
    ensures AfterReads(ACCEPTING, max, chunks).failed
    ensures AfterReads(ACCEPTING, max, chunks).frames == WrittenAll(streamId, frames[..k])
  {
    hide Fits, Parse, Written;
    var bytes, first := WrittenAll(streamId, frames), WrittenAll(streamId, frames[..k]);
    assert bytes[..k] == first;
    var rest := ConcatAt(bytes, k);
    var one := [Concat(first)];
    assert one[..0] == [];
    assert Concat(one) == Concat(first);
    FramesArrive(ACCEPTING, max, streamId, frames[..k], one);
    ChunkingIndependence(ACCEPTING, max, one);
    ParseSplit(ACCEPTING, max, [], Concat(first), bytes[k] + rest);
    assert [] + (bytes[k] + rest) == bytes[k] + rest;
    WrittenRefused(ACCEPTING, max, streamId, frames[k], first, rest);
    ChunkingIndependence(ACCEPTING, max, chunks);
  }

  lemma {:induction false} FirstUnfit(frames: seq<OutFrame>, max: nat) returns (k: nat)
    requires !AllFramesFit(frames, max)
    ensures k < |frames| && AllFramesFit(frames[..k], max) && !Fits(frames[k], max)
  {
    hide Fits;
    var n := |frames| - 1;
    if AllFramesFit(frames[..n], max) {
      k := n;
    } else {
      k := FirstUnfit(frames[..n], max);
      assert frames[..n][..k] == frames[..k];
    }
  }

  // ---------------------------------------------------------------- the frames of a header list

  /** Each block, with the uncharged octets of its new names, is within the peer's frame size. */
  ghost predicate BlocksFit(t: seq<Code>, blocks: seq<seq<Sent>>, max: nat)
    requires Sized(t)
  {
    forall i :: 0 <= i < |blocks| ==> Charge(t, blocks[i]) + NewNames(blocks[i]) <= max
  }

  lemma NewFramesFitIff(continued: bool, last: bool, bodyEmpty: bool, payload: seq<Byte>, max: nat)
    ensures AllFramesFit(NewFrames(continued, last, bodyEmpty, payload), max) <==> |payload| <= max
  {
    var frames := NewFrames(continued, last, bodyEmpty, payload);
    assert frames[0].payload == payload;
  }

  lemma FitBoth(a: seq<OutFrame>, b: seq<OutFrame>, max: nat)
    ensures AllFramesFit(a + b, max) <==> AllFramesFit(a, max) && AllFramesFit(b, max)
  {
    hide Fits;
    if AllFramesFit(a + b, max) {
      forall i | 0 <= i < |a| ensures Fits(a[i], max) { assert (a + b)[i] == a[i]; }
      forall i | 0 <= i < |b| ensures Fits(b[i], max) { assert (a + b)[|a| + i] == b[i]; }
    }
  }

  /** The frames of a header list fit exactly when its blocks do. */
  lemma {:induction false} EmittedFitIff(t: seq<Code>, blocks: seq<seq<Sent>>, total: nat, bodyEmpty: bool, max: nat)
    requires Sized(t)
    ensures AllFramesFit(FramesFor(t, blocks, total, bodyEmpty), max) <==> BlocksFit(t, blocks, max)
  {
    hide Charge, NewNames, BlockBytes, AllFramesFit, NewFrames;
    if blocks == [] {
      NoneFit(FramesFor(t, blocks, total, bodyEmpty), max);
    } else {
      var n := |blocks| - 1;
      var sent := |Concat(blocks[..n])|;
      var frames := NewFrames(sent > 0, sent + |blocks[n]| == total, bodyEmpty, BlockBytes(t, blocks[n]));
      EmittedFitIff(t, blocks[..n], total, bodyEmpty, max);
      BlockLength(t, blocks[n]);
      if blocks[n] == [] {
        NoCharge(t, blocks[n]);
      } else {
        FitBoth(FramesFor(t, blocks[..n], total, bodyEmpty), frames, max);
        NewFramesFitIff(sent > 0, sent + |blocks[n]| == total, bodyEmpty, BlockBytes(t, blocks[n]), max);
      }
      BlocksFitStep(t, blocks, max);
    }
  }

  lemma NoneFit(frames: seq<OutFrame>, max: nat)
    requires frames == []
    ensures AllFramesFit(frames, max)
  {
  }

  lemma NoCharge(t: seq<Code>, block: seq<Sent>)
    requires Sized(t) && block == []
    ensures Charge(t, block) == 0 && NewNames(block) == 0
  {
  }

  lemma BlocksFitStep(t: seq<Code>, blocks: seq<seq<Sent>>, max: nat)
    requires Sized(t) && blocks != []
    ensures var n := |blocks| - 1;
      BlocksFit(t, blocks, max) == (BlocksFit(t, blocks[..n], max) && Charge(t, blocks[n]) + NewNames(blocks[n]) <= max)
  {
    hide Charge, NewNames;
    var n := |blocks| - 1;
    if BlocksFit(t, blocks, max) {
      forall i | 0 <= i < n ensures Charge(t, blocks[..n][i]) + NewNames(blocks[..n][i]) <= max {
        assert blocks[..n][i] == blocks[i];
      }
    }
  }

  /** A block of at most nine new names fits, when the limit is from 18 up to the peer's frame size. */
  lemma FewNewNamesFit(t: seq<Code>, st: seq<Entry>, rate: nat, dyn: seq<Entry>, fields: seq<HeaderField>,
      limits: seq<nat>, blocks: seq<seq<Sent>>, max: nat)
    requires Sized(t) && |blocks| == |limits|
    requires forall i :: 0 <= i < |limits| ==> SentAt(t, st, rate, dyn, INIT_TABLE_SIZE, fields, limits, blocks, i)
    requires forall i :: 0 <= i < |limits| ==> 2 * HEADER_SIZE <= limits[i] <= max < TWO_64
    requires forall i :: 0 <= i < |blocks| ==> NewNames(blocks[i]) <= HEADER_SIZE
    ensures BlocksFit(t, blocks, max)
  {
    hide NewNames;
    forall i | 0 <= i < |blocks| ensures Charge(t, blocks[i]) + NewNames(blocks[i]) <= max {
      WithinLimit(t, st, rate, dyn, fields, limits, blocks, i);
    }
  }

  lemma WithinLimit(t: seq<Code>, st: seq<Entry>, rate: nat, dyn: seq<Entry>, fields: seq<HeaderField>,
      limits: seq<nat>, blocks: seq<seq<Sent>>, i: nat)
    requires Sized(t) && i < |blocks| == |limits| && 2 * HEADER_SIZE <= limits[i] < TWO_64
    requires SentAt(t, st, rate, dyn, INIT_TABLE_SIZE, fields, limits, blocks, i)
    ensures Charge(t, blocks[i]) + HEADER_SIZE <= limits[i]
  {
    hide Emitted, TableAfter, Concat, Charge, Refused;
  }

  /** The fields whose names are not static: these are the ones that are sent with new names. */
  function Unnamed(st: seq<Entry>, fields: seq<HeaderField>): nat {
    if fields == [] then 0
    else Unnamed(st, fields[..|fields| - 1]) + if HasName(st, fields[|fields| - 1].name) then 0 else 1
  }

  lemma ChosenNewName(t: seq<Code>, st: seq<Entry>, rate: nat, dyn: seq<Entry>, s: Sent)
    requires Sized(t) && Chosen(t, st, rate, dyn, s) && Reachable(st, dyn, INIT_TABLE_SIZE)
    ensures s.NewName() <==> !HasName(st, s.field.name)
  {
    hide FieldFits, EstimateString;
    FoundNames(st, dyn, s.field.name, if s.rep.Indexed? then s.rep.index else 0);
  }

  /** What a caller can count beforehand: the new names of a block are its fields without static names. */
  lemma {:induction false} NewNamesCounted(t: seq<Code>, st: seq<Entry>, rate: nat, dyn: seq<Entry>, block: seq<Sent>)
    requires Sized(t) && Emitted(t, st, rate, dyn, INIT_TABLE_SIZE, block) && Reachable(st, dyn, INIT_TABLE_SIZE)
    ensures NewNames(block) == Unnamed(st, Fields(block))
  {
    hide Chosen, Reachable;
    if block != [] {
      var n := |block| - 1;
      NewNamesCounted(t, st, rate, dyn, block[..n]);
      AlwaysReachable(t, st, rate, dyn, INIT_TABLE_SIZE, block[..n]);
      ChosenNewName(t, st, rate, TableAfter(dyn, INIT_TABLE_SIZE, block[..n]), block[n]);
      assert Fields(block)[..n] == Fields(block[..n]);
    }
  }

  lemma {:induction false} UnnamedPart(st: seq<Entry>, fields: seq<HeaderField>, lo: nat, hi: nat)
    requires lo <= hi <= |fields|
    ensures Unnamed(st, fields[lo..hi]) <= Unnamed(st, fields)
  {
    hide HasName;
    if lo < hi {
      var n := |fields| - 1;
      if hi == |fields| {
        assert fields[lo..hi][..hi - lo - 1] == fields[..n][lo..n];
        UnnamedPart(st, fields[..n], lo, n);
      } else {
        assert fields[lo..hi] == fields[..n][lo..hi];
        UnnamedPart(st, fields[..n], lo, hi);
      }
    }
  }

  /** Before every limit the encoder is in a reachable state. */
  lemma {:induction false} ReachableBefore(t: seq<Code>, st: seq<Entry>, rate: nat, dyn: seq<Entry>,
      fields: seq<HeaderField>, limits: seq<nat>, blocks: seq<seq<Sent>>, i: nat)
    requires Sized(t) && Reachable(st, dyn, INIT_TABLE_SIZE) && i <= |blocks| == |limits|
    requires forall k :: 0 <= k < |limits| ==> SentAt(t, st, rate, dyn, INIT_TABLE_SIZE, fields, limits, blocks, k)
    ensures Reachable(st, TableAfter(dyn, INIT_TABLE_SIZE, Concat(blocks[..i])), INIT_TABLE_SIZE)
  {
    hide Reachable, Emitted, SentAt, TableAfter, Concat, Fields;
    if i == 0 {
      NothingBefore(dyn, blocks);
    } else {
      ReachableBefore(t, st, rate, dyn, fields, limits, blocks, i - 1);
      var before, block := Concat(blocks[..i - 1]), blocks[i - 1];
      assert blocks[..i] == blocks[..i - 1] + [block];
      ConcatMore(blocks[..i - 1], block);
      TableAfterBoth(dyn, INIT_TABLE_SIZE, before, block);
      SentEmitted(t, st, rate, dyn, fields, limits, blocks, i - 1);
      AlwaysReachable(t, st, rate, TableAfter(dyn, INIT_TABLE_SIZE, before), INIT_TABLE_SIZE, block);
    }
  }

  lemma NothingBefore(dyn: seq<Entry>, blocks: seq<seq<Sent>>)
    ensures TableAfter(dyn, INIT_TABLE_SIZE, Concat(blocks[..0])) == dyn
  {
  }

  lemma SentEmitted(t: seq<Code>, st: seq<Entry>, rate: nat, dyn: seq<Entry>, fields: seq<HeaderField>,
      limits: seq<nat>, blocks: seq<seq<Sent>>, i: nat)
    requires Sized(t) && i < |blocks| == |limits|
    requires SentAt(t, st, rate, dyn, INIT_TABLE_SIZE, fields, limits, blocks, i)
    ensures var before := Concat(blocks[..i]);
      && Emitted(t, st, rate, TableAfter(dyn, INIT_TABLE_SIZE, before), INIT_TABLE_SIZE, blocks[i])
      && |before| + |blocks[i]| <= |fields|
      && Fields(blocks[i]) == fields[|before|..|before| + |blocks[i]|]
  {
    hide Emitted, TableAfter, Concat, Charge, Refused, SizeLimit;
    var lo, n := |Concat(blocks[..i])|, |blocks[i]|;
    assert fields[lo..][..n] == fields[lo..lo + n];
  }

  /** All frames fit when at most nine fields of the list have names that are not static. */
  lemma FewUnnamedFit(t: seq<Code>, st: seq<Entry>, rate: nat, dyn: seq<Entry>, fields: seq<HeaderField>,
      limits: seq<nat>, blocks: seq<seq<Sent>>, max: nat)
    requires Sized(t) && Reachable(st, dyn, INIT_TABLE_SIZE) && |blocks| == |limits|
    requires forall i :: 0 <= i < |limits| ==> SentAt(t, st, rate, dyn, INIT_TABLE_SIZE, fields, limits, blocks, i)
    requires forall i :: 0 <= i < |limits| ==> 2 * HEADER_SIZE <= limits[i] <= max < TWO_64
    requires Unnamed(st, fields) <= HEADER_SIZE
    ensures BlocksFit(t, blocks, max)
  {
    hide Reachable, SentAt, Emitted, TableAfter, Concat, NewNames, Unnamed, BlocksFit, Fields;
    forall i | 0 <= i < |blocks| ensures NewNames(blocks[i]) <= HEADER_SIZE {
      var before := Concat(blocks[..i]);
      ReachableBefore(t, st, rate, dyn, fields, limits, blocks, i);
      SentEmitted(t, st, rate, dyn, fields, limits, blocks, i);
      NewNamesCounted(t, st, rate, TableAfter(dyn, INIT_TABLE_SIZE, before), blocks[i]);
      UnnamedPart(st, fields, |before|, |before| + |blocks[i]|);
    }
    FewNewNamesFit(t, st, rate, dyn, fields, limits, blocks, max);
  }

  // ---------------------------------------------------------------- end to end

  /** The peer, reading these pieces, dispatches frames whose payloads decode to the fields. */
  ghost predicate Delivers(t: seq<Code>, st: seq<Entry>, d: State, max: nat, chunks: seq<seq<Byte>>,
      received: seq<HeaderField>, d': State)
    requires |t| == 257
  {
    var read := AfterReads(ACCEPTING, max, chunks);
    && !read.failed && read.rest == []
    && (forall i :: 0 <= i < |read.frames| ==> |read.frames[i]| >= HEADER_SIZE)
    && DecodePayloads(t, st, d, Payloads(ReadAll(read.frames))) == Decoded(Ok(received), d')
  }

  /** So it does in whatever pieces the bytes reach it. */
  ghost predicate DeliversAlways(t: seq<Code>, st: seq<Entry>, d: State, max: nat, bytes: seq<Byte>,
      received: seq<HeaderField>, d': State)
    requires |t| == 257
  {
    forall chunks: seq<seq<Byte>> :: Concat(chunks) == bytes ==> Delivers(t, st, d, max, chunks, received, d')
  }

  /** In whatever pieces the bytes reach it, the peer fails. */
  ghost predicate FailsAlways(max: nat, bytes: seq<Byte>) {
    forall chunks: seq<seq<Byte>> :: Concat(chunks) == bytes ==> AfterReads(ACCEPTING, max, chunks).failed
  }

  /** Limits that the client uses towards a peer with this frame size. */
  predicate Usual(limits: seq<nat>, max: nat) {
    forall i :: 0 <= i < |limits| ==> 2 * HEADER_SIZE <= limits[i] <= max
  }

  /**
   * From the header list to the peer's header list: the list is encoded and framed with any limits, the
   * frames are written as bytes, and however these are cut into reads, the payloads of the frames that the
   * peer dispatches decode to the fields that were sent, if the blocks fit its frame size; if one does not,
   * the peer fails. They fit when the limits are from 18 up to that size and at most nine fields have
   * names that are not static.
   */
  method SendOverWire(enc: Encoder, dec: Decoder, fields: seq<HeaderField>, bodyEmpty: bool, limits: seq<nat>,
      around: seq<Byte>, streamId: nat, max: nat)
    returns (bytes: seq<Byte>, received: seq<HeaderField>, left: seq<HeaderField>, ghost blocks: seq<seq<Sent>>)
    requires Paired(enc, dec) && AllFit(fields) && |around| == 8 && streamId < TWO_32 && max < 0x1000000
    requires AllSuitable(enc.huffman, enc.table.st, INIT_TABLE_SIZE, fields)
    requires forall i :: 0 <= i < |limits| ==> limits[i] < TWO_64
    modifies enc.table.dyn, enc.table.dyn.base, dec.table.dyn
    ensures Paired(enc, dec) && |blocks| == |limits| && received + left == fields
    ensures forall i :: 0 <= i < |limits| ==>
      SentAt(enc.huffman, enc.table.st, enc.minHuffmanRate, old(enc.Dyn()), INIT_TABLE_SIZE, fields, limits, blocks, i)
    ensures bytes == Concat(WrittenAll(streamId, FramesFor(enc.huffman, blocks, |fields|, bodyEmpty)))
    ensures BlocksFit(enc.huffman, blocks, max) ==>
      DeliversAlways(enc.huffman, enc.table.st, old(dec.ToState()), max, bytes, received, dec.ToState())
    ensures !BlocksFit(enc.huffman, blocks, max) && BlocksFit(enc.huffman, blocks, 0xffffff) ==> FailsAlways(max, bytes)
    ensures Usual(limits, max) && Unnamed(enc.table.st, fields) <= HEADER_SIZE ==> BlocksFit(enc.huffman, blocks, max)
  {
    ghost var t, st, rate, dyn, d := enc.huffman, enc.table.st, enc.minHuffmanRate, enc.Dyn(), dec.ToState();
    assert Sized(t) && Reachable(st, dyn, INIT_TABLE_SIZE);
    hide Paired, AllSuitable, AllFit, SentAt, FramesFor, Reachable, BlocksFit, DecodePayloads, Payloads, BlocksBytes;
    hide Unnamed, Concat, WrittenAll, DeliversAlways, FailsAlways, WellOrdered, BlockFrames, Sized;
    var frames;
    frames, received, left, blocks := SendHeaders(enc, dec, fields, bodyEmpty, limits, around);
    bytes := Concat(WrittenAll(streamId, frames));
    ArrivesAlways(t, st, d, max, streamId, frames, blocks, |fields|, bodyEmpty, bytes, received, dec.ToState());
    if Usual(limits, max) && Unnamed(st, fields) <= HEADER_SIZE {
      FewUnnamedFit(t, st, rate, dyn, fields, limits, blocks, max);
    }
  }

  lemma ArrivesAlways(t: seq<Code>, st: seq<Entry>, d: State, max: nat, streamId: nat, frames: seq<OutFrame>,
      blocks: seq<seq<Sent>>, total: nat, bodyEmpty: bool, bytes: seq<Byte>, received: seq<HeaderField>, d': State)
    requires Sized(t) && streamId < TWO_32 && max < 0x1000000
    requires frames == FramesFor(t, blocks, total, bodyEmpty) && bytes == Concat(WrittenAll(streamId, frames))
    requires DecodePayloads(t, st, d, Payloads(frames)) == Decoded(Ok(received), d')
    ensures BlocksFit(t, blocks, max) ==> DeliversAlways(t, st, d, max, bytes, received, d')
    ensures !BlocksFit(t, blocks, max) && BlocksFit(t, blocks, 0xffffff) ==> FailsAlways(max, bytes)
  {
    hide BlocksFit, FramesFor, AfterReads, DecodePayloads, Payloads, Concat, Written, AllFramesFit;
    EmittedFitIff(t, blocks, total, bodyEmpty, max);
    if BlocksFit(t, blocks, max) {
      forall chunks: seq<seq<Byte>> | Concat(chunks) == bytes
        ensures Delivers(t, st, d, max, chunks, received, d')
      {
        FramesArrive(ACCEPTING, max, streamId, frames, chunks);
      }
    } else if BlocksFit(t, blocks, 0xffffff) {
      RefusedAlways(t, max, streamId, blocks, total, bodyEmpty);
    }
  }

  /** One block above the peer's frame size, and the peer fails. */
  lemma RefusedAlways(t: seq<Code>, max: nat, streamId: nat, blocks: seq<seq<Sent>>, total: nat, bodyEmpty: bool)
    requires Sized(t) && streamId < TWO_32 && max < 0x1000000
    requires !BlocksFit(t, blocks, max) && BlocksFit(t, blocks, 0xffffff)
    ensures FailsAlways(max, Concat(WrittenAll(streamId, FramesFor(t, blocks, total, bodyEmpty))))
  {
    hide BlocksFit, FramesFor, AfterReads, Concat, Written;
    var frames := FramesFor(t, blocks, total, bodyEmpty);
    EmittedFitIff(t, blocks, total, bodyEmpty, max);
    EmittedFitIff(t, blocks, total, bodyEmpty, 0xffffff);
    var k := FirstUnfit(frames, max);
    assert Fits(frames[k], 0xffffff);
    forall chunks: seq<seq<Byte>> | Concat(chunks) == Concat(WrittenAll(streamId, frames))
      ensures AfterReads(ACCEPTING, max, chunks).failed
    {
      FramesRefused(max, streamId, frames, k, chunks);
    }
  }
}
