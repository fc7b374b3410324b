/** Sending a header list as one HEADERS frame and CONTINUATION frames behind it. */
module HeaderEmission {
  import opened Words
  import opened Outcomes
  import opened Huffman
  import opened DynamicTables
  import opened StaticTable
  import opened StreamBuffers
  import opened TableObjects
  import opened Wire
  import opened Blocks
  import opened Encoders
  import opened Decoders
  import opened Sessions
  import opened Connections
  import opened Frames

  /** A frame on its way out, with the flags that matter here. */
  datatype OutFrame = OutFrame(kind: Byte, endHeaders: bool, endStream: bool, payload: seq<Byte>)

  /** The frames that carry header blocks. */
  function BlockFrames(out: seq<OutFrame>): seq<OutFrame> {
    if out == [] then []
    else
      var n := |out| - 1;
      if out[n].kind == DATA then BlockFrames(out[..n]) else BlockFrames(out[..n]) + [out[n]]
  }

  lemma BlockFramesAdd(out: seq<OutFrame>, f: OutFrame)
    ensures BlockFrames(out + [f]) == if f.kind == DATA then BlockFrames(out) else BlockFrames(out) + [f]
  {
    assert (out + [f])[..|out|] == out;
  }

  /** One HEADERS frame, then CONTINUATION frames only; END_HEADERS on the last one, and only once nothing is left. */
  ghost predicate WellOrdered(frames: seq<OutFrame>, finished: bool) {
    forall i :: 0 <= i < |frames| ==>
      && frames[i].kind == (if i == 0 then HEADERS else CONTINUATION)
      && (frames[i].endHeaders <==> finished && i == |frames| - 1)
  }

  /** The header blocks in the frames. */
  function Payloads(out: seq<OutFrame>): (ps: seq<seq<Byte>>)
    ensures |ps| == |BlockFrames(out)|
    ensures forall i :: 0 <= i < |ps| ==> ps[i] == BlockFrames(out)[i].payload
  {
    var frames := BlockFrames(out);
    seq(|frames|, i requires 0 <= i < |frames| => frames[i].payload)
  }

  /** The room for a header block: the frame header is taken off the limit, twice for a continuation, in 64 bits. */
  function SizeLimit(isContinuation: bool, limit: nat): nat {
    Wrap64(if isContinuation then limit - 2 * HEADER_SIZE else limit - HEADER_SIZE)
  }

  /**
   * What is emitted for a header block: HEADERS for the first one, with END_STREAM when there is no body, and
   * CONTINUATION for any other one; END_HEADERS when nothing is left; and an empty DATA frame with END_STREAM
   * behind a last continuation when there is no body.
   */
  function NewFrames(continued: bool, last: bool, bodyEmpty: bool, payload: seq<Byte>): seq<OutFrame> {
    if !continued then [OutFrame(HEADERS, last, bodyEmpty, payload)]
    else if last && bodyEmpty then [OutFrame(CONTINUATION, last, false, payload), OutFrame(DATA, false, true, [])]
    else [OutFrame(CONTINUATION, last, false, payload)]
  }

  /** All bytes of some frames. */
  function FramesSize(frames: seq<OutFrame>): nat {
    if frames == [] then 0
    else FramesSize(frames[..|frames| - 1]) + HEADER_SIZE + |frames[|frames| - 1].payload|
  }

  lemma {:induction false} FramesSizeBoth(a: seq<OutFrame>, b: seq<OutFrame>)
    ensures FramesSize(a + b) == FramesSize(a) + FramesSize(b)
  {
    if b == [] {
      assert a + b == a;
    } else {
      var n := |b| - 1;
      FramesSizeBoth(a, b[..n]);
      assert (a + b)[..|a| + n] == a + b[..n];
    }
  }

  /** The second header that is taken off for a continuation is that of the DATA frame behind it. */
  lemma NewFramesSize(continued: bool, last: bool, bodyEmpty: bool, payload: seq<Byte>)
    ensures FramesSize(NewFrames(continued, last, bodyEmpty, payload)) ==
      |payload| + if continued && last && bodyEmpty then 2 * HEADER_SIZE else HEADER_SIZE
  {
    var more := NewFrames(continued, last, bodyEmpty, payload);
    hide FramesSize;
    OneFrameSize(more[0]);
    if |more| == 2 {
      OneFrameSize(more[1]);
      FramesSizeBoth([more[0]], [more[1]]);
      assert more == [more[0]] + [more[1]];
    } else {
      assert more == [more[0]];
    }
  }

  lemma OneFrameSize(f: OutFrame)
    ensures FramesSize([f]) == HEADER_SIZE + |f.payload|
  {
    assert [f][..0] == [];
    assert FramesSize([]) == 0;
  }

  lemma OrderedAdd(frames: seq<OutFrame>, f: OutFrame)
    requires WellOrdered(frames, false) && f.kind == if frames == [] then HEADERS else CONTINUATION
    ensures WellOrdered(frames + [f], f.endHeaders)
  {
  }

  lemma FitAfter(fields: seq<HeaderField>, count: nat)
    requires AllFit(fields) && count <= |fields|
    ensures AllFit(fields[count..])
  {
  }

  class HeaderSender {
    var headerList: seq<HeaderField>
    const bodyEmpty: bool
    var isContinuation: bool
    var out: seq<OutFrame>

    ghost predicate Valid()
      reads this
    {
      && AllFit(headerList)
      && WellOrdered(BlockFrames(out), headerList == [])
      && (isContinuation ==> BlockFrames(out) != [])
      && (BlockFrames(out) != [] && headerList != [] ==> isContinuation)
    }

    constructor (fields: seq<HeaderField>, bodyEmpty: bool)
      requires AllFit(fields)
      ensures Valid() && headerList == fields && this.bodyEmpty == bodyEmpty && out == [] && !isContinuation
    {
      headerList := fields;
      this.bodyEmpty := bodyEmpty;
      isContinuation := false;
      out := [];
    }

    /** The frame for a block that was encoded, and the empty DATA frame behind a last continuation without body. */
    method Emit(payload: seq<Byte>, count: nat) returns (used: nat)
      requires Valid() && 0 < count <= |headerList|
      modifies this
      ensures Valid() && headerList == old(headerList)[count..] && used == HEADER_SIZE + |payload|
      ensures |BlockFrames(out)| == |old(BlockFrames(out))| + 1 && old(BlockFrames(out)) <= BlockFrames(out)
      ensures BlockFrames(out)[|BlockFrames(out)| - 1].payload == payload
      ensures isContinuation == (old(isContinuation) || headerList != [])
      ensures out == old(out) + NewFrames(old(isContinuation), headerList == [], bodyEmpty, payload)
    {
      hide BlockFrames, WellOrdered, AllFit;
      FitAfter(headerList, count);
      headerList := headerList[count..];
      var endHeaders := headerList == [];
      var frame;
      if isContinuation {
        frame := OutFrame(CONTINUATION, endHeaders, false, payload);
      } else {
        frame := OutFrame(HEADERS, endHeaders, bodyEmpty, payload);
        isContinuation := headerList != [];
      }
      OrderedAdd(BlockFrames(out), frame);
      BlockFramesAdd(out, frame);
      out := out + [frame];
      if isContinuation && headerList == [] && bodyEmpty {
        BlockFramesAdd(out, OutFrame(DATA, false, true, []));
        out := out + [OutFrame(DATA, false, true, [])];
        assert out == old(out) + [frame, OutFrame(DATA, false, true, [])];
      }
      used := HEADER_SIZE + |payload|;
    }

    /**
     * Sends as many fields as the limit admits in one frame; a list that does not advance leaves everything
     * as it was. The frame is within the limit, but for the uncounted octet of every new name, when the
     * limit is no smaller than the headers that are taken off it; a smaller one wraps around.
     */
    method PrepareHeaders(enc: Encoder, limit: nat) returns (used: nat, ghost block: seq<Sent>)
      requires Valid() && enc.Valid() && limit < TWO_64
      modifies this, enc.table.dyn, enc.table.dyn.base
      ensures Valid() && enc.Valid()
      ensures Longest(enc.huffman, enc.table.st, enc.minHuffmanRate, old(enc.Dyn()), INIT_TABLE_SIZE,
        old(headerList), SizeLimit(old(isContinuation), limit), block)
      ensures headerList == old(headerList)[|block|..]
      ensures enc.Dyn() == TableAfter(old(enc.Dyn()), INIT_TABLE_SIZE, block)
      ensures block == [] ==> out == old(out) && used == 0
      ensures block != [] ==> Payloads(out) == old(Payloads(out)) + [BlockBytes(enc.huffman, block)]
      ensures block != [] ==>
        out == old(out) + NewFrames(old(isContinuation), headerList == [], bodyEmpty, BlockBytes(enc.huffman, block))
      ensures isContinuation == (old(isContinuation) || (block != [] && headerList != []))
      ensures block != [] ==> used == HEADER_SIZE + |BlockBytes(enc.huffman, block)|
      ensures var headers := if old(isContinuation) then 2 * HEADER_SIZE else HEADER_SIZE;
        && (limit >= headers ==>
              used <= limit + NewNames(block) && FramesSize(out) <= FramesSize(old(out)) + limit + NewNames(block))
        && (old(headerList) != [] && Needs(old(headerList)[0]) + headers <= limit ==> block != [])
    {
      hide Emitted, TableAfter, Reachable, BlockBytes, Grouped, Charge, Refused, NewNames, FramesSize, NewFrames, Needs;
      hide Chained, Separate, Joined, IndexedBy, Numbered, Distinct, AllFit, WellOrdered, BlockFrames;
      var sizeLimit := SizeLimit(isContinuation, limit);
      var buffers, count;
      ghost var dyn := enc.Dyn();
      buffers, count, block := enc.Encode(headerList, sizeLimit);
      if headerList != [] && Needs(headerList[0]) <= sizeLimit {
        FirstIsSent(enc.huffman, enc.table.st, enc.minHuffmanRate, dyn, INIT_TABLE_SIZE, headerList, sizeLimit, block);
      }
      if count == 0 {
        assert headerList[0..] == headerList;
        return 0, block;
      }
      var payload := Gather(buffers);
      BlockLength(enc.huffman, block);
      FramesSizeBoth(out, NewFrames(isContinuation, headerList[count..] == [], bodyEmpty, payload));
      NewFramesSize(isContinuation, headerList[count..] == [], bodyEmpty, payload);
      used := Emit(payload, count);
    }
  }

  // ---------------------------------------------------------------- a whole header list

  /** What a decoder makes of header blocks, one after the other. */
  ghost function DecodePayloads(t: seq<Code>, st: seq<Entry>, d: State, payloads: seq<seq<Byte>>): Decoded
    requires |t| == 257
  {
    if payloads == [] then Decoded(Ok([]), d)
    else
      var n := |payloads| - 1;
      var before := DecodePayloads(t, st, d, payloads[..n]);
      if !before.fields.Ok? then before
      else Continued(before.fields.value, DecodeBlock(t, st, before.state, payloads[n]))
  }

  /** The bytes of the blocks that are not empty. */
  ghost function BlocksBytes(t: seq<Code>, blocks: seq<seq<Sent>>): seq<seq<Byte>>
    requires Sized(t)
  {
    if blocks == [] then []
    else
      var n := |blocks| - 1;
      BlocksBytes(t, blocks[..n]) + if blocks[n] == [] then [] else [BlockBytes(t, blocks[n])]
  }

  /** The frames for the blocks of a list of `total` fields, block by block. */
  ghost function FramesFor(t: seq<Code>, blocks: seq<seq<Sent>>, total: nat, bodyEmpty: bool): seq<OutFrame>
    requires Sized(t)
  {
    if blocks == [] then []
    else
      var n := |blocks| - 1;
      var sent := |Concat(blocks[..n])|;
      var before := FramesFor(t, blocks[..n], total, bodyEmpty);
      if blocks[n] == [] then before
      else before + NewFrames(sent > 0, sent + |blocks[n]| == total, bodyEmpty, BlockBytes(t, blocks[n]))
  }

  lemma FramesMore(t: seq<Code>, blocks: seq<seq<Sent>>, total: nat, bodyEmpty: bool, block: seq<Sent>)
    requires Sized(t)
    ensures FramesFor(t, blocks + [block], total, bodyEmpty) ==
      if block == [] then FramesFor(t, blocks, total, bodyEmpty)
      else
        var sent, payload := |Concat(blocks)|, BlockBytes(t, block);
        FramesFor(t, blocks, total, bodyEmpty) + NewFrames(sent > 0, sent + |block| == total, bodyEmpty, payload)
  {
    hide BlockBytes, NewFrames;
    assert (blocks + [block])[..|blocks|] == blocks;
  }

  /**
   * END_STREAM is on the HEADERS frame exactly when there is no body, and otherwise only on a DATA frame. That
   * one comes last, is empty, and is there exactly when nothing is left, there is no body, and the block did
   * not fit one frame.
   */
  ghost predicate EndsStream(frames: seq<OutFrame>, bodyEmpty: bool, finished: bool) {
    && (forall i :: 0 <= i < |frames| ==> (frames[i].endStream <==> bodyEmpty && (i == 0 || frames[i].kind == DATA)))
    && (forall i :: 0 <= i < |frames| && frames[i].kind == DATA ==> i == |frames| - 1 && frames[i].payload == [])
    && ((exists i :: 0 <= i < |frames| && frames[i].kind == DATA) <==>
          bodyEmpty && finished && |BlockFrames(frames)| > 1)
  }

  lemma {:induction false} FramesEnd(t: seq<Code>, blocks: seq<seq<Sent>>, total: nat, bodyEmpty: bool)
    requires Sized(t) && |Concat(blocks)| <= total
    ensures EndsStream(FramesFor(t, blocks, total, bodyEmpty), bodyEmpty, |Concat(blocks)| == total)
    ensures BlockFrames(FramesFor(t, blocks, total, bodyEmpty)) == [] <==> Concat(blocks) == []
    ensures Concat(blocks) == [] ==> FramesFor(t, blocks, total, bodyEmpty) == []
  {
    hide BlockBytes, BlockFrames, EndsStream;
    if blocks == [] {
      NothingEnds(bodyEmpty, |Concat(blocks)| == total);
    } else {
      var n := |blocks| - 1;
      FramesEnd(t, blocks[..n], total, bodyEmpty);
      if blocks[n] != [] {
        EndsMore(FramesFor(t, blocks[..n], total, bodyEmpty), |Concat(blocks[..n])| > 0, |Concat(blocks)| == total,
          bodyEmpty, BlockBytes(t, blocks[n]));
      }
    }
  }

  lemma NothingEnds(bodyEmpty: bool, finished: bool)
    ensures EndsStream([], bodyEmpty, finished) && BlockFrames([]) == []
  {
  }

  lemma EndsMore(frames: seq<OutFrame>, continued: bool, last: bool, bodyEmpty: bool, payload: seq<Byte>)
    requires EndsStream(frames, bodyEmpty, false) && (continued <==> BlockFrames(frames) != [])
    requires !continued ==> frames == []
    ensures EndsStream(frames + NewFrames(continued, last, bodyEmpty, payload), bodyEmpty, last)
    ensures BlockFrames(frames + NewFrames(continued, last, bodyEmpty, payload)) != []
  {
    hide EndsStream;
    var more := NewFrames(continued, last, bodyEmpty, payload);
    BlockFramesAdd(frames, more[0]);
    hide BlockFrames;
    EndsNotYet(frames, bodyEmpty, more[0]);
    if |more| == 2 {
      BlockFramesAdd(frames + [more[0]], more[1]);
      EndsWithData(frames + [more[0]], more[1]);
      assert frames + more == frames + [more[0]] + [more[1]];
    } else {
      assert more == [more[0]];
      EndsOrNot(frames + [more[0]], bodyEmpty, last);
    }
  }

  /** A frame with a header block; only the first frame can end the stream. */
  lemma EndsNotYet(frames: seq<OutFrame>, bodyEmpty: bool, f: OutFrame)
    requires EndsStream(frames, bodyEmpty, false) && f.kind != DATA && (f.endStream <==> bodyEmpty && frames == [])
    ensures EndsStream(frames + [f], bodyEmpty, false)
  {
    hide BlockFrames;
  }

  lemma EndsWithData(frames: seq<OutFrame>, f: OutFrame)
    requires EndsStream(frames, true, false) && |BlockFrames(frames)| > 1 && f == OutFrame(DATA, false, true, [])
    ensures EndsStream(frames + [f], true, true)
  {
    BlockFramesAdd(frames, f);
    hide BlockFrames;
    assert (frames + [f])[|frames|].kind == DATA;
  }

  lemma EndsOrNot(frames: seq<OutFrame>, bodyEmpty: bool, last: bool)
    requires EndsStream(frames, bodyEmpty, false) && !(bodyEmpty && last && |BlockFrames(frames)| > 1)
    ensures EndsStream(frames, bodyEmpty, last)
  {
  }

  /** With limit `i` as many of the fields are sent that are left by the limits before it as it admits. */
  ghost predicate SentAt(t: seq<Code>, st: seq<Entry>, rate: nat, dyn: seq<Entry>, max: nat,
      fields: seq<HeaderField>, limits: seq<nat>, blocks: seq<seq<Sent>>, i: nat)
    requires Sized(t) && i < |blocks| == |limits|
  {
    var before := Concat(blocks[..i]);
    && |before| <= |fields|
    && Longest(t, st, rate, TableAfter(dyn, max, before), max,
         fields[|before|..], SizeLimit(before != [], limits[i]), blocks[i])
  }

  /** Every limit has room for any field. */
  predicate Ample(fields: seq<HeaderField>, limits: seq<nat>) {
    forall i, k :: 0 <= i < |limits| && 0 <= k < |fields| ==> Needs(fields[k]) + 2 * HEADER_SIZE <= limits[i] < TWO_64
  }

  /** With ample limits every call sends at least one field, until nothing is left. */
  lemma {:induction false} Drains(t: seq<Code>, st: seq<Entry>, rate: nat, dyn: seq<Entry>, max: nat,
      fields: seq<HeaderField>, limits: seq<nat>, blocks: seq<seq<Sent>>, i: nat)
    requires Sized(t) && i <= |blocks| == |limits| && Ample(fields, limits)
    requires forall k :: 0 <= k < |limits| ==> SentAt(t, st, rate, dyn, max, fields, limits, blocks, k)
    ensures |Concat(blocks[..i])| >= i || |Concat(blocks[..i])| >= |fields|
  {
    hide Longest, TableAfter, Fields, Concat, Needs;
    if i > 0 {
      Drains(t, st, rate, dyn, max, fields, limits, blocks, i - 1);
      var before := blocks[..i - 1];
      assert blocks[..i] == before + [blocks[i - 1]];
      ConcatMore(before, blocks[i - 1]);
      assert SentAt(t, st, rate, dyn, max, fields, limits, blocks, i - 1);
      var todo := fields[|Concat(before)|..];
      if todo != [] {
        assert todo[0] == fields[|Concat(before)|];
        FirstIsSent(t, st, rate, TableAfter(dyn, max, Concat(before)), max, todo,
          SizeLimit(Concat(before) != [], limits[i - 1]), blocks[i - 1]);
      }
    }
  }

  /** One call, and the block that it emits taken by the peer's decoder. */
  method SendSome(s: HeaderSender, enc: Encoder, dec: Decoder, limit: nat, around: seq<Byte>)
    returns (more: seq<HeaderField>, ghost block: seq<Sent>)
    requires s.Valid() && Paired(enc, dec) && limit < TWO_64 && |around| == 8
    requires AllSuitable(enc.huffman, enc.table.st, INIT_TABLE_SIZE, s.headerList)
    modifies s, enc.table.dyn, enc.table.dyn.base, dec.table.dyn
    ensures s.Valid() && Paired(enc, dec) && enc.Dyn() == TableAfter(old(enc.Dyn()), INIT_TABLE_SIZE, block)
    ensures Longest(enc.huffman, enc.table.st, enc.minHuffmanRate, old(enc.Dyn()), INIT_TABLE_SIZE,
      old(s.headerList), SizeLimit(old(s.isContinuation), limit), block)
    ensures more == Fields(block) && s.headerList == old(s.headerList)[|block|..]
    ensures WellOrdered(BlockFrames(s.out), s.headerList == [])
    ensures s.isContinuation == (old(s.isContinuation) || (block != [] && s.headerList != []))
    ensures AllSuitable(enc.huffman, enc.table.st, INIT_TABLE_SIZE, s.headerList)
    ensures block == [] ==> s.out == old(s.out) && dec.ToState() == old(dec.ToState())
    ensures block != [] ==> Payloads(s.out) == old(Payloads(s.out)) + [BlockBytes(enc.huffman, block)]
    ensures block != [] ==>
      var payload := BlockBytes(enc.huffman, block);
      s.out == old(s.out) + NewFrames(old(s.isContinuation), s.headerList == [], s.bodyEmpty, payload)
    ensures block != [] ==>
      DecodeBlock(dec.huffman, dec.table.st, old(dec.ToState()), BlockBytes(enc.huffman, block))
        == Decoded(Ok(more), dec.ToState())
  {
    hide Emitted, ValidTable, AllSuitable, TableAfter, Reachable;
    hide BlockBytes, Grouped, BlockFrames, WellOrdered, DecodeBlock;
    hide IndexedBy, Numbered, Distinct, AllFit;
    hide NewNames, IndexedDynamicTable.Valid, DynamicTable.Valid, Charge, Refused;
    ghost var dyn, todo := enc.Dyn(), s.headerList;
    var used;
    used, block := s.PrepareHeaders(enc, limit);
    SuitableRest(enc.huffman, enc.table.st, INIT_TABLE_SIZE, todo, |block|);
    if used > 0 {
      var payloads := Payloads(s.out);
      SuitablePrefix(enc.huffman, enc.table.st, INIT_TABLE_SIZE, todo, |block|);
      more := TakeBlock(dec, payloads[|payloads| - 1], around, enc.minHuffmanRate, dyn, block);
    } else {
      NothingSent(enc.huffman, enc.table.st, enc.minHuffmanRate, dyn, INIT_TABLE_SIZE, block);
      more := [];
    }
  }

  /** How far the list has been sent with the limits so far. */
  ghost predicate Progress(t: seq<Code>, st: seq<Entry>, rate: nat, dyn: seq<Entry>, max: nat, fields: seq<HeaderField>,
      limits: seq<nat>, blocks: seq<seq<Sent>>, todo: seq<HeaderField>, isContinuation: bool)
    requires Sized(t)
  {
    && |blocks| == |limits| && |Concat(blocks)| <= |fields|
    && (forall k :: 0 <= k < |blocks| ==> SentAt(t, st, rate, dyn, max, fields, limits, blocks, k))
    && todo == fields[|Concat(blocks)|..]
    && (todo != [] ==> isContinuation == (Concat(blocks) != []))
  }

  lemma {:induction false} TableAfterBoth(dyn: seq<Entry>, max: nat, a: seq<Sent>, b: seq<Sent>)
    ensures TableAfter(dyn, max, a + b) == TableAfter(TableAfter(dyn, max, a), max, b)
  {
    if b == [] {
      assert a + b == a;
    } else {
      var n := |b| - 1;
      TableAfterBoth(dyn, max, a, b[..n]);
      assert (a + b)[..|a| + n] == a + b[..n];
    }
  }

  lemma ConcatMore<T>(pieces: seq<seq<T>>, piece: seq<T>)
    ensures Concat(pieces + [piece]) == Concat(pieces) + piece
  {
    assert (pieces + [piece])[..|pieces|] == pieces;
  }

  /** Nothing is left, so nothing is sent, whatever the limit. */
  lemma LongestOfNothing(t: seq<Code>, st: seq<Entry>, rate: nat, dyn: seq<Entry>, max: nat, fields: seq<HeaderField>,
      limit: nat, limit': nat, block: seq<Sent>)
    requires Sized(t) && fields == [] && Longest(t, st, rate, dyn, max, fields, limit, block)
    ensures Longest(t, st, rate, dyn, max, fields, limit', block)
  {
    NothingSent(t, st, rate, dyn, max, block);
  }

  lemma ProgressMore(t: seq<Code>, st: seq<Entry>, rate: nat, dyn: seq<Entry>, max: nat, fields: seq<HeaderField>,
      limits: seq<nat>, blocks: seq<seq<Sent>>, sent: nat, now: seq<Entry>, todo: seq<HeaderField>,
      isContinuation: bool, limit: nat, block: seq<Sent>)
    requires Sized(t) && Progress(t, st, rate, dyn, max, fields, limits, blocks, todo, isContinuation)
    requires sent == |Concat(blocks)| && now == TableAfter(dyn, max, Concat(blocks))
    requires Longest(t, st, rate, now, max, todo, SizeLimit(isContinuation, limit), block)
    ensures |block| <= |todo|
    ensures Progress(t, st, rate, dyn, max, fields, limits + [limit], blocks + [block], todo[|block|..],
      isContinuation || (block != [] && todo[|block|..] != []))
  {
    hide Longest, TableAfter, Concat, SizeLimit, SentAt, Fields;
    ConcatMore(blocks, block);
    LongestFits(t, st, rate, now, max, todo, SizeLimit(isContinuation, limit), block);
    if todo == [] {
      LongestOfNothing(t, st, rate, now, max, todo, SizeLimit(isContinuation, limit), SizeLimit(sent != 0, limit),
        block);
    }
    AllSent(t, st, rate, dyn, max, fields, limits, blocks, limit, block);
    RestOfRest(fields, sent, |block|);
  }

  lemma RestOfRest<T>(s: seq<T>, m: nat, n: nat)
    requires m + n <= |s|
    ensures s[m..][n..] == s[m + n..] && s[..m] + s[m..][..n] == s[..m + n]
  {
  }

  /** The table and the fields sent with one more block. */
  lemma SentMore(t: seq<Code>, st: seq<Entry>, rate: nat, dyn: seq<Entry>, dyn': seq<Entry>, max: nat,
      fields: seq<HeaderField>, blocks: seq<seq<Sent>>, limit: nat, block: seq<Sent>)
    requires Sized(t) && |Concat(blocks)| <= |fields| && dyn' == TableAfter(dyn, max, Concat(blocks))
    requires Longest(t, st, rate, dyn', max, fields[|Concat(blocks)|..], limit, block)
    ensures TableAfter(dyn, max, Concat(blocks + [block])) == TableAfter(dyn', max, block)
    ensures |Concat(blocks + [block])| <= |fields|
    ensures fields[..|Concat(blocks)|] + Fields(block) == fields[..|Concat(blocks + [block])|]
  {
    hide Longest, TableAfter, Concat;
    ConcatMore(blocks, block);
    TableAfterBoth(dyn, max, Concat(blocks), block);
    LongestFits(t, st, rate, dyn', max, fields[|Concat(blocks)|..], limit, block);
    RestOfRest(fields, |Concat(blocks)|, |block|);
  }

  lemma AllSent(t: seq<Code>, st: seq<Entry>, rate: nat, dyn: seq<Entry>, max: nat, fields: seq<HeaderField>,
      limits: seq<nat>, blocks: seq<seq<Sent>>, limit: nat, block: seq<Sent>)
    requires Sized(t) && |blocks| == |limits| && |Concat(blocks)| <= |fields|
    requires forall k :: 0 <= k < |blocks| ==> SentAt(t, st, rate, dyn, max, fields, limits, blocks, k)
    requires Longest(t, st, rate, TableAfter(dyn, max, Concat(blocks)), max, fields[|Concat(blocks)|..],
      SizeLimit(Concat(blocks) != [], limit), block)
    ensures forall k :: 0 <= k <= |blocks| ==>
      SentAt(t, st, rate, dyn, max, fields, limits + [limit], blocks + [block], k)
  {
    hide Longest, TableAfter, Concat, SizeLimit, SentAt;
    forall k | 0 <= k <= |blocks|
      ensures SentAt(t, st, rate, dyn, max, fields, limits + [limit], blocks + [block], k)
    {
      if k < |blocks| {
        SentStill(t, st, rate, dyn, max, fields, limits, blocks, limit, block, k);
      } else {
        SentLast(t, st, rate, dyn, max, fields, limits, blocks, limit, block);
      }
    }
  }

  lemma SentLast(t: seq<Code>, st: seq<Entry>, rate: nat, dyn: seq<Entry>, max: nat, fields: seq<HeaderField>,
      limits: seq<nat>, blocks: seq<seq<Sent>>, limit: nat, block: seq<Sent>)
    requires Sized(t) && |blocks| == |limits| && |Concat(blocks)| <= |fields|
    requires Longest(t, st, rate, TableAfter(dyn, max, Concat(blocks)), max, fields[|Concat(blocks)|..],
      SizeLimit(Concat(blocks) != [], limit), block)
    ensures SentAt(t, st, rate, dyn, max, fields, limits + [limit], blocks + [block], |blocks|)
  {
    hide Longest, TableAfter, Concat, SizeLimit;
    assert (blocks + [block])[..|blocks|] == blocks;
  }

  lemma SentStill(t: seq<Code>, st: seq<Entry>, rate: nat, dyn: seq<Entry>, max: nat, fields: seq<HeaderField>,
      limits: seq<nat>, blocks: seq<seq<Sent>>, limit: nat, block: seq<Sent>, k: nat)
    requires Sized(t) && k < |blocks| == |limits| && SentAt(t, st, rate, dyn, max, fields, limits, blocks, k)
    ensures SentAt(t, st, rate, dyn, max, fields, limits + [limit], blocks + [block], k)
  {
    hide Longest, TableAfter, Concat, SizeLimit;
    assert (blocks + [block])[..k] == blocks[..k];
  }

  lemma LongestFits(t: seq<Code>, st: seq<Entry>, rate: nat, dyn: seq<Entry>, max: nat, fields: seq<HeaderField>,
      limit: nat, block: seq<Sent>)
    requires Sized(t) && Longest(t, st, rate, dyn, max, fields, limit, block)
    ensures |block| <= |fields| && Fields(block) == fields[..|block|]
  {
  }

  lemma BlocksBytesMore(t: seq<Code>, blocks: seq<seq<Sent>>, block: seq<Sent>)
    requires Sized(t)
    ensures BlocksBytes(t, blocks + [block]) ==
      BlocksBytes(t, blocks) + if block == [] then [] else [BlockBytes(t, block)]
  {
    assert (blocks + [block])[..|blocks|] == blocks;
  }

  lemma DecodeMore(t: seq<Code>, st: seq<Entry>, d: State, payloads: seq<seq<Byte>>, payload: seq<Byte>,
      received: seq<HeaderField>, now: State, more: seq<HeaderField>, next: State)
    requires |t| == 257 && DecodePayloads(t, st, d, payloads) == Decoded(Ok(received), now)
    requires DecodeBlock(t, st, now, payload) == Decoded(Ok(more), next)
    ensures DecodePayloads(t, st, d, payloads + [payload]) == Decoded(Ok(received + more), next)
  {
    hide DecodeBlock;
    assert (payloads + [payload])[..|payloads|] == payloads;
  }

  /** The payloads are those of the blocks, and decoded in order they give what was sent; the tables are equal. */
  ghost predicate Arrived(t: seq<Code>, st: seq<Entry>, dyn: seq<Entry>,
      fields: seq<HeaderField>, blocks: seq<seq<Sent>>,
      now: seq<Entry>, d: State, payloads: seq<seq<Byte>>, received: seq<HeaderField>)
    requires Sized(t)
  {
    && |Concat(blocks)| <= |fields| && received == fields[..|Concat(blocks)|]
    && now == TableAfter(dyn, INIT_TABLE_SIZE, Concat(blocks))
    && payloads == BlocksBytes(t, blocks)
    && DecodePayloads(t, st, State(dyn, INIT_TABLE_SIZE), payloads) == Decoded(Ok(received), d)
  }

  lemma ArrivedGives(t: seq<Code>, st: seq<Entry>, dyn: seq<Entry>, fields: seq<HeaderField>, blocks: seq<seq<Sent>>,
      now: seq<Entry>, d: State, payloads: seq<seq<Byte>>, received: seq<HeaderField>)
    requires Sized(t) && Arrived(t, st, dyn, fields, blocks, now, d, payloads, received)
    ensures now == TableAfter(dyn, INIT_TABLE_SIZE, Concat(blocks)) && payloads == BlocksBytes(t, blocks)
    ensures |Concat(blocks)| <= |fields| && received == fields[..|Concat(blocks)|]
    ensures DecodePayloads(t, st, State(dyn, INIT_TABLE_SIZE), payloads) == Decoded(Ok(received), d)
  {
  }

  lemma ArrivedMore(t: seq<Code>, st: seq<Entry>, rate: nat, dyn: seq<Entry>,
      fields: seq<HeaderField>, blocks: seq<seq<Sent>>,
      now: seq<Entry>, d: State, payloads: seq<seq<Byte>>, received: seq<HeaderField>, limit: nat, block: seq<Sent>,
      now': seq<Entry>, d': State, payloads': seq<seq<Byte>>, more: seq<HeaderField>)
    requires Sized(t) && Arrived(t, st, dyn, fields, blocks, now, d, payloads, received)
    requires Longest(t, st, rate, now, INIT_TABLE_SIZE, fields[|Concat(blocks)|..], limit, block)
    requires now' == TableAfter(now, INIT_TABLE_SIZE, block) && more == Fields(block)
    requires block == [] ==> payloads' == payloads && d' == d
    requires block != [] ==> payloads' == payloads + [BlockBytes(t, block)]
    requires block != [] ==> DecodeBlock(t, st, d, BlockBytes(t, block)) == Decoded(Ok(more), d')
    ensures Arrived(t, st, dyn, fields, blocks + [block], now', d', payloads', received + more)
  {
    hide Longest, TableAfter, Concat, BlocksBytes, BlockBytes, DecodeBlock, DecodePayloads;
    SentMore(t, st, rate, dyn, now, INIT_TABLE_SIZE, fields, blocks, limit, block);
    BlocksBytesMore(t, blocks, block);
    if block == [] {
      assert received + more == received;
    } else {
      DecodeMore(t, st, State(dyn, INIT_TABLE_SIZE), payloads, BlockBytes(t, block), received, d, more, d');
    }
  }

  /**
   * A header list sent with any limits. With every limit as many fields go out as it admits, so that
   * fields are left only where the next one was refused. The frames carry exactly these blocks: one
   * HEADERS frame, then CONTINUATION frames only, with END_HEADERS on exactly the last one when nothing is
   * left. Their payloads, decoded in order, give the fields that were sent, which together with what is
   * left are the list.
   */
  method SendHeaders(enc: Encoder, dec: Decoder, fields: seq<HeaderField>, bodyEmpty: bool, limits: seq<nat>,
      around: seq<Byte>)
    returns (frames: seq<OutFrame>, received: seq<HeaderField>, left: seq<HeaderField>, ghost blocks: seq<seq<Sent>>)
    requires Paired(enc, dec) && AllFit(fields) && |around| == 8
    requires AllSuitable(enc.huffman, enc.table.st, INIT_TABLE_SIZE, fields)
    requires forall i :: 0 <= i < |limits| ==> limits[i] < TWO_64
    modifies enc.table.dyn, enc.table.dyn.base, dec.table.dyn
    ensures Paired(enc, dec) && |blocks| == |limits|
    ensures forall i :: 0 <= i < |limits| ==>
      SentAt(enc.huffman, enc.table.st, enc.minHuffmanRate, old(enc.Dyn()), INIT_TABLE_SIZE, fields, limits, blocks, i)
    ensures frames == FramesFor(enc.huffman, blocks, |fields|, bodyEmpty)
    ensures Payloads(frames) == BlocksBytes(enc.huffman, blocks)
    ensures WellOrdered(BlockFrames(frames), left == []) && EndsStream(frames, bodyEmpty, left == [])
    ensures DecodePayloads(enc.huffman, enc.table.st, old(dec.ToState()), Payloads(frames))
         == Decoded(Ok(received), dec.ToState())
    ensures |received| == |Concat(blocks)| && received + left == fields
    ensures Ample(fields, limits) && |limits| >= |fields| ==> left == []
  {
    ghost var t, st, rate, dyn := enc.huffman, enc.table.st, enc.minHuffmanRate, enc.Dyn();
    var s := new HeaderSender(fields, bodyEmpty);
    NoProgress(t, st, rate, dyn, INIT_TABLE_SIZE, fields, limits[..0], [], s.out);
    received, blocks := SendAll(s, enc, dec, fields, limits, around, t, st, rate, dyn);
    hide Progress, Arrived, Paired, WellOrdered, BlockFrames, SentAt, DecodePayloads, BlocksBytes, FramesFor;
    ProgressGives(t, st, rate, dyn, INIT_TABLE_SIZE, fields, limits, blocks, s.headerList, s.isContinuation);
    ArrivedGives(t, st, dyn, fields, blocks, enc.Dyn(), dec.ToState(), Payloads(s.out), received);
    frames, left := s.out, s.headerList;
    FramesEnd(t, blocks, |fields|, bodyEmpty);
    if Ample(fields, limits) && |limits| >= |fields| {
      Drains(t, st, rate, dyn, INIT_TABLE_SIZE, fields, limits, blocks, |blocks|);
      assert blocks[..|blocks|] == blocks;
    }
  }

  /** The two ends use these tables. */
  ghost predicate Using(enc: Encoder, dec: Decoder, t: seq<Code>, st: seq<Entry>, rate: nat)
    reads enc
  {
    enc.huffman == dec.huffman == t && enc.table.st == dec.table.st == st && enc.minHuffmanRate == rate && Sized(t)
  }

  /** All limits, one after the other. */
  method SendAll(s: HeaderSender, enc: Encoder, dec: Decoder,
      fields: seq<HeaderField>, limits: seq<nat>, around: seq<Byte>,
      ghost t: seq<Code>, ghost st: seq<Entry>, ghost rate: nat, ghost dyn: seq<Entry>)
    returns (received: seq<HeaderField>, ghost blocks: seq<seq<Sent>>)
    requires s.Valid() && Paired(enc, dec) && Using(enc, dec, t, st, rate) && |around| == 8
    requires forall i :: 0 <= i < |limits| ==> limits[i] < TWO_64
    requires AllSuitable(t, st, INIT_TABLE_SIZE, s.headerList) && WellOrdered(BlockFrames(s.out), s.headerList == [])
    requires Progress(t, st, rate, dyn, INIT_TABLE_SIZE, fields, limits[..0], [], s.headerList, s.isContinuation)
    requires Arrived(t, st, dyn, fields, [], enc.Dyn(), dec.ToState(), Payloads(s.out), []) && s.out == []
    modifies s, enc.table.dyn, enc.table.dyn.base, dec.table.dyn
    ensures Paired(enc, dec) && WellOrdered(BlockFrames(s.out), s.headerList == [])
    ensures Progress(t, st, rate, dyn, INIT_TABLE_SIZE, fields, limits, blocks, s.headerList, s.isContinuation)
    ensures Arrived(t, st, dyn, fields, blocks, enc.Dyn(), dec.ToState(), Payloads(s.out), received)
    ensures s.out == FramesFor(t, blocks, |fields|, s.bodyEmpty)
  {
    hide Paired, HeaderSender.Valid, AllSuitable, TableAfter, BlockBytes, BlockFrames, WellOrdered, DecodeBlock;
    hide Longest, SentAt, Progress, Arrived, BlocksBytes, DecodePayloads, Payloads, Concat, SizeLimit, Fields, Sized;
    hide FramesFor, NewFrames;
    received, blocks := [], [];
    NoFrames(t, blocks, |fields|, s.bodyEmpty);
    var i := 0;
    while i < |limits|
      invariant 0 <= i <= |limits| && s.Valid() && Paired(enc, dec)
      invariant AllSuitable(t, st, INIT_TABLE_SIZE, s.headerList) && WellOrdered(BlockFrames(s.out), s.headerList == [])
      invariant Progress(t, st, rate, dyn, INIT_TABLE_SIZE, fields, limits[..i], blocks, s.headerList, s.isContinuation)
      invariant Arrived(t, st, dyn, fields, blocks, enc.Dyn(), dec.ToState(), Payloads(s.out), received)
      invariant s.out == FramesFor(t, blocks, |fields|, s.bodyEmpty)
    {
      ghost var todo, cont, now, was, sent := s.headerList, s.isContinuation, enc.Dyn(), dec.ToState(), Payloads(s.out);
      var more, block := SendSome(s, enc, dec, limits[i], around);
      OneMore(t, st, rate, dyn, fields, limits, i, blocks, todo, cont, now, was, sent, received,
        block, enc.Dyn(), dec.ToState(), Payloads(s.out), more);
      FramesMore(t, blocks, |fields|, s.bodyEmpty, block);
      received, blocks := received + more, blocks + [block];
      i := i + 1;
    }
    assert limits[..i] == limits;
  }

  /** What one more limit does to the account. */
  lemma OneMore(t: seq<Code>, st: seq<Entry>, rate: nat, dyn: seq<Entry>,
      fields: seq<HeaderField>, limits: seq<nat>, i: nat,
      blocks: seq<seq<Sent>>, todo: seq<HeaderField>, isContinuation: bool, now: seq<Entry>, d: State,
      payloads: seq<seq<Byte>>, received: seq<HeaderField>, block: seq<Sent>,
      now': seq<Entry>, d': State, payloads': seq<seq<Byte>>, more: seq<HeaderField>)
    requires Sized(t) && i < |limits| && Arrived(t, st, dyn, fields, blocks, now, d, payloads, received)
    requires Progress(t, st, rate, dyn, INIT_TABLE_SIZE, fields, limits[..i], blocks, todo, isContinuation)
    requires Longest(t, st, rate, now, INIT_TABLE_SIZE, todo, SizeLimit(isContinuation, limits[i]), block)
    requires now' == TableAfter(now, INIT_TABLE_SIZE, block) && more == Fields(block)
    requires block == [] ==> payloads' == payloads && d' == d
    requires block != [] ==> payloads' == payloads + [BlockBytes(t, block)]
    requires block != [] ==> DecodeBlock(t, st, d, BlockBytes(t, block)) == Decoded(Ok(more), d')
    ensures |block| <= |todo|
    ensures Progress(t, st, rate, dyn, INIT_TABLE_SIZE, fields, limits[..i + 1], blocks + [block], todo[|block|..],
      isContinuation || (block != [] && todo[|block|..] != []))
    ensures Arrived(t, st, dyn, fields, blocks + [block], now', d', payloads', received + more)
    ensures block != [] ==> isContinuation == (|Concat(blocks)| > 0)
    ensures todo[|block|..] == [] <==> |Concat(blocks)| + |block| == |fields|
  {
    hide Longest, SentAt, Progress, Arrived, BlocksBytes, DecodePayloads;
    hide Concat, SizeLimit, Fields, TableAfter, DecodeBlock, BlockBytes;
    NextKind(t, st, rate, dyn, INIT_TABLE_SIZE, fields, limits[..i], blocks, todo, isContinuation);
    ProgressGives(t, st, rate, dyn, INIT_TABLE_SIZE, fields, limits[..i], blocks, todo, isContinuation);
    ArrivedGives(t, st, dyn, fields, blocks, now, d, payloads, received);
    ArrivedMore(t, st, rate, dyn, fields, blocks, now, d, payloads, received,
      SizeLimit(isContinuation, limits[i]), block, now', d', payloads', more);
    ProgressMore(t, st, rate, dyn, INIT_TABLE_SIZE, fields, limits[..i], blocks, |Concat(blocks)|, now,
      todo, isContinuation, limits[i], block);
    assert limits[..i + 1] == limits[..i] + [limits[i]];
  }

  lemma ProgressGives(t: seq<Code>, st: seq<Entry>, rate: nat, dyn: seq<Entry>, max: nat, fields: seq<HeaderField>,
      limits: seq<nat>, blocks: seq<seq<Sent>>, todo: seq<HeaderField>, isContinuation: bool)
    requires Sized(t) && Progress(t, st, rate, dyn, max, fields, limits, blocks, todo, isContinuation)
    ensures |blocks| == |limits| && |Concat(blocks)| <= |fields|
    ensures forall k :: 0 <= k < |blocks| ==> SentAt(t, st, rate, dyn, max, fields, limits, blocks, k)
    ensures todo == fields[|Concat(blocks)|..] && fields[..|Concat(blocks)|] + todo == fields
  {
    hide SentAt, Concat;
  }

  lemma NextKind(t: seq<Code>, st: seq<Entry>, rate: nat, dyn: seq<Entry>, max: nat, fields: seq<HeaderField>,
      limits: seq<nat>, blocks: seq<seq<Sent>>, todo: seq<HeaderField>, isContinuation: bool)
    requires Sized(t) && Progress(t, st, rate, dyn, max, fields, limits, blocks, todo, isContinuation)
    ensures todo != [] ==> isContinuation == (|Concat(blocks)| > 0)
    ensures |todo| == |fields| - |Concat(blocks)|
  {
    hide SentAt, Concat;
  }

  lemma NoFrames(t: seq<Code>, blocks: seq<seq<Sent>>, total: nat, bodyEmpty: bool)
    requires Sized(t) && blocks == []
    ensures FramesFor(t, blocks, total, bodyEmpty) == []
  {
  }

  lemma NoProgress(t: seq<Code>, st: seq<Entry>, rate: nat, dyn: seq<Entry>, max: nat, fields: seq<HeaderField>,
      limits: seq<nat>, blocks: seq<seq<Sent>>, out: seq<OutFrame>)
    requires Sized(t) && limits == [] && blocks == [] && out == []
    ensures Progress(t, st, rate, dyn, max, fields, limits, blocks, fields, false)
    ensures max == INIT_TABLE_SIZE ==> Arrived(t, st, dyn, fields, blocks, dyn, State(dyn, max), Payloads(out), [])
  {
  }

  lemma SuitableRest(t: seq<Code>, st: seq<Entry>, max: nat, fields: seq<HeaderField>, n: nat)
    requires Sized(t) && AllSuitable(t, st, max, fields) && n <= |fields|
    ensures AllSuitable(t, st, max, fields[n..])
  {
  }
}
