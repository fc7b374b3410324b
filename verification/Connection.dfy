/** An encoder object and a decoder object at the two ends of a connection. */
module Connections {
  import opened Words
  import opened Outcomes
  import opened Huffman
  import opened HuffmanTable
  import opened DynamicTables
  import opened StaticTable
  import opened Buffers
  import opened StreamBuffers
  import opened TableObjects
  import opened Wire
  import opened Blocks
  import opened Encoders
  import opened Decoders
  import opened Sessions

  /** Puts the bytes of the buffers together, as the transport does. */
  method Gather(buffers: seq<Buffer>) returns (bytes: seq<Byte>)
    requires Chained(buffers)
    ensures bytes == Joined(buffers)
  {
    bytes := [];
    var i := 0;
    assert buffers[..0] == [];
    while i < |buffers|
      invariant 0 <= i <= |buffers| && bytes == Joined(buffers[..i])
    {
      assert buffers[..i + 1][..i] == buffers[..i];
      bytes := bytes + buffers[i].memory[..buffers[i].offset];
      i := i + 1;
    }
    assert buffers[..i] == buffers;
  }

  /** The decoder takes a block of an encoder with an equal table: it returns the fields, and the tables stay equal. */
  method TakeBlock(dec: Decoder, bytes: seq<Byte>, around: seq<Byte>,
      ghost rate: nat, ghost dyn: seq<Entry>, ghost block: seq<Sent>)
    returns (received: seq<HeaderField>)
    requires dec.Valid() && ValidTable(dec.huffman) && |around| == 8 && dec.ToState() == State(dyn, INIT_TABLE_SIZE)
    requires Emitted(dec.huffman, dec.table.st, rate, dyn, INIT_TABLE_SIZE, block)
    requires Reachable(dec.table.st, dyn, INIT_TABLE_SIZE)
    requires AllSuitable(dec.huffman, dec.table.st, INIT_TABLE_SIZE, Fields(block))
    requires bytes == BlockBytes(dec.huffman, block)
    modifies dec.table.dyn
    ensures dec.Valid() && dec.ToState() == State(TableAfter(dyn, INIT_TABLE_SIZE, block), INIT_TABLE_SIZE)
    ensures received == Fields(block)
    ensures DecodeBlock(dec.huffman, dec.table.st, old(dec.ToState()), bytes) == Decoded(Ok(received), dec.ToState())
  {
    hide Emitted, PrefixFree, AllSuitable, AllKept, AllLegible;
    hide TableAfter, Reachable, DecodeBlock, BlockBytes, Numbered, Distinct;
    BlockSound(dec.huffman, dec.table.st, rate, dyn, INIT_TABLE_SIZE, block);
    BlockRoundTrip(dec.huffman, dec.table.st, rate, dyn, INIT_TABLE_SIZE, block);
    var r := dec.Decode(bytes, around);
    return r.value;
  }

  /** The two ends use the same tables, and their dynamic tables are equal. */
  ghost predicate Paired(enc: Encoder, dec: Decoder)
    reads enc, enc.table, enc.table.dyn, enc.table.dyn.base, dec, dec.table, dec.table.dyn
  {
    && enc.Valid() && dec.Valid() && ValidTable(enc.huffman)
    && dec.huffman == enc.huffman && dec.table.st == enc.table.st
    && dec.ToState() == State(enc.Dyn(), INIT_TABLE_SIZE) && enc.table.dyn.base != dec.table.dyn
  }

  /**
   * One call of the encoder, and its output to the decoder: the encoder sends as many fields as the limit
   * admits, the decoder returns exactly these, and both tables stay equal.
   */
  method Transfer(enc: Encoder, dec: Decoder, fields: seq<HeaderField>, sizeLimit: nat, around: seq<Byte>)
    returns (received: seq<HeaderField>, count: nat, ghost block: seq<Sent>)
    requires Paired(enc, dec) && AllFit(fields) && |around| == 8
    requires AllSuitable(enc.huffman, enc.table.st, INIT_TABLE_SIZE, fields)
    modifies enc.table.dyn, enc.table.dyn.base, dec.table.dyn
    ensures Paired(enc, dec) && enc.Dyn() == TableAfter(old(enc.Dyn()), INIT_TABLE_SIZE, block)
    ensures Longest(enc.huffman, enc.table.st, enc.minHuffmanRate, old(enc.Dyn()), INIT_TABLE_SIZE, fields, sizeLimit,
      block)
    ensures count == |block| && received == Fields(block)
  {
    hide Emitted, ValidTable, AllSuitable, TableAfter, Reachable, BlockBytes, Grouped;
    hide Chained, Separate, Joined, IndexedBy, Numbered, Distinct, AllFit, Refused, Charge, NewNames;
    ghost var dyn := enc.Dyn();
    var buffers, n;
    buffers, n, block := enc.Encode(fields, sizeLimit);
    var bytes := Gather(buffers);
    SuitablePrefix(enc.huffman, enc.table.st, INIT_TABLE_SIZE, fields, n);
    received := TakeBlock(dec, bytes, around, enc.minHuffmanRate, dyn, block);
    count := n;
  }

  /** The header list, the limit and the configuration of one call. */
  datatype Request = Request(fields: seq<HeaderField>, sizeLimit: nat, rate: nat)

  ghost predicate Acceptable(t: seq<Code>, st: seq<Entry>, r: Request)
    requires Sized(t)
  {
    AllFit(r.fields) && AllSuitable(t, st, INIT_TABLE_SIZE, r.fields)
  }

  /** Call `i` of the session sent as much of the request as its limit admits, and that is what was received. */
  ghost predicate Answered(t: seq<Code>, st: seq<Entry>, calls: seq<Call>, i: nat, r: Request,
      received: seq<HeaderField>, count: nat)
    requires Sized(t) && i < |calls|
  {
    && calls[i].rate == r.rate
    && Longest(t, st, r.rate, SessionTable([], INIT_TABLE_SIZE, calls[..i]), INIT_TABLE_SIZE, r.fields, r.sizeLimit,
      calls[i].block)
    && count == |calls[i].block| && received == Fields(calls[i].block) == r.fields[..count]
  }

  lemma SessionMore(t: seq<Code>, st: seq<Entry>, dyn: seq<Entry>, max: nat, calls: seq<Call>, c: Call)
    requires Sized(t) && SessionEmitted(t, st, dyn, max, calls)
    requires Emitted(t, st, c.rate, SessionTable(dyn, max, calls), max, c.block)
    ensures SessionEmitted(t, st, dyn, max, calls + [c])
    ensures SessionTable(dyn, max, calls + [c]) == TableAfter(SessionTable(dyn, max, calls), max, c.block)
  {
    hide Emitted, TableAfter;
    assert (calls + [c])[..|calls|] == calls;
  }

  lemma AnsweredStill(t: seq<Code>, st: seq<Entry>, calls: seq<Call>, c: Call, i: nat, r: Request,
      received: seq<HeaderField>, count: nat)
    requires Sized(t) && i < |calls| && Answered(t, st, calls, i, r, received, count)
    ensures Answered(t, st, calls + [c], i, r, received, count)
  {
    hide Longest;
    assert (calls + [c])[..i] == calls[..i];
  }

  /**
   * A whole connection: the calls are a session of the encoder, each of which sends as many fields as its
   * limit admits, and the decoder returns, block by block, exactly the fields that were sent.
   */
  method Connection(t: seq<Code>, st: seq<Entry>, requests: seq<Request>, around: seq<Byte>)
    returns (received: seq<seq<HeaderField>>, counts: seq<nat>, ghost calls: seq<Call>)
    requires ValidTable(t) && Grouped(st) && |st| <= 1000 && |around| == 8
    requires forall i :: 0 <= i < |requests| ==> Acceptable(t, st, requests[i])
    ensures |received| == |counts| == |requests|
    ensures forall i :: 0 <= i < |requests| ==> counts[i] <= |requests[i].fields|
    ensures forall i :: 0 <= i < |requests| ==> received[i] == requests[i].fields[..counts[i]]
    ensures |calls| == |requests|
    ensures SessionEmitted(t, st, [], INIT_TABLE_SIZE, calls)
    ensures forall i :: 0 <= i < |requests| ==> Answered(t, st, calls, i, requests[i], received[i], counts[i])
  {
    hide AllSuitable, Reachable, Grouped, PrefixFree, IndexedBy, Numbered, Distinct;
    hide AllFit, Answered, Longest, TableAfter, SessionTable, SessionEmitted;
    var enc := new Encoder(t, st);
    var dec := new Decoder(t, st);
    received, counts, calls := [], [], [];
    FirstCall(t, st, [], INIT_TABLE_SIZE, calls);
    for i := 0 to |requests|
      invariant Paired(enc, dec) && enc.huffman == t && enc.table.st == st && fresh(enc)
      invariant fresh(enc.table.dyn) && fresh(enc.table.dyn.base) && fresh(dec.table.dyn)
      invariant |received| == |counts| == |calls| == i
      invariant SessionEmitted(t, st, [], INIT_TABLE_SIZE, calls)
      invariant enc.Dyn() == SessionTable([], INIT_TABLE_SIZE, calls)
      invariant forall k :: 0 <= k < i ==> Answered(t, st, calls, k, requests[k], received[k], counts[k])
    {
      var r := requests[i];
      assert Acceptable(t, st, r);
      enc.SetConfig(r.rate);
      var fields, count, block := Transfer(enc, dec, r.fields, r.sizeLimit, around);
      ghost var c := Call(r.rate, block);
      NextAnswered(t, st, calls, c, r, fields, count);
      forall k | 0 <= k < i ensures Answered(t, st, calls + [c], k, requests[k], received[k], counts[k]) {
        AnsweredStill(t, st, calls, c, k, requests[k], received[k], counts[k]);
      }
      received, counts, calls := received + [fields], counts + [count], calls + [c];
    }
    forall i | 0 <= i < |requests|
      ensures counts[i] <= |requests[i].fields| && received[i] == requests[i].fields[..counts[i]]
    {
      AnsweredGives(t, st, calls, i, requests[i], received[i], counts[i]);
    }
  }

  lemma AnsweredGives(t: seq<Code>, st: seq<Entry>, calls: seq<Call>, i: nat, r: Request,
      received: seq<HeaderField>, count: nat)
    requires Sized(t) && i < |calls| && Answered(t, st, calls, i, r, received, count)
    ensures count <= |r.fields| && received == r.fields[..count]
  {
  }

  lemma FirstCall(t: seq<Code>, st: seq<Entry>, dyn: seq<Entry>, max: nat, calls: seq<Call>)
    requires Sized(t) && calls == []
    ensures SessionEmitted(t, st, dyn, max, calls) && SessionTable(dyn, max, calls) == dyn
  {
  }

  lemma NextAnswered(t: seq<Code>, st: seq<Entry>, calls: seq<Call>, c: Call, r: Request, received: seq<HeaderField>,
    count: nat)
    requires Sized(t) && SessionEmitted(t, st, [], INIT_TABLE_SIZE, calls) && c.rate == r.rate
    requires Longest(t, st, r.rate, SessionTable([], INIT_TABLE_SIZE, calls), INIT_TABLE_SIZE, r.fields, r.sizeLimit,
      c.block)
    requires count == |c.block| && received == Fields(c.block)
    ensures SessionEmitted(t, st, [], INIT_TABLE_SIZE, calls + [c])
    ensures SessionTable([], INIT_TABLE_SIZE, calls + [c])
         == TableAfter(SessionTable([], INIT_TABLE_SIZE, calls), INIT_TABLE_SIZE, c.block)
    ensures Answered(t, st, calls + [c], |calls|, r, received, count)
  {
    hide Emitted, TableAfter, Refused, Charge, SessionTable, SessionEmitted;
    SessionMore(t, st, [], INIT_TABLE_SIZE, calls, c);
    assert (calls + [c])[..|calls|] == calls;
  }

  // ---------------------------------------------------------------- with the tables of the program

  /** A connection of the program, with its own Huffman and static tables. */
  method ProgramConnection(requests: seq<Request>, around: seq<Byte>)
    returns (received: seq<seq<HeaderField>>, counts: seq<nat>, ghost calls: seq<Call>)
    requires |around| == 8 && forall i :: 0 <= i < |requests| ==> Acceptable(HUFFMAN_TABLE, STATIC_TABLE, requests[i])
    ensures |received| == |counts| == |requests|
    ensures forall i :: 0 <= i < |requests| ==> counts[i] <= |requests[i].fields|
    ensures forall i :: 0 <= i < |requests| ==> received[i] == requests[i].fields[..counts[i]]
    ensures |calls| == |requests|
    ensures SessionEmitted(HUFFMAN_TABLE, STATIC_TABLE, [], INIT_TABLE_SIZE, calls)
    ensures forall i :: 0 <= i < |requests| ==>
      Answered(HUFFMAN_TABLE, STATIC_TABLE, calls, i, requests[i], received[i], counts[i])
  {
    hide Answered, Acceptable, SessionEmitted;
    TableIsValid();
    StaticTableGrouped();
    received, counts, calls := Connection(HUFFMAN_TABLE, STATIC_TABLE, requests, around);
  }

  /**
   * For every session from the start of a connection, with the program's own tables: if every field that
   * was encoded is suitable then the decoder returns the very fields of every block and its table equals
   * the encoder's after it.
   */
  lemma ConnectionRoundTrip(calls: seq<Call>, k: nat)
    requires k < |calls|
    requires SessionEmitted(HUFFMAN_TABLE, STATIC_TABLE, [], INIT_TABLE_SIZE, calls)
    requires forall i :: 0 <= i < |calls| ==>
      AllSuitable(HUFFMAN_TABLE, STATIC_TABLE, INIT_TABLE_SIZE, Fields(calls[i].block))
    ensures var d := State([], DEFAULT_TABLE_SIZE);
      && Received(HUFFMAN_TABLE, STATIC_TABLE, d, calls, k) == Ok(Fields(calls[k].block))
      && DecoderSession(HUFFMAN_TABLE, STATIC_TABLE, d, calls[..k + 1])
        == State(SessionTable([], INIT_TABLE_SIZE, calls[..k + 1]), INIT_TABLE_SIZE)
  {
    TableIsValid();
    SuitableSession(HUFFMAN_TABLE, STATIC_TABLE, [], INIT_TABLE_SIZE, calls, k);
  }

  lemma SuitableSession(t: seq<Code>, st: seq<Entry>, dyn: seq<Entry>, max: nat, calls: seq<Call>, k: nat)
    requires ValidTable(t) && SessionEmitted(t, st, dyn, max, calls) && Reachable(st, dyn, max)
    requires max <= 0x1000000 && k < |calls|
    requires forall i :: 0 <= i < |calls| ==> AllSuitable(t, st, max, Fields(calls[i].block))
    ensures Received(t, st, State(dyn, max), calls, k) == Ok(Fields(calls[k].block))
    ensures DecoderSession(t, st, State(dyn, max), calls[..k + 1]) == State(SessionTable(dyn, max, calls[..k + 1]), max)
  {
    hide AllSuitable, Reachable, PrefixFree, Emitted, SessionEmitted;
    hide SessionTable, DecoderSession, Received, AllKept, AllLegible;
    forall i | 0 <= i < |calls|
      ensures AllKept(st, SessionTable(dyn, max, calls[..i]), max, calls[i].block) && AllLegible(t, calls[i].block)
    {
      SessionPrefix(t, st, dyn, max, calls, i);
      BlockSound(t, st, calls[i].rate, SessionTable(dyn, max, calls[..i]), max, calls[i].block);
    }
    SessionRoundTrip(t, st, dyn, max, calls, k);
  }
}
