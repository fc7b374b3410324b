/** A whole connection: one encoder and one decoder over any number of header blocks. */
module Sessions {
  import opened Words
  import opened Outcomes
  import opened Huffman
  import opened HuffmanReader
  import opened DynamicTables
  import opened StaticTable
  import opened Wire
  import opened Blocks

  /** One call of the encoder: the rate configured at the time and what was sent. */
  datatype Call = Call(rate: nat, block: seq<Sent>)

  /** The encoder's table after the calls. */
  function SessionTable(dyn: seq<Entry>, max: nat, calls: seq<Call>): seq<Entry> {
    if calls == [] then dyn
    else TableAfter(SessionTable(dyn, max, calls[..|calls| - 1]), max, calls[|calls| - 1].block)
  }

  ghost predicate SessionEmitted(t: seq<Code>, st: seq<Entry>, dyn: seq<Entry>, max: nat, calls: seq<Call>)
    requires Sized(t)
  {
    calls == [] || (
      var n := |calls| - 1;
      && SessionEmitted(t, st, dyn, max, calls[..n])
      && Emitted(t, st, calls[n].rate, SessionTable(dyn, max, calls[..n]), max, calls[n].block))
  }

  /** The decoder's state after it took the outputs of the calls in order. */
  ghost function DecoderSession(t: seq<Code>, st: seq<Entry>, d: State, calls: seq<Call>): State
    requires Sized(t)
  {
    if calls == [] then d
    else
      var n := |calls| - 1;
      DecodeBlock(t, st, DecoderSession(t, st, d, calls[..n]), BlockBytes(t, calls[n].block)).state
  }

  /** What the decoder returns for the output of call `k`. */
  ghost function Received(t: seq<Code>, st: seq<Entry>, d: State, calls: seq<Call>, k: nat): Outcome<seq<HeaderField>>
    requires Sized(t) && k < |calls|
  {
    DecodeBlock(t, st, DecoderSession(t, st, d, calls[..k]), BlockBytes(t, calls[k].block)).fields
  }

  // ---------------------------------------------------------------- exactly when a session round trips

  /** The decoder returns the fields, and the tables are equal after every field of the block. */
  ghost predicate Faithful(t: seq<Code>, st: seq<Entry>, dyn: seq<Entry>, max: nat, block: seq<Sent>)
    requires Sized(t)
  {
    && EqualWithin(dyn, max, block)
    && DecodeBlock(t, st, State(dyn, max), BlockBytes(t, block))
    == Decoded(Ok(Fields(block)), State(TableAfter(dyn, max, block), max))
  }

  lemma FaithfulIff(t: seq<Code>, st: seq<Entry>, rate: nat, dyn: seq<Entry>, max: nat, block: seq<Sent>)
    requires ValidTable(t) && Emitted(t, st, rate, dyn, max, block) && Reachable(st, dyn, max) && max <= 0x1000000
    ensures Faithful(t, st, dyn, max, block) <==> AllKept(st, dyn, max, block) && AllLegible(t, block)
  {
    TablesAgreeIff(t, st, rate, dyn, max, block);
    if AllKept(st, dyn, max, block) { BlockRoundTrip(t, st, rate, dyn, max, block); }
  }

  /**
   * Over the whole session the one decoder, which takes the outputs in order, returns the fields of every
   * call, holds the encoder's table before and after it, and would hold it after every single field.
   */
  ghost predicate SessionFaithful(t: seq<Code>, st: seq<Entry>, dyn: seq<Entry>, max: nat, calls: seq<Call>)
    requires Sized(t)
  {
    && (forall k :: 0 <= k <= |calls| ==> InStep(t, st, dyn, max, calls, k))
    && (forall k :: 0 <= k < |calls| ==> Received(t, st, State(dyn, max), calls, k) == Ok(Fields(calls[k].block)))
    && (forall k :: 0 <= k < |calls| ==> EqualWithin(SessionTable(dyn, max, calls[..k]), max, calls[k].block))
  }

  /** After the first `k` calls the session's decoder holds the encoder's table. */
  ghost predicate InStep(t: seq<Code>, st: seq<Entry>, dyn: seq<Entry>, max: nat, calls: seq<Call>, k: nat)
    requires Sized(t) && k <= |calls|
  {
    DecoderSession(t, st, State(dyn, max), calls[..k]) == State(SessionTable(dyn, max, calls[..k]), max)
  }

  /** The tables are equal after every field of the block. */
  ghost predicate EqualWithin(dyn: seq<Entry>, max: nat, block: seq<Sent>) {
    forall j :: 0 <= j <= |block| ==> EqualAfter(dyn, max, block[..j])
  }

  ghost predicate SessionSound(t: seq<Code>, st: seq<Entry>, dyn: seq<Entry>, max: nat, calls: seq<Call>)
    requires Sized(t)
  {
    forall k :: 0 <= k < |calls| ==>
      AllKept(st, SessionTable(dyn, max, calls[..k]), max, calls[k].block) && AllLegible(t, calls[k].block)
  }

  lemma {:induction false} SessionReachable(t: seq<Code>, st: seq<Entry>, dyn: seq<Entry>, max: nat, calls: seq<Call>)
    requires Sized(t) && SessionEmitted(t, st, dyn, max, calls) && Reachable(st, dyn, max) && max <= 0x1000000
    ensures Reachable(st, SessionTable(dyn, max, calls), max)
  {
    if calls != [] {
      var n := |calls| - 1;
      SessionReachable(t, st, dyn, max, calls[..n]);
      AlwaysReachable(t, st, calls[n].rate, SessionTable(dyn, max, calls[..n]), max, calls[n].block);
    }
  }

  lemma {:induction false} SessionPrefix(t: seq<Code>, st: seq<Entry>, dyn: seq<Entry>, max: nat, calls: seq<Call>,
      k: nat)
    requires Sized(t) && SessionEmitted(t, st, dyn, max, calls) && k < |calls|
    ensures SessionEmitted(t, st, dyn, max, calls[..k])
    ensures Emitted(t, st, calls[k].rate, SessionTable(dyn, max, calls[..k]), max, calls[k].block)
  {
    var n := |calls| - 1;
    if k < n {
      SessionPrefix(t, st, dyn, max, calls[..n], k);
      assert calls[..n][..k] == calls[..k];
    }
  }

  lemma SessionStep(t: seq<Code>, st: seq<Entry>, dyn: seq<Entry>, max: nat, calls: seq<Call>, k: nat)
    requires ValidTable(t) && SessionEmitted(t, st, dyn, max, calls) && Reachable(st, dyn, max) && max <= 0x1000000
    requires SessionSound(t, st, dyn, max, calls) && k < |calls|
    ensures DecodeBlock(t, st, State(SessionTable(dyn, max, calls[..k]), max), BlockBytes(t, calls[k].block))
         == Decoded(Ok(Fields(calls[k].block)),
           State(TableAfter(SessionTable(dyn, max, calls[..k]), max, calls[k].block), max))
  {
    hide Emitted, Reachable, SessionEmitted, SessionTable, PrefixFree, AllKept, AllLegible;
    SessionPrefix(t, st, dyn, max, calls, k);
    SessionReachable(t, st, dyn, max, calls[..k]);
    BlockRoundTrip(t, st, calls[k].rate, SessionTable(dyn, max, calls[..k]), max, calls[k].block);
  }

  lemma {:induction false} SessionState(t: seq<Code>, st: seq<Entry>, dyn: seq<Entry>, max: nat, calls: seq<Call>,
      k: nat)
    requires ValidTable(t) && SessionEmitted(t, st, dyn, max, calls) && Reachable(st, dyn, max) && max <= 0x1000000
    requires SessionSound(t, st, dyn, max, calls) && k <= |calls|
    ensures DecoderSession(t, st, State(dyn, max), calls[..k]) == State(SessionTable(dyn, max, calls[..k]), max)
  {
    hide Reachable, SessionEmitted, SessionSound, PrefixFree, DecodeBlock, BlockBytes, TableAfter;
    if k > 0 {
      assert calls[..k][..k - 1] == calls[..k - 1];
      SessionState(t, st, dyn, max, calls, k - 1);
      SessionStep(t, st, dyn, max, calls, k - 1);
    }
  }

  /**
   * The outputs of a sound session, decoded in order, give the encoded fields, and both tables hold the
   * same list after every block.
   */
  lemma SessionRoundTrip(t: seq<Code>, st: seq<Entry>, dyn: seq<Entry>, max: nat, calls: seq<Call>, k: nat)
    requires ValidTable(t) && SessionEmitted(t, st, dyn, max, calls) && Reachable(st, dyn, max) && max <= 0x1000000
    requires SessionSound(t, st, dyn, max, calls) && k < |calls|
    ensures Received(t, st, State(dyn, max), calls, k) == Ok(Fields(calls[k].block))
    ensures DecoderSession(t, st, State(dyn, max), calls[..k + 1]) == State(SessionTable(dyn, max, calls[..k + 1]), max)
  {
    hide Reachable, SessionEmitted, SessionSound, SessionTable;
    hide DecoderSession, PrefixFree, DecodeBlock, BlockBytes, TableAfter;
    SessionState(t, st, dyn, max, calls, k);
    SessionState(t, st, dyn, max, calls, k + 1);
    SessionStep(t, st, dyn, max, calls, k);
  }

  /** A block that is decoded with equal tables throughout has only kept fields and legible strings. */
  lemma DecodedSound(t: seq<Code>, st: seq<Entry>, rate: nat, dyn: seq<Entry>, max: nat, block: seq<Sent>)
    requires ValidTable(t) && Emitted(t, st, rate, dyn, max, block) && Reachable(st, dyn, max) && max <= 0x1000000
    requires EqualWithin(dyn, max, block) && DecodeBlock(t, st, State(dyn, max), BlockBytes(t, block)).fields.Ok?
    ensures AllKept(st, dyn, max, block) && AllLegible(t, block)
  {
    TablesAgreeIff(t, st, rate, dyn, max, block);
    BlockRoundTrip(t, st, rate, dyn, max, block);
  }

  /** A session is faithful if and only if every field is kept and every string can be read back. */
  lemma SessionFaithfulIff(t: seq<Code>, st: seq<Entry>, dyn: seq<Entry>, max: nat, calls: seq<Call>)
    requires ValidTable(t) && SessionEmitted(t, st, dyn, max, calls) && Reachable(st, dyn, max) && max <= 0x1000000
    ensures SessionFaithful(t, st, dyn, max, calls) <==> SessionSound(t, st, dyn, max, calls)
  {
    hide AllKept, AllLegible, Emitted, Reachable, SessionEmitted, SessionTable, DecoderSession, PrefixFree;
    hide DecodeBlock, EqualWithin;
    if SessionSound(t, st, dyn, max, calls) {
      forall k | 0 <= k <= |calls| ensures InStep(t, st, dyn, max, calls, k) {
        SessionState(t, st, dyn, max, calls, k);
      }
      forall k | 0 <= k < |calls|
        ensures Received(t, st, State(dyn, max), calls, k) == Ok(Fields(calls[k].block))
        ensures EqualWithin(SessionTable(dyn, max, calls[..k]), max, calls[k].block)
      {
        SessionRoundTrip(t, st, dyn, max, calls, k);
        SessionPrefix(t, st, dyn, max, calls, k);
        SessionReachable(t, st, dyn, max, calls[..k]);
        FaithfulIff(t, st, calls[k].rate, SessionTable(dyn, max, calls[..k]), max, calls[k].block);
      }
    }
    if SessionFaithful(t, st, dyn, max, calls) {
      forall k | 0 <= k < |calls|
        ensures AllKept(st, SessionTable(dyn, max, calls[..k]), max, calls[k].block) && AllLegible(t, calls[k].block)
      {
        assert InStep(t, st, dyn, max, calls, k);
        SessionPrefix(t, st, dyn, max, calls, k);
        SessionReachable(t, st, dyn, max, calls[..k]);
        DecodedSound(t, st, calls[k].rate, SessionTable(dyn, max, calls[..k]), max, calls[k].block);
      }
    }
  }

  // ---------------------------------------------------------------- what a caller can see beforehand

  ghost predicate ShortCodes(t: seq<Code>, s: seq<Byte>)
    requires Sized(t)
  {
    forall b :: b in s ==> t[b].len <= 24
  }

  /**
   * A field that survives in every state: one to be indexed has a static name and an entry no larger than
   * the table unless the pair itself is static, and no octet has a code longer than 24 bits.
   */
  ghost predicate Suitable(t: seq<Code>, st: seq<Entry>, max: nat, f: HeaderField)
    requires Sized(t)
  {
    && (f.kind == Default ==> HasName(st, f.name))
    && (f.kind == Default && f.ToEntry() !in st ==> HpackSize(f.ToEntry()) <= max)
    && ShortCodes(t, f.name) && ShortCodes(t, f.value)
  }

  ghost predicate AllSuitable(t: seq<Code>, st: seq<Entry>, max: nat, fields: seq<HeaderField>)
    requires Sized(t)
  {
    forall i :: 0 <= i < |fields| ==> Suitable(t, st, max, fields[i])
  }

  lemma SuitableSound(t: seq<Code>, st: seq<Entry>, rate: nat, dyn: seq<Entry>, max: nat, s: Sent)
    requires Sized(t) && Chosen(t, st, rate, dyn, s) && Suitable(t, st, max, s.field)
    ensures Kept(st, dyn, max, s) && RepLegible(t, s.field, s.rep)
  {
    ShortCodesReadable(t, s.field.name, 0);
    ShortCodesReadable(t, s.field.value, 0);
  }

  lemma {:induction false} EmittedAt(t: seq<Code>, st: seq<Entry>, rate: nat, dyn: seq<Entry>, max: nat,
      block: seq<Sent>, k: nat)
    requires Sized(t) && Emitted(t, st, rate, dyn, max, block) && k < |block|
    ensures Chosen(t, st, rate, TableAfter(dyn, max, block[..k]), block[k])
  {
    var n := |block| - 1;
    if k < n {
      EmittedAt(t, st, rate, dyn, max, block[..n], k);
      assert block[..n][..k] == block[..k];
    }
  }

  lemma BlockSound(t: seq<Code>, st: seq<Entry>, rate: nat, dyn: seq<Entry>, max: nat, block: seq<Sent>)
    requires Sized(t) && Emitted(t, st, rate, dyn, max, block) && AllSuitable(t, st, max, Fields(block))
    ensures AllKept(st, dyn, max, block) && AllLegible(t, block)
  {
    hide Emitted, Chosen, Suitable, Kept, RepLegible, TableAfter;
    forall k | 0 <= k < |block|
      ensures Kept(st, TableAfter(dyn, max, block[..k]), max, block[k]) && RepLegible(t, block[k].field, block[k].rep)
    {
      EmittedAt(t, st, rate, dyn, max, block, k);
      assert Fields(block)[k] == block[k].field;
      SuitableSound(t, st, rate, TableAfter(dyn, max, block[..k]), max, block[k]);
    }
  }

  lemma SuitablePrefix(t: seq<Code>, st: seq<Entry>, max: nat, fields: seq<HeaderField>, n: nat)
    requires Sized(t) && AllSuitable(t, st, max, fields) && n <= |fields|
    ensures AllSuitable(t, st, max, fields[..n])
  {
  }
}
