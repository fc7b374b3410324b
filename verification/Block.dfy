/** Header blocks: what the encoder may send for a list of fields, and what the decoder makes of it. */
module Blocks {
  import opened Words
  import opened Huffman
  import opened Integers
  import opened StringCodec
  import opened DynamicTables
  import opened StaticTable
  import opened Wire
  import opened Outcomes

  /** A field and the representation in which it went out. */
  datatype Sent = Sent(field: HeaderField, rep: Rep) {
    /** A literal whose name is in no table. */
    predicate NewName() {
      rep.Literal? && rep.nameIndex == 0
    }

    /** The encoder's own insertion: none for new names. */
    predicate Inserted() {
      rep.Literal? && rep.nameIndex > 0 && field.kind == Default
    }
  }

  function Fields(block: seq<Sent>): (fs: seq<HeaderField>)
    ensures |fs| == |block|
    ensures forall i :: 0 <= i < |block| ==> fs[i] == block[i].field
  {
    seq(|block|, i requires 0 <= i < |block| => block[i].field)
  }

  /** The bytes of a block. */
  ghost function BlockBytes(t: seq<Code>, block: seq<Sent>): seq<Byte>
    requires Sized(t)
  {
    if block == [] then []
    else
      var n := |block| - 1;
      BlockBytes(t, block[..n]) + RepBytes(t, block[n].field, block[n].rep)
  }

  /** The bytes a field is charged for: the command octet of a new name is not counted. */
  ghost function FieldSize(t: seq<Code>, s: Sent): nat
    requires Sized(t)
  {
    |RepBytes(t, s.field, s.rep)| - (if s.NewName() then 1 else 0)
  }

  /** The charge of a block. */
  ghost function Charge(t: seq<Code>, block: seq<Sent>): nat
    requires Sized(t)
  {
    if block == [] then 0 else Charge(t, block[..|block| - 1]) + FieldSize(t, block[|block| - 1])
  }

  function NewNames(block: seq<Sent>): nat {
    if block == [] then 0 else NewNames(block[..|block| - 1]) + if block[|block| - 1].NewName() then 1 else 0
  }

  /** A block is as long as its charge and one octet for every new name. */
  lemma {:induction false} BlockLength(t: seq<Code>, block: seq<Sent>)
    requires Sized(t)
    ensures |BlockBytes(t, block)| == Charge(t, block) + NewNames(block)
  {
    hide RepBytes;
    if block != [] { BlockLength(t, block[..|block| - 1]); }
  }

  /** The encoder's table after it sent the block. */
  function TableAfter(dyn: seq<Entry>, max: nat, block: seq<Sent>): seq<Entry> {
    if block == [] then dyn
    else
      var n := |block| - 1;
      var before := TableAfter(dyn, max, block[..n]);
      if block[n].Inserted() then EncoderInsert(before, block[n].field.ToEntry(), max) else before
  }

  /** The decoder's state after it took the block. */
  function StateAfter(d: State, block: seq<Sent>): State {
    if block == [] then d
    else
      var n := |block| - 1;
      DecoderAfter(StateAfter(d, block[..n]), block[n].field, block[n].rep)
  }

  /** The encoder's choice for a field: by index when the pair was found, else by name, else in full. */
  ghost predicate Chosen(t: seq<Code>, st: seq<Entry>, rate: nat, dyn: seq<Entry>, s: Sent)
    requires Sized(t)
  {
    && FieldFits(s.field.name, s.field.value)
    && Refers(st, dyn, s.field, s.rep)
    && (s.field.ToEntry() in st && s.field.kind == Default ==> s.rep.Indexed?)
    && (s.rep.Literal? ==>
          && (s.rep.nameIndex > 0 <==> HasName(st, s.field.name))
          && (s.rep.nameEncoded <==> s.rep.nameIndex == 0 && EstimateString(t, rate, s.field.name).encoded)
          && (s.rep.valueEncoded <==> EstimateString(t, rate, s.field.value).encoded))
  }

  /** Every field was sent by such a choice, in the state the fields before it left. */
  ghost predicate Emitted(t: seq<Code>, st: seq<Entry>, rate: nat, dyn: seq<Entry>, max: nat, block: seq<Sent>)
    requires Sized(t)
  {
    block == [] || (
      var n := |block| - 1;
      && Emitted(t, st, rate, dyn, max, block[..n])
      && Chosen(t, st, rate, TableAfter(dyn, max, block[..n]), block[n]))
  }

  /** In every reachable state of the encoder: only static names, and the size is kept except by one big entry. */
  ghost predicate Reachable(st: seq<Entry>, dyn: seq<Entry>, max: nat) {
    && (forall i :: 0 <= i < |dyn| ==> HasName(st, dyn[i].name))
    && (forall i :: 0 <= i < |dyn| ==> FieldFits(dyn[i].name, dyn[i].value))
    && (Total(dyn) <= max || |dyn| == 1)
  }

  lemma FieldSizes(e: Entry)
    requires FieldFits(e.name, e.value)
    ensures |e.name| + |e.value| < MAX_HPACK_INT && HpackSize(e) < 0x1000000
  {
  }

  lemma ReachableTotal(st: seq<Entry>, dyn: seq<Entry>, max: nat)
    requires Reachable(st, dyn, max) && max <= 0x1000000
    ensures Total(dyn) <= 0x1000000 && 32 * |dyn| <= Total(dyn)
  {
    TotalAtLeast(dyn);
    if |dyn| == 1 {
      assert dyn == [dyn[0]];
      OneEntry(dyn[0]);
      FieldSizes(dyn[0]);
    }
  }

  lemma InsertReachable(st: seq<Entry>, dyn: seq<Entry>, max: nat, e: Entry)
    requires Reachable(st, dyn, max) && max <= 0x1000000
    requires HasName(st, e.name) && FieldFits(e.name, e.value)
    ensures Reachable(st, EncoderInsert(dyn, e, max), max)
  {
    ReachableTotal(st, dyn, max);
    if HpackSize(e) <= max {
      InsertKeepsNewest(dyn, e, max);
    } else {
      ShrunkFits(dyn, 0);
      TotalAtLeast(Shrunk(dyn, 0));
    }
  }

  /** Whatever is encoded, the names of the dynamic table stay among the static names. */
  lemma {:induction false} AlwaysReachable(t: seq<Code>, st: seq<Entry>, rate: nat, dyn: seq<Entry>, max: nat,
      block: seq<Sent>)
    requires Sized(t) && Emitted(t, st, rate, dyn, max, block)
    requires Reachable(st, dyn, max) && max <= 0x1000000
    ensures Reachable(st, TableAfter(dyn, max, block), max)
  {
    if block != [] {
      var n := |block| - 1;
      AlwaysReachable(t, st, rate, dyn, max, block[..n]);
      if block[n].Inserted() {
        InsertReachable(st, TableAfter(dyn, max, block[..n]), max, block[n].field.ToEntry());
      }
    }
  }

  /** Chosen strings have lengths that can be written. */
  lemma ChosenSendable(t: seq<Code>, st: seq<Entry>, rate: nat, dyn: seq<Entry>, s: Sent)
    requires Sized(t) && Chosen(t, st, rate, dyn, s)
    ensures RepSendable(t, s.field, s.rep)
  {
    FieldSizes(s.field.ToEntry());
    EstimateIsPayload(t, rate, s.field.name);
    EstimateIsPayload(t, rate, s.field.value);
  }

  // ---------------------------------------------------------------- agreement of the tables

  /**
   * What a field must satisfy to leave both tables equal: one to be indexed has a static name and is no
   * larger than the table, unless the table is empty.
   */
  predicate Kept(st: seq<Entry>, dyn: seq<Entry>, max: nat, s: Sent) {
    s.rep.Literal? && s.field.kind == Default ==>
      HasName(st, s.field.name) && (HpackSize(s.field.ToEntry()) <= max || dyn == [])
  }

  lemma StepAgreesIff(t: seq<Code>, st: seq<Entry>, rate: nat, dyn: seq<Entry>, max: nat, s: Sent)
    requires Sized(t) && Reachable(st, dyn, max) && max <= 0x1000000 && Chosen(t, st, rate, dyn, s)
    ensures var after := if s.Inserted() then EncoderInsert(dyn, s.field.ToEntry(), max) else dyn;
      DecoderAfter(State(dyn, max), s.field, s.rep) == State(after, max) <==> Kept(st, dyn, max, s)
  {
    var e := s.field.ToEntry();
    if s.rep.Literal? && s.field.kind == Default {
      FieldSizes(e);
      ReachableTotal(st, dyn, max);
      if s.rep.nameIndex > 0 {
        InsertsAgreeIff(dyn, e, max);
      } else {
        assert DecoderInsert(dyn, e, max)[0] == e;
        assert dyn != [] ==> HasName(st, dyn[0].name);
      }
    }
  }

  /** Every field of the block leaves the tables equal. */
  ghost predicate AllKept(st: seq<Entry>, dyn: seq<Entry>, max: nat, block: seq<Sent>) {
    forall k :: 0 <= k < |block| ==> Kept(st, TableAfter(dyn, max, block[..k]), max, block[k])
  }

  ghost predicate EqualAfter(dyn: seq<Entry>, max: nat, block: seq<Sent>) {
    StateAfter(State(dyn, max), block) == State(TableAfter(dyn, max, block), max)
  }

  /** Both tables are the same list after every field if and only if every field is kept. */
  lemma {:induction false} TablesAgreeIff(t: seq<Code>, st: seq<Entry>, rate: nat, dyn: seq<Entry>, max: nat,
      block: seq<Sent>)
    requires Sized(t) && Emitted(t, st, rate, dyn, max, block)
    requires Reachable(st, dyn, max) && max <= 0x1000000
    ensures (forall k :: 0 <= k <= |block| ==> EqualAfter(dyn, max, block[..k])) <==> AllKept(st, dyn, max, block)
  {
    hide Reachable, Chosen, Kept;
    assert block[..|block|] == block;
    if block == [] {
      assert EqualAfter(dyn, max, block);
    } else {
      hide EqualAfter, TableAfter;
      var n := |block| - 1;
      var before := block[..n];
      TablesAgreeIff(t, st, rate, dyn, max, before);
      assert forall k :: 0 <= k <= n ==> block[..k] == before[..k];
      if EqualAfter(dyn, max, before) { LastAgreesIff(t, st, rate, dyn, max, block); }
    }
  }

  lemma LastAgreesIff(t: seq<Code>, st: seq<Entry>, rate: nat, dyn: seq<Entry>, max: nat, block: seq<Sent>)
    requires Sized(t) && block != [] && Emitted(t, st, rate, dyn, max, block)
    requires Reachable(st, dyn, max) && max <= 0x1000000 && EqualAfter(dyn, max, block[..|block| - 1])
    ensures var n := |block| - 1;
      EqualAfter(dyn, max, block) <==> Kept(st, TableAfter(dyn, max, block[..n]), max, block[n])
  {
    hide Reachable, Chosen, Kept;
    var n := |block| - 1;
    AlwaysReachable(t, st, rate, dyn, max, block[..n]);
    StepAgreesIff(t, st, rate, TableAfter(dyn, max, block[..n]), max, block[n]);
  }

  // ---------------------------------------------------------------- round trip

  ghost predicate AllLegible(t: seq<Code>, block: seq<Sent>)
    requires Sized(t)
  {
    forall k :: 0 <= k < |block| ==> RepLegible(t, block[k].field, block[k].rep)
  }

  /** The block ends; what follows is decoded in the state it leaves. */
  lemma {:induction false} BlockThen(t: seq<Code>, st: seq<Entry>, rate: nat, dyn: seq<Entry>, max: nat,
      block: seq<Sent>, rest: seq<Byte>)
    requires ValidTable(t) && Emitted(t, st, rate, dyn, max, block)
    requires forall k :: 0 <= k < |block| ==> EqualAfter(dyn, max, block[..k])
    ensures var d := DecodeBlock(t, st, State(dyn, max), BlockBytes(t, block) + rest);
      if AllLegible(t, block)
      then d == Continued(Fields(block), DecodeBlock(t, st, StateAfter(State(dyn, max), block), rest))
      else d.fields == Undefined
  {
    hide RepBytes, DecodeBlock, Chosen, StateAfter, EqualAfter, RepLegible;
    if block == [] {
      EmptyBlock(t, st, State(dyn, max), block, rest);
    } else {
      var n := |block| - 1;
      var before := block[..n];
      var bytes := RepBytes(t, block[n].field, block[n].rep);
      ConcatAssoc(BlockBytes(t, before), bytes, rest);
      assert forall k :: 0 <= k < n ==> block[..k] == before[..k];
      BlockThen(t, st, rate, dyn, max, before, bytes + rest);
      LastField(t, st, rate, dyn, max, block, rest);
    }
  }

  lemma EmptyBlock(t: seq<Code>, st: seq<Entry>, d: State, block: seq<Sent>, rest: seq<Byte>)
    requires Sized(t) && block == []
    ensures DecodeBlock(t, st, d, BlockBytes(t, block) + rest)
         == Continued(Fields(block), DecodeBlock(t, st, StateAfter(d, block), rest))
  {
    hide DecodeBlock;
    assert BlockBytes(t, block) + rest == rest;
    ContinuedNothing(DecodeBlock(t, st, d, rest));
  }

  lemma ContinuedTwice(a: seq<HeaderField>, f: HeaderField, later: Decoded)
    ensures Continued(a, Continued([f], later)) == Continued(a + [f], later)
  {
    if later.fields.Ok? { ConcatAssoc(a, [f], later.fields.value); }
  }

  lemma LastField(t: seq<Code>, st: seq<Entry>, rate: nat, dyn: seq<Entry>, max: nat, block: seq<Sent>, rest: seq<Byte>)
    requires ValidTable(t) && block != [] && Emitted(t, st, rate, dyn, max, block)
    requires EqualAfter(dyn, max, block[..|block| - 1])
    ensures var last := block[|block| - 1];
      var before := block[..|block| - 1];
      var now := DecodeBlock(t, st, StateAfter(State(dyn, max), before), RepBytes(t, last.field, last.rep) + rest);
      if RepLegible(t, last.field, last.rep)
      then Continued(Fields(before), now)
        == Continued(Fields(block), DecodeBlock(t, st, StateAfter(State(dyn, max), block), rest))
      else now.fields == Undefined
  {
    hide RepBytes, DecodeOne, RepLegible, RepSendable;
    var n := |block| - 1;
    var last := block[n];
    var d := StateAfter(State(dyn, max), block[..n]);
    ChosenSendable(t, st, rate, d.dyn, last);
    FieldRoundTrip(t, st, d, last.field, last.rep, rest);
    assert Fields(block) == Fields(block[..n]) + [last.field];
    ContinuedTwice(Fields(block[..n]), last.field, DecodeBlock(t, st, StateAfter(State(dyn, max), block), rest));
  }

  /**
   * A block is decoded to the very fields it was made of, with both tables equal afterwards, if and only
   * if its strings can be read back; otherwise the outcome is undefined.
   */
  lemma BlockRoundTrip(t: seq<Code>, st: seq<Entry>, rate: nat, dyn: seq<Entry>, max: nat, block: seq<Sent>)
    requires ValidTable(t) && Emitted(t, st, rate, dyn, max, block)
    requires Reachable(st, dyn, max) && max <= 0x1000000 && AllKept(st, dyn, max, block)
    ensures var d := DecodeBlock(t, st, State(dyn, max), BlockBytes(t, block));
      if AllLegible(t, block) then d == Decoded(Ok(Fields(block)), State(TableAfter(dyn, max, block), max))
      else d.fields == Undefined
  {
    TablesAgreeIff(t, st, rate, dyn, max, block);
    BlockThen(t, st, rate, dyn, max, block, []);
    assert BlockBytes(t, block) + [] == BlockBytes(t, block);
    assert block[..|block|] == block;
    assert Fields(block) + [] == Fields(block);
  }
}
