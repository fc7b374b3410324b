/** Table operations on the wire: what a peer's encoder can make the decoder do to its dynamic table. */
module TableWire {
  import opened Words
  import opened Huffman
  import opened Integers
  import opened DynamicTables
  import opened TableRuns
  import opened Wire
  import opened Outcomes

  /** A table operation as a command: a literal to be indexed, whose strings are not coded, or a size update. */
  ghost function OpBytes(t: seq<Code>, op: Op): (bytes: seq<Byte>)
    requires Sized(t)
    ensures bytes != []
  {
    match op
    case Insert(e) => RepBytes(t, HeaderField(e.name, e.value, Default), Literal(0, false, false))
    case Resize(size) => IntBytes(0x20, 3, size)
  }

  ghost function RunBytes(t: seq<Code>, ops: seq<Op>): seq<Byte>
    requires Sized(t)
  {
    if ops == [] then [] else RunBytes(t, ops[..|ops| - 1]) + OpBytes(t, ops[|ops| - 1])
  }

  /** The fields that come out: those of the literals. */
  function OpFields(op: Op): seq<HeaderField> {
    if op.Insert? then [HeaderField(op.e.name, op.e.value, Default)] else []
  }

  function RunFields(ops: seq<Op>): seq<HeaderField> {
    if ops == [] then [] else RunFields(ops[..|ops| - 1]) + OpFields(ops[|ops| - 1])
  }

  /** What the codes for sizes and strings can carry. */
  predicate Codable(op: Op) {
    match op
    case Insert(e) => FieldFits(e.name, e.value)
    case Resize(size) => size <= MAX_HPACK_INT
  }

  function ToTable(d: State): Table {
    Table(d.dyn, d.max)
  }

  function ToState(t: Table): State {
    State(t.entries, t.max)
  }

  /** A size update evicts, sets the maximum and yields no field. */
  lemma SizeUpdate(t: seq<Code>, st: seq<Entry>, d: State, n: nat, rest: seq<Byte>)
    requires Sized(t) && n <= MAX_HPACK_INT
    ensures Opcode(0x20, 3)
    ensures DecodeOne(t, st, d, IntBytes(0x20, 3, n) + rest) == Ok(Step([], rest, State(Shrunk(d.dyn, n), n)))
  {
    PrefixMasks();
    var bytes := IntBytes(0x20, 3, n);
    IntegerRoundTrip(0x20, 3, n, rest);
    CommandRoundTrip(ChangeSizeCmd, n);
    assert (bytes + rest)[0] == bytes[0];
    assert (bytes + rest)[|bytes|..] == rest;
  }

  /** One command does to the decoder's table what the operation says. */
  lemma OpOnWire(t: seq<Code>, st: seq<Entry>, d: State, op: Op, rest: seq<Byte>)
    requires ValidTable(t) && Codable(op)
    ensures DecodeOne(t, st, d, OpBytes(t, op) + rest) ==
      Ok(Step(OpFields(op), rest, ToState(DecoderStep(ToTable(d), op))))
  {
    match op
    case Resize(size) => SizeUpdate(t, st, d, size, rest);
    case Insert(e) =>
      hide DecodeOne, RepBytes;
      FieldRoundTrip(t, st, d, HeaderField(e.name, e.value, Default), Literal(0, false, false), rest);
  }

  /**
   * Whatever insertions and size updates a peer sends, and whatever follows them, the decoder returns the
   * inserted fields and its table is the one that the operations leave.
   */
  lemma {:induction false} RunOnWire(t: seq<Code>, st: seq<Entry>, d: State, ops: seq<Op>, rest: seq<Byte>)
    requires ValidTable(t) && forall i :: 0 <= i < |ops| ==> Codable(ops[i])
    ensures DecodeBlock(t, st, d, RunBytes(t, ops) + rest) ==
      Continued(RunFields(ops), DecodeBlock(t, st, ToState(DecoderRun(ToTable(d), ops)), rest))
  {
    hide PrefixFree, Codable, DecodeBlock, DecoderStep, OpBytes, OpFields;
    if ops == [] {
      assert RunBytes(t, ops) + rest == rest;
      ContinuedNothing(DecodeBlock(t, st, d, rest));
    } else {
      var n := |ops| - 1;
      var op := ops[n];
      ConcatAssoc(RunBytes(t, ops[..n]), OpBytes(t, op), rest);
      RunOnWire(t, st, d, ops[..n], OpBytes(t, op) + rest);
      LastOp(t, st, ToState(DecoderRun(ToTable(d), ops[..n])), op, RunFields(ops[..n]), rest);
    }
  }

  lemma LastOp(t: seq<Code>, st: seq<Entry>, d: State, op: Op, before: seq<HeaderField>, rest: seq<Byte>)
    requires ValidTable(t) && Codable(op)
    ensures Continued(before, DecodeBlock(t, st, d, OpBytes(t, op) + rest)) ==
      Continued(before + OpFields(op), DecodeBlock(t, st, ToState(DecoderStep(ToTable(d), op)), rest))
  {
    OpOnWire(t, st, d, op, rest);
    hide DecodeOne, OpBytes, DecoderStep, OpFields;
    var later := DecodeBlock(t, st, ToState(DecoderStep(ToTable(d), op)), rest);
    assert DecodeBlock(t, st, d, OpBytes(t, op) + rest) == Continued(OpFields(op), later);
    if later.fields.Ok? { ConcatAssoc(before, OpFields(op), later.fields.value); }
  }
}
