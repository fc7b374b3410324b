/** The HPACK encoder. */
module Encoders {
  import opened Words
  import opened Outcomes
  import opened Huffman
  import opened HuffmanWriter
  import opened Integers
  import opened StringCodec
  import opened Buffers
  import opened StreamBuffers
  import opened EncoderStreams
  import opened DynamicTables
  import opened StaticTable
  import opened TableObjects
  import opened HpackTables
  import opened Wire
  import opened Blocks

  const INIT_TABLE_SIZE := 4096
  const MIN_HUFFMAN_RATE := 90

  /** Writes a field by its index, if it fits. */
  method EmitIndexed(out: EncoderStream, f: HeaderField, index: nat, bytesLeft: nat) returns (size: Option<nat>)
    requires out.Valid() && bytesLeft <= out.left && index <= MAX_HPACK_INT
    modifies out, out.stream.Repr
    ensures out.Valid() && fresh(out.stream.Repr - old(out.stream.Repr))
    ensures var need := FieldSize(out.huffman, Sent(f, Indexed(index)));
      size == if need <= bytesLeft then Some(need) else None
    ensures out.Contents() == old(out.Contents()) + if size.Some? then RepBytes(out.huffman, f, Indexed(index)) else []
    ensures bytesLeft <= out.left + if size.Some? then size.value else 0
  {
    var encodedIndex := Integers.Encode(OpValue(IndexCmd), OpBits(IndexCmd), index);
    var fieldSize := |encodedIndex.value|;
    if fieldSize > bytesLeft {
      return None;
    }
    var ok := out.PushBack(encodedIndex.value);
    return Some(fieldSize);
  }

  /** A string with the choice made for it and its encoded length. */
  datatype Measured = Measured(text: seq<Byte>, estimate: Estimate, encodedSize: seq<Byte>)

  /** What is written for a measured string. */
  ghost function MeasuredBytes(t: seq<Code>, m: Measured): seq<Byte>
    requires Sized(t)
  {
    m.encodedSize + if m.estimate.encoded then PackedBytes(t, m.text) else m.text
  }

  /** Chooses the representation of a string. */
  method Measure(t: seq<Code>, rate: nat, s: seq<Byte>) returns (m: Measured)
    requires Sized(t) && |s| <= MAX_HPACK_INT
    ensures m.text == s && m.estimate == EstimateString(t, rate, s)
    ensures MeasuredBytes(t, m) == StringBytes(t, m.estimate.encoded, s)
    ensures |StringBytes(t, m.estimate.encoded, s)| == |m.encodedSize| + m.estimate.size && 1 <= |m.encodedSize| <= 5
  {
    EstimateIsPayload(t, rate, s);
    var e := EstimateString(t, rate, s);
    var encodedSize := Integers.Encode(StringFlag(e.encoded), 1, e.size);
    m := Measured(s, e, encodedSize.value);
  }

  /** The size of a literal with an indexed name, as far as it stays within the bytes left. */
  method MeasureIndexedName(t: seq<Code>, rate: nat, f: HeaderField, index: nat, bytesLeft: nat)
    returns (size: Option<nat>, prefix: seq<Byte>, value: Measured, ghost s: Sent)
    requires Sized(t) && 0 < index <= MAX_HPACK_INT && FieldFits(f.name, f.value)
    ensures s == Sent(f, Literal(index, false, EstimateString(t, rate, f.value).encoded))
    ensures value.text == f.value && |prefix| <= 5 && |value.encodedSize| <= 5
    ensures RepBytes(t, f, s.rep) == prefix + MeasuredBytes(t, value)
    ensures size == if FieldSize(t, s) <= bytesLeft then Some(FieldSize(t, s)) else None
  {
    hide EstimateString, FieldFits, RepBytes, MeasuredBytes, StringBytes;
    var cmd := LiteralCommand(f.kind);
    FieldSizes(f.ToEntry());
    var nameIndex := Integers.Encode(OpValue(cmd), OpBits(cmd), index);
    prefix := nameIndex.value;
    value := Measure(t, rate, f.value);
    s := Sent(f, Literal(index, false, value.estimate.encoded));
    IndexedNameBytes(t, s);

    var fieldSize := |prefix|;
    if fieldSize > bytesLeft {
      size := None;
      return;
    }
    fieldSize := fieldSize + value.estimate.size;
    if fieldSize > bytesLeft {
      size := None;
      return;
    }
    fieldSize := fieldSize + |value.encodedSize|;
    if fieldSize > bytesLeft {
      size := None;
      return;
    }
    size := Some(fieldSize);
  }

  /** The same for a literal with a new name, whose command octet is not counted. */
  method MeasureNewName(t: seq<Code>, rate: nat, f: HeaderField, bytesLeft: nat)
    returns (size: Option<nat>, name: Measured, value: Measured, ghost s: Sent)
    requires Sized(t) && FieldFits(f.name, f.value)
    ensures s == Sent(f, Literal(0, EstimateString(t, rate, f.name).encoded, EstimateString(t, rate, f.value).encoded))
    ensures name.text == f.name && value.text == f.value && |name.encodedSize| <= 5 && |value.encodedSize| <= 5
    ensures RepBytes(t, f, s.rep) == [OpValue(LiteralCommand(f.kind))] + MeasuredBytes(t, name)
      + MeasuredBytes(t, value)
    ensures size == if FieldSize(t, s) <= bytesLeft then Some(FieldSize(t, s)) else None
    ensures size.Some? ==> size.value >= 2
  {
    hide EstimateString, FieldFits, RepBytes, MeasuredBytes, StringBytes;
    FieldSizes(f.ToEntry());
    name := Measure(t, rate, f.name);
    value := Measure(t, rate, f.value);
    s := Sent(f, Literal(0, name.estimate.encoded, value.estimate.encoded));
    NewNameBytes(t, s);

    var fieldSize := name.estimate.size;
    if fieldSize > bytesLeft {
      size := None;
      return;
    }
    fieldSize := fieldSize + |name.encodedSize|;
    if fieldSize > bytesLeft {
      size := None;
      return;
    }
    fieldSize := fieldSize + value.estimate.size;
    if fieldSize > bytesLeft {
      size := None;
      return;
    }
    fieldSize := fieldSize + |value.encodedSize|;
    if fieldSize > bytesLeft {
      size := None;
      return;
    }
    size := Some(fieldSize);
  }

  method Put(out: EncoderStream, m: Measured)
    requires out.Valid() && |m.encodedSize| <= 5 && |m.text| <= MAX_HPACK_INT
    modifies out.stream.Repr
    ensures out.Valid() && fresh(out.stream.Repr - old(out.stream.Repr)) && out.left == old(out.left)
    ensures out.Contents() == old(out.Contents()) + MeasuredBytes(out.huffman, m)
  {
    out.WriteString(m.estimate.encoded, m.encodedSize, m.text);
  }

  /** Writes a literal with an indexed name, if it fits. */
  method EmitIndexedName(out: EncoderStream, rate: nat, f: HeaderField, index: nat, bytesLeft: nat)
    returns (size: Option<nat>, ghost s: Sent)
    requires out.Valid() && bytesLeft <= out.left && 0 < index <= MAX_HPACK_INT && FieldFits(f.name, f.value)
    modifies out, out.stream.Repr
    ensures out.Valid() && fresh(out.stream.Repr - old(out.stream.Repr))
    ensures s == Sent(f, Literal(index, false, EstimateString(out.huffman, rate, f.value).encoded))
    ensures size == if FieldSize(out.huffman, s) <= bytesLeft then Some(FieldSize(out.huffman, s)) else None
    ensures out.Contents() == old(out.Contents()) + if size.Some? then RepBytes(out.huffman, f, s.rep) else []
    ensures bytesLeft <= out.left + if size.Some? then size.value else 0
  {
    hide FieldFits, RepBytes, EstimateString, MeasuredBytes, Separate, Chained, Joined;
    var prefix, value;
    size, prefix, value, s := MeasureIndexedName(out.huffman, rate, f, index, bytesLeft);
    if size.Some? {
      FieldSizes(f.ToEntry());
      ConcatAssoc(out.Contents(), prefix, MeasuredBytes(out.huffman, value));
      var ok := out.PushBack(prefix);
      Put(out, value);
    }
  }

  /** Writes a literal with a new name, if it fits. */
  method EmitNewName(out: EncoderStream, rate: nat, f: HeaderField, bytesLeft: nat)
    returns (size: Option<nat>, ghost s: Sent)
    requires out.Valid() && bytesLeft <= out.left && FieldFits(f.name, f.value)
    modifies out, out.stream.Repr
    ensures out.Valid() && fresh(out.stream.Repr - old(out.stream.Repr))
    ensures s == Sent(f, Literal(0, EstimateString(out.huffman, rate, f.name).encoded,
      EstimateString(out.huffman, rate, f.value).encoded))
    ensures size == if FieldSize(out.huffman, s) <= bytesLeft then Some(FieldSize(out.huffman, s)) else None
    ensures out.Contents() == old(out.Contents()) + if size.Some? then RepBytes(out.huffman, f, s.rep) else []
    ensures bytesLeft <= out.left + if size.Some? then size.value else 0
  {
    hide FieldFits, RepBytes, EstimateString, MeasuredBytes, Separate, Chained, Joined;
    var name, value;
    size, name, value, s := MeasureNewName(out.huffman, rate, f, bytesLeft);
    if size.Some? {
      FieldSizes(f.ToEntry());
      var v := OpValue(LiteralCommand(f.kind));
      FourParts(out.Contents(), [v], MeasuredBytes(out.huffman, name), MeasuredBytes(out.huffman, value));
      var ok := out.PushBack([v]);
      Put(out, name);
      Put(out, value);
    }
  }

  lemma IndexedNameBytes(t: seq<Code>, s: Sent)
    requires Sized(t) && s.rep.Literal? && s.rep.nameIndex > 0
    ensures var cmd := LiteralCommand(s.field.kind);
      RepBytes(t, s.field, s.rep) == IntBytes(OpValue(cmd), OpBits(cmd), s.rep.nameIndex)
        + StringBytes(t, s.rep.valueEncoded, s.field.value)
  {
  }

  lemma NewNameBytes(t: seq<Code>, s: Sent)
    requires Sized(t) && s.NewName()
    ensures RepBytes(t, s.field, s.rep)
         == [OpValue(LiteralCommand(s.field.kind))] + StringBytes(t, s.rep.nameEncoded, s.field.name)
           + StringBytes(t, s.rep.valueEncoded, s.field.value)
  {
  }

  lemma FourParts<T>(a: seq<T>, b: seq<T>, c: seq<T>, d: seq<T>)
    ensures a + b + c + d == a + (b + c + d)
  {
  }

  /** A name that is found anywhere is static when all dynamic names are. */
  lemma FoundNames(st: seq<Entry>, dyn: seq<Entry>, name: seq<Byte>, i: int)
    requires forall k :: 0 <= k < |dyn| ==> HasName(st, dyn[k].name)
    ensures 0 < i <= |dyn| && dyn[i - 1].name == name ==> HasName(st, name)
    ensures i > 0 && TableAt(st, dyn, i).Ok? && TableAt(st, dyn, i).value.name == name ==> HasName(st, name)
  {
  }

  lemma IsChosen(t: seq<Code>, st: seq<Entry>, rate: nat, dyn: seq<Entry>, f: HeaderField, index: int, hasValue: bool,
      s: Sent)
    requires Sized(t) && s.field == f && FieldFits(f.name, f.value)
    requires index == -1 <==> !HasName(st, f.name)
    requires index != -1 ==>
      0 < index && Refers(st, dyn, f, if hasValue then Indexed(index) else Literal(index, false, false))
    requires index == -1 ==> !hasValue
    requires f.ToEntry() in st && f.kind == Default ==> hasValue
    requires s.rep == if hasValue then Indexed(index)
      else if index != -1 then Literal(index, false, EstimateString(t, rate, f.value).encoded)
      else Literal(0, EstimateString(t, rate, f.name).encoded, EstimateString(t, rate, f.value).encoded)
    ensures Chosen(t, st, rate, dyn, s)
  {
    hide EstimateString, FieldFits;
  }

  lemma OneSent(dyn: seq<Entry>, max: nat, s: Sent)
    ensures TableAfter(dyn, max, [s]) == if s.Inserted() then EncoderInsert(dyn, s.field.ToEntry(), max) else dyn
  {
    assert [s][..0] == [];
  }

  predicate AllFit(fields: seq<HeaderField>) {
    forall i :: 0 <= i < |fields| ==> FieldFits(fields[i].name, fields[i].value)
  }

  ghost predicate Unfit(t: seq<Code>, st: seq<Entry>, rate: nat, dyn: seq<Entry>, f: HeaderField, bytesLeft: int,
      s: Sent)
    requires Sized(t)
  {
    s.field == f && Chosen(t, st, rate, dyn, s) && FieldSize(t, s) > bytesLeft
  }

  /** The representation chosen for the field is larger than the bytes left. */
  ghost predicate Refused(t: seq<Code>, st: seq<Entry>, rate: nat, dyn: seq<Entry>, f: HeaderField, bytesLeft: int)
    requires Sized(t)
  {
    exists s :: Unfit(t, st, rate, dyn, f, bytesLeft, s)
  }

  /**
   * The block is what a call of the encoder sends: a prefix of the fields whose charge is within the
   * limit, and the next field, if there is one, exceeds what is left of it.
   */
  ghost predicate Longest(t: seq<Code>, st: seq<Entry>, rate: nat, dyn: seq<Entry>, max: nat,
      fields: seq<HeaderField>, sizeLimit: nat, block: seq<Sent>)
    requires Sized(t)
  {
    && Emitted(t, st, rate, dyn, max, block)
    && |block| <= |fields| && Fields(block) == fields[..|block|]
    && Charge(t, block) <= sizeLimit
    && (|block| < |fields| ==>
          Refused(t, st, rate, TableAfter(dyn, max, block), fields[|block|], sizeLimit - Charge(t, block)))
  }

  lemma RefusedBy(t: seq<Code>, st: seq<Entry>, rate: nat, dyn: seq<Entry>, f: HeaderField, bytesLeft: int, s: Sent)
    requires Sized(t) && s.field == f && Chosen(t, st, rate, dyn, s) && FieldSize(t, s) > bytesLeft
    ensures Refused(t, st, rate, dyn, f, bytesLeft)
  {
    assert Unfit(t, st, rate, dyn, f, bytesLeft, s);
  }

  lemma NothingSent(t: seq<Code>, st: seq<Entry>, rate: nat, dyn: seq<Entry>, max: nat, block: seq<Sent>)
    requires Sized(t) && block == []
    ensures Emitted(t, st, rate, dyn, max, block) && TableAfter(dyn, max, block) == dyn
    ensures BlockBytes(t, block) == [] && Charge(t, block) == 0
  {
  }

  /** The most that a field can be charged for. */
  function Needs(f: HeaderField): nat {
    |f.name| + |f.value| + 10
  }

  lemma ChargeAtMost(t: seq<Code>, st: seq<Entry>, rate: nat, dyn: seq<Entry>, s: Sent)
    requires Sized(t) && Chosen(t, st, rate, dyn, s)
    ensures FieldSize(t, s) <= Needs(s.field)
  {
    FieldSizes(s.field.ToEntry());
    EstimateIsPayload(t, rate, s.field.name);
    EstimateIsPayload(t, rate, s.field.value);
    hide EstimateString;
    match s.rep
    case Indexed(i) => IntBytesLength(OpValue(IndexCmd), OpBits(IndexCmd), i);
    case Literal(i, nameEncoded, valueEncoded) =>
      StringAtMost(t, valueEncoded, s.field.value);
      if i == 0 {
        StringAtMost(t, nameEncoded, s.field.name);
      } else {
        var cmd := LiteralCommand(s.field.kind);
        IntBytesLength(OpValue(cmd), OpBits(cmd), i);
      }
  }

  lemma StringAtMost(t: seq<Code>, encoded: bool, s: seq<Byte>)
    requires Sized(t) && |Payload(t, encoded, s)| <= |s| <= MAX_HPACK_INT
    ensures |StringBytes(t, encoded, s)| <= 5 + |s|
  {
    IntBytesLength(StringFlag(encoded), 1, |Payload(t, encoded, s)|);
  }

  /** A first field for which there is room is sent. */
  lemma FirstIsSent(t: seq<Code>, st: seq<Entry>, rate: nat, dyn: seq<Entry>, max: nat, fields: seq<HeaderField>,
      sizeLimit: nat, block: seq<Sent>)
    requires Sized(t) && Longest(t, st, rate, dyn, max, fields, sizeLimit, block)
    requires fields != [] && Needs(fields[0]) <= sizeLimit
    ensures block != []
  {
    hide Chosen, FieldSize;
    if block == [] {
      NothingSent(t, st, rate, dyn, max, block);
      var s :| Unfit(t, st, rate, dyn, fields[0], sizeLimit, s);
      ChargeAtMost(t, st, rate, dyn, s);
    }
  }

  function NeedsAll(fields: seq<HeaderField>): nat {
    if fields == [] then 0 else NeedsAll(fields[..|fields| - 1]) + Needs(fields[|fields| - 1])
  }

  lemma {:induction false} ChargeWithin(t: seq<Code>, st: seq<Entry>, rate: nat, dyn: seq<Entry>, max: nat,
      block: seq<Sent>)
    requires Sized(t) && Emitted(t, st, rate, dyn, max, block)
    ensures Charge(t, block) <= NeedsAll(Fields(block))
  {
    hide Chosen, FieldSize, Needs;
    if block != [] {
      var n := |block| - 1;
      ChargeWithin(t, st, rate, dyn, max, block[..n]);
      ChargeAtMost(t, st, rate, TableAfter(dyn, max, block[..n]), block[n]);
      assert Fields(block)[..n] == Fields(block[..n]);
    }
  }

  lemma {:induction false} NeedsPrefix(fields: seq<HeaderField>, k: nat)
    requires k < |fields|
    ensures NeedsAll(fields[..k]) + Needs(fields[k]) <= NeedsAll(fields)
  {
    var n := |fields| - 1;
    if k < n {
      NeedsPrefix(fields[..n], k);
      assert fields[..n][..k] == fields[..k];
    }
  }

  /** A list for which there is room is sent as a whole. */
  lemma {:induction false} AllAreSent(t: seq<Code>, st: seq<Entry>, rate: nat, dyn: seq<Entry>, max: nat,
      fields: seq<HeaderField>, sizeLimit: nat, block: seq<Sent>)
    requires Sized(t) && Longest(t, st, rate, dyn, max, fields, sizeLimit, block) && NeedsAll(fields) <= sizeLimit
    ensures Fields(block) == fields
  {
    hide Chosen, FieldSize, Needs, Charge, NeedsAll;
    ChargeWithin(t, st, rate, dyn, max, block);
    var n := |block|;
    if n < |fields| {
      NeedsPrefix(fields, n);
      var s :| Unfit(t, st, rate, TableAfter(dyn, max, block), fields[n], sizeLimit - Charge(t, block), s);
      ChargeAtMost(t, st, rate, TableAfter(dyn, max, block), s);
    }
    assert fields[..n] == fields;
  }

  /** One more field. */
  lemma ExtendBlock(t: seq<Code>, st: seq<Entry>, rate: nat, dyn: seq<Entry>, max: nat, block: seq<Sent>, s: Sent)
    requires Sized(t) && Emitted(t, st, rate, dyn, max, block)
    requires Chosen(t, st, rate, TableAfter(dyn, max, block), s)
    ensures Emitted(t, st, rate, dyn, max, block + [s])
    ensures TableAfter(dyn, max, block + [s]) == TableAfter(TableAfter(dyn, max, block), max, [s])
    ensures BlockBytes(t, block + [s]) == BlockBytes(t, block) + RepBytes(t, s.field, s.rep)
    ensures Charge(t, block + [s]) == Charge(t, block) + FieldSize(t, s)
    ensures Fields(block + [s]) == Fields(block) + [s.field]
  {
    hide RepBytes, Chosen;
    assert (block + [s])[..|block|] == block;
    OneSent(TableAfter(dyn, max, block), max, s);
  }

  class Encoder {
    const huffman: seq<Code>
    const table: EncoderTable
    var minHuffmanRate: nat

    ghost predicate Valid()
      reads this, table, table.dyn, table.dyn.base
    {
      && Writable(huffman)
      && Grouped(table.st) && |table.st| <= 1000
      && table.Valid()
      && Max() == INIT_TABLE_SIZE
      && Reachable(table.st, Dyn(), INIT_TABLE_SIZE)
    }

    ghost function Dyn(): seq<Entry>
      reads this, table, table.dyn, table.dyn.base
    {
      table.ToState().dyn
    }

    ghost function Max(): nat
      reads this, table, table.dyn, table.dyn.base
    {
      table.ToState().max
    }

    constructor (huffman: seq<Code>, st: seq<Entry>)
      requires Writable(huffman) && Grouped(st) && |st| <= 1000
      ensures Valid() && this.huffman == huffman && table.st == st && Dyn() == []
      ensures fresh(table) && fresh(table.dyn) && fresh(table.dyn.base)
    {
      this.huffman := huffman;
      table := new EncoderTable(st, INIT_TABLE_SIZE);
      minHuffmanRate := MIN_HUFFMAN_RATE;
    }

    /** A new configuration affects the choice for strings; the table keeps its size. */
    method SetConfig(rate: nat)
      requires Valid()
      modifies this
      ensures Valid() && minHuffmanRate == rate && Dyn() == old(Dyn())
    {
      minHuffmanRate := rate;
    }

    /** Any index resolves to the field's own name, and to the field when it is flagged. */
    method Lookup(f: HeaderField) returns (index: int, hasValue: bool)
      requires Valid()
      ensures index == -1 <==> !HasName(table.st, f.name)
      ensures index != -1 ==> 0 < index <= MAX_HPACK_INT
      ensures index != -1 ==>
        Refers(table.st, Dyn(), f, if hasValue then Indexed(index) else Literal(index, false, false))
      ensures index == -1 ==> !hasValue
      ensures f.kind == Default ==>
        (f.ToEntry() in table.st || (table.dyn.Indexes(f.ToEntry()) && table.dyn.Consistent(f.ToEntry())) ==> hasValue)
    {
      ReachableTotal(table.st, Dyn(), INIT_TABLE_SIZE);
      index, hasValue := table.FieldIndex(f.name, f.value);
      FoundNames(table.st, Dyn(), f.name, index);
      if f.kind != Default {
        hasValue := false;
      }
    }

    /** One round of the loop: what is sent for the field, and its charge, unless it does not fit. */
    method EncodeField(out: EncoderStream, f: HeaderField, bytesLeft: nat) returns (size: Option<nat>, ghost s: Sent)
      requires Valid() && out.Valid() && out.huffman == huffman && bytesLeft <= out.left && FieldFits(f.name, f.value)
      requires out.stream.Repr !! {this, table.dyn, table.dyn.base}
      modifies table.dyn, table.dyn.base, out, out.stream.Repr
      ensures Valid() && out.Valid() && fresh(out.stream.Repr - old(out.stream.Repr))
      ensures s.field == f && Chosen(huffman, table.st, minHuffmanRate, old(Dyn()), s)
      ensures size == if FieldSize(huffman, s) <= bytesLeft then Some(FieldSize(huffman, s)) else None
      ensures out.Contents() == old(out.Contents()) + if size.Some? then RepBytes(huffman, f, s.rep) else []
      ensures Dyn() == if size.Some? then TableAfter(old(Dyn()), INIT_TABLE_SIZE, [s]) else old(Dyn())
      ensures bytesLeft <= out.left + if size.Some? then size.value else 0
      ensures out.stream.Repr !! {this, table.dyn, table.dyn.base}
      ensures f.kind == Default && old(table.dyn.Indexes(f.ToEntry()) && table.dyn.Consistent(f.ToEntry())) ==>
        s.rep.Indexed?
      ensures size.Some? && s.Inserted() ==> table.dyn.Indexes(f.ToEntry())
    {
      hide FieldFits, RepBytes, EstimateString, Separate, Chained;
      hide Joined, Grouped, Reachable, IndexedBy, Numbered, Distinct;
      hide Refers, Chosen, HasName, FieldSize, TableAfter, EncoderInsert, Total;
      var index, hasValue := Lookup(f);
      ghost var dyn := Dyn();
      if index != -1 && hasValue {
        s := Sent(f, Indexed(index));
        size := EmitIndexed(out, f, index, bytesLeft);
      } else if index != -1 {
        size, s := EmitIndexedName(out, minHuffmanRate, f, index, bytesLeft);
        if size.Some? && f.kind == Default {
          InsertReachable(table.st, dyn, INIT_TABLE_SIZE, f.ToEntry());
          table.Insert(f.name, f.value);
        }
      } else {
        size, s := EmitNewName(out, minHuffmanRate, f, bytesLeft);
      }
      IsChosen(huffman, table.st, minHuffmanRate, dyn, f, index, hasValue, s);
      OneSent(dyn, INIT_TABLE_SIZE, s);
    }

    /**
     * Encodes the longest prefix of the fields that the limit admits, and nothing of the field after it:
     * the charge is within the limit, and that of the next field would exceed it.
     */
    method Encode(fields: seq<HeaderField>, sizeLimit: nat)
      returns (buffers: seq<Buffer>, encodedFields: nat, ghost block: seq<Sent>)
      requires Valid() && AllFit(fields)
      modifies table.dyn, table.dyn.base
      ensures Valid() && encodedFields == |block|
      ensures Longest(huffman, table.st, minHuffmanRate, old(Dyn()), INIT_TABLE_SIZE, fields, sizeLimit, block)
      ensures Dyn() == TableAfter(old(Dyn()), INIT_TABLE_SIZE, block)
      ensures Chained(buffers) && Separate(buffers) && forall b :: b in buffers ==> fresh(b) && fresh(b.memory)
      ensures Joined(buffers) == BlockBytes(huffman, block) && |Joined(buffers)| <= sizeLimit + NewNames(block)
    {
      hide FieldFits, RepBytes, Chosen, Separate, Chained, Joined, Grouped, Reachable, IndexedBy, Numbered, Distinct;
      hide Emitted, TableAfter, BlockBytes, Charge;
      hide FieldSize, Refused, StreamBuf.Valid, IndexedDynamicTable.Valid, DynamicTable.Valid;
      hide IndexedDynamicTable.Indexes, IndexedDynamicTable.Consistent;
      var out := new EncoderStream(huffman, sizeLimit);
      var bytesLeft: nat := sizeLimit;
      encodedFields := 0;
      block := [];
      ghost var dyn0 := Dyn();
      NothingSent(huffman, table.st, minHuffmanRate, dyn0, INIT_TABLE_SIZE, block);
      while encodedFields < |fields|
        invariant Valid() && out.Valid() && out.huffman == huffman && bytesLeft <= out.left
        invariant fresh(out) && fresh(out.stream) && fresh(out.stream.Repr)
        invariant out.stream.Repr !! {this, table.dyn, table.dyn.base}
        invariant encodedFields == |block| <= |fields| && Fields(block) == fields[..encodedFields]
        invariant Emitted(huffman, table.st, minHuffmanRate, dyn0, INIT_TABLE_SIZE, block)
        invariant Dyn() == TableAfter(dyn0, INIT_TABLE_SIZE, block)
        invariant out.Contents() == BlockBytes(huffman, block)
        invariant Charge(huffman, block) + bytesLeft == sizeLimit
      {
        var f := fields[encodedFields];
        var size, s := EncodeField(out, f, bytesLeft);
        if size.None? {
          RefusedBy(huffman, table.st, minHuffmanRate, Dyn(), f, bytesLeft, s);
          break;
        }
        ExtendBlock(huffman, table.st, minHuffmanRate, dyn0, INIT_TABLE_SIZE, block, s);
        assert fields[..encodedFields + 1] == fields[..encodedFields] + [f];
        block := block + [s];
        bytesLeft := bytesLeft - size.value;
        encodedFields := encodedFields + 1;
      }
      BlockLength(huffman, block);
      buffers := out.Flush();
    }
  }
}
