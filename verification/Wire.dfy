/** Header field representations (section 6 of RFC 7541): bytes, and what the decoder makes of them. */
module Wire {
  import opened Words
  import opened Huffman
  import opened Integers
  import opened StringCodec
  import opened DynamicTables
  import opened Outcomes

  datatype IndexType = Default | WithoutIndex | NeverIndex

  datatype HeaderField = HeaderField(name: seq<Byte>, value: seq<Byte>, kind: IndexType) {
    function ToEntry(): Entry {
      Entry(name, value)
    }
  }

  /** The size check of the header field constructor: fields that cannot be in a frame are refused. */
  predicate FieldFits(name: seq<Byte>, value: seq<Byte>) {
    (|name| + |value|) * 8 / 5 < 0x1000000 - 1
  }

  datatype Command = IndexCmd | IncrementalCmd | ChangeSizeCmd | WithoutCmd | NeverCmd

  function OpValue(c: Command): Byte {
    match c
    case IndexCmd => 0x80
    case IncrementalCmd => 0x40
    case ChangeSizeCmd => 0x20
    case WithoutCmd => 0x00
    case NeverCmd => 0x10
  }

  function OpBits(c: Command): (n: nat)
    ensures Opcode(OpValue(c), n)
  {
    PrefixMasks();
    match c
    case IndexCmd => 1
    case IncrementalCmd => 2
    case ChangeSizeCmd => 3
    case WithoutCmd => 4
    case NeverCmd => 4
  }

  function CommandOf(b: Byte): Command {
    if b >= 0x80 then IndexCmd
    else if b >= 0x40 then IncrementalCmd
    else if b >= 0x20 then ChangeSizeCmd
    else if b >= 0x10 then NeverCmd
    else WithoutCmd
  }

  function LiteralCommand(kind: IndexType): Command {
    match kind
    case Default => IncrementalCmd
    case WithoutIndex => WithoutCmd
    case NeverIndex => NeverCmd
  }

  /** The command bits survive whatever integer follows them. */
  lemma CommandRoundTrip(c: Command, v: nat)
    ensures CommandOf(IntBytes(OpValue(c), OpBits(c), v)[0]) == c
  {
    PrefixMasks();
  }

  // ---------------------------------------------------------------- both tables

  /** The combined index space: static entries first, then dynamic ones. */
  function TableAt(st: seq<Entry>, dyn: seq<Entry>, i: nat): Outcome<Entry> {
    if i == 0 then Throws(RuntimeError)
    else if i <= |st| then Ok(st[i - 1])
    else if i - |st| <= |dyn| then Ok(dyn[i - |st| - 1])
    else Throws(RuntimeError)
  }

  // ---------------------------------------------------------------- decoding

  /** The decoder's state: its dynamic table and the maximum size. */
  datatype State = State(dyn: seq<Entry>, max: nat)

  /** What one command leaves: the field it adds, if any, the unread bytes and the new state. */
  datatype Step = Step(fields: seq<HeaderField>, rest: seq<Byte>, state: State)

  function MakeField(name: seq<Byte>, value: seq<Byte>, kind: IndexType): Outcome<HeaderField> {
    if FieldFits(name, value) then Ok(HeaderField(name, value, kind)) else Throws(OverflowError)
  }

  function DecodeIndexed(st: seq<Entry>, d: State, src: seq<Byte>): (r: Outcome<Step>)
    ensures r.Ok? ==> |r.value.rest| < |src|
  {
    DecodeIntBounds(1, src);
    var index :- DecodeInt(1, src);
    if index.value == 0 then Throws(RuntimeError)
    else
      var e :- TableAt(st, d.dyn, index.value);
      var f :- MakeField(e.name, e.value, Default);
      Ok(Step([f], src[index.usedBytes..], d))
  }

  function DecodeChangeSize(d: State, src: seq<Byte>): (r: Outcome<Step>)
    ensures r.Ok? ==> |r.value.rest| < |src|
  {
    DecodeIntBounds(3, src);
    var size :- DecodeInt(3, src);
    Ok(Step([], src[size.usedBytes..], State(Shrunk(d.dyn, size.value), size.value)))
  }

  /** The name: a string of its own, or the name of a table entry. */
  function DecodeName(t: seq<Code>, st: seq<Entry>, dyn: seq<Entry>, index: nat,
      src: seq<Byte>): (r: Outcome<DecodedString>)
    requires |t| == 257
    ensures r.Ok? ==> r.value.usedBytes <= |src|
  {
    if index == 0 then DecodeString(t, src)
    else
      var e :- TableAt(st, dyn, index);
      Ok(DecodedString(0, e.name))
  }

  function DecodeLiteral(t: seq<Code>, st: seq<Entry>, dyn: seq<Entry>, kind: IndexType,
      src: seq<Byte>): (r: Outcome<(HeaderField, seq<Byte>)>)
    requires |t| == 257
    ensures r.Ok? ==> |r.value.1| < |src|
  {
    DecodeIntBounds(OpBits(LiteralCommand(kind)), src);
    var index :- DecodeInt(OpBits(LiteralCommand(kind)), src);
    var src1 := src[index.usedBytes..];
    var name :- DecodeName(t, st, dyn, index.value, src1);
    var src2 := src1[name.usedBytes..];
    var value :- DecodeString(t, src2);
    var f :- MakeField(name.value, value.value, kind);
    Ok((f, src2[value.usedBytes..]))
  }

  /** One command. */
  function DecodeOne(t: seq<Code>, st: seq<Entry>, d: State, src: seq<Byte>): (r: Outcome<Step>)
    requires |t| == 257 && src != []
    ensures r.Ok? ==> |r.value.rest| < |src|
  {
    match CommandOf(src[0])
    case IndexCmd => DecodeIndexed(st, d, src)
    case ChangeSizeCmd => DecodeChangeSize(d, src)
    case IncrementalCmd =>
      var l :- DecodeLiteral(t, st, d.dyn, Default, src);
      Ok(Step([l.0], l.1, d.(dyn := DecoderInsert(d.dyn, l.0.ToEntry(), d.max))))
    case WithoutCmd =>
      var l :- DecodeLiteral(t, st, d.dyn, WithoutIndex, src);
      Ok(Step([l.0], l.1, d))
    case NeverCmd =>
      var l :- DecodeLiteral(t, st, d.dyn, NeverIndex, src);
      Ok(Step([l.0], l.1, d))
  }

  /** The fields of a block, or the failure that ended it, and the state in which the decoder is left. */
  datatype Decoded = Decoded(fields: Outcome<seq<HeaderField>>, state: State)

  /** What decoding ends in after some fields came out before. */
  function Continued(done: seq<HeaderField>, later: Decoded): Decoded {
    Decoded(if later.fields.Ok? then Ok(done + later.fields.value) else later.fields, later.state)
  }

  function DecodeBlock(t: seq<Code>, st: seq<Entry>, d: State, src: seq<Byte>): Decoded
    requires |t| == 257
    decreases |src|
  {
    if src == [] then Decoded(Ok([]), d)
    else
      var step := DecodeOne(t, st, d, src);
      if !step.Ok? then Decoded(step.PropagateFailure(), d)
      else Continued(step.value.fields, DecodeBlock(t, st, step.value.state, step.value.rest))
  }

  lemma ContinuedNothing(later: Decoded)
    ensures Continued([], later) == later
  {
    if later.fields.Ok? { assert [] + later.fields.value == later.fields.value; }
  }

  // ---------------------------------------------------------------- representations

  /** How a field is sent: by index, or as a literal with an indexed name, or with a new one (index 0). */
  datatype Rep =
    | Indexed(index: nat)
    | Literal(nameIndex: nat, nameEncoded: bool, valueEncoded: bool)

  ghost function RepBytes(t: seq<Code>, f: HeaderField, rep: Rep): (s: seq<Byte>)
    requires Sized(t)
    ensures |s| > 0
  {
    match rep
    case Indexed(i) => IntBytes(OpValue(IndexCmd), OpBits(IndexCmd), i)
    case Literal(i, nameEncoded, valueEncoded) =>
      var cmd := LiteralCommand(f.kind);
      if i == 0 then
        [OpValue(cmd)] + StringBytes(t, nameEncoded, f.name) + StringBytes(t, valueEncoded, f.value)
      else
        IntBytes(OpValue(cmd), OpBits(cmd), i) + StringBytes(t, valueEncoded, f.value)
  }

  /** The index, or the indexed name, of a representation is that of the field. */
  ghost predicate Refers(st: seq<Entry>, dyn: seq<Entry>, f: HeaderField, rep: Rep) {
    match rep
    case Indexed(i) => f.kind == Default && i <= MAX_HPACK_INT && TableAt(st, dyn, i) == Ok(f.ToEntry())
    case Literal(i, _, _) =>
      i == 0 || (i <= MAX_HPACK_INT && TableAt(st, dyn, i).Ok? && TableAt(st, dyn, i).value.name == f.name)
  }

  /** Its strings have lengths that can be written. */
  ghost predicate RepSendable(t: seq<Code>, f: HeaderField, rep: Rep)
    requires Sized(t)
  {
    match rep
    case Indexed(_) => true
    case Literal(i, nameEncoded, valueEncoded) =>
      (i == 0 ==> Sendable(t, nameEncoded, f.name)) && Sendable(t, valueEncoded, f.value)
  }

  /** Its strings can be read back. */
  predicate RepLegible(t: seq<Code>, f: HeaderField, rep: Rep)
    requires Sized(t)
  {
    match rep
    case Indexed(_) => true
    case Literal(i, nameEncoded, valueEncoded) =>
      (i == 0 ==> Legible(t, nameEncoded, f.name)) && Legible(t, valueEncoded, f.value)
  }

  function DecoderAfter(d: State, f: HeaderField, rep: Rep): State {
    if rep.Literal? && f.kind == Default then d.(dyn := DecoderInsert(d.dyn, f.ToEntry(), d.max)) else d
  }

  // ---------------------------------------------------------------- one field

  /** The decoder takes a representation of a field for that field, or its outcome is undefined. */
  lemma FieldRoundTrip(t: seq<Code>, st: seq<Entry>, d: State, f: HeaderField, rep: Rep, rest: seq<Byte>)
    requires ValidTable(t) && FieldFits(f.name, f.value)
    requires Refers(st, d.dyn, f, rep) && RepSendable(t, f, rep)
    ensures DecodeOne(t, st, d, RepBytes(t, f, rep) + rest)
         == if RepLegible(t, f, rep) then Ok(Step([f], rest, DecoderAfter(d, f, rep))) else Undefined
  {
    hide DecodeOne, DecodeLiteral, RepBytes, RepSendable, FieldFits;
    match rep
    case Indexed(i) => IndexedRoundTrip(t, st, d, f, i, rest);
    case Literal(_, _, _) =>
      LiteralRoundTrip(t, st, d.dyn, f, rep, rest);
      LiteralFirstByte(t, f, rep);
      LiteralStep(t, st, d, f.kind, RepBytes(t, f, rep) + rest);
  }

  /** All literal commands read the same way; only the one that is to be indexed changes the table. */
  lemma LiteralStep(t: seq<Code>, st: seq<Entry>, d: State, kind: IndexType, src: seq<Byte>)
    requires |t| == 257 && src != [] && CommandOf(src[0]) == LiteralCommand(kind)
    ensures var l := DecodeLiteral(t, st, d.dyn, kind, src);
      DecodeOne(t, st, d, src) == if !l.Ok? then l.PropagateFailure() else Ok(Step([l.value.0], l.value.1,
        if kind == Default then d.(dyn := DecoderInsert(d.dyn, l.value.0.ToEntry(), d.max)) else d))
  {
    hide DecodeLiteral, DecodeIndexed, DecodeChangeSize, DecoderInsert, CommandOf;
  }

  lemma LiteralFirstByte(t: seq<Code>, f: HeaderField, rep: Rep)
    requires Sized(t) && rep.Literal?
    ensures CommandOf(RepBytes(t, f, rep)[0]) == LiteralCommand(f.kind)
  {
    PrefixMasks();
    CommandRoundTrip(LiteralCommand(f.kind), rep.nameIndex);
  }

  lemma IndexedRoundTrip(t: seq<Code>, st: seq<Entry>, d: State, f: HeaderField, i: nat, rest: seq<Byte>)
    requires Sized(t) && FieldFits(f.name, f.value) && Refers(st, d.dyn, f, Indexed(i))
    ensures DecodeOne(t, st, d, RepBytes(t, f, Indexed(i)) + rest) == Ok(Step([f], rest, d))
  {
    var bytes := IntBytes(OpValue(IndexCmd), OpBits(IndexCmd), i);
    IntegerRoundTrip(OpValue(IndexCmd), OpBits(IndexCmd), i, rest);
    CommandRoundTrip(IndexCmd, i);
    assert (bytes + rest)[0] == bytes[0];
    assert (bytes + rest)[|bytes|..] == rest;
  }

  lemma LiteralRoundTrip(t: seq<Code>, st: seq<Entry>, dyn: seq<Entry>, f: HeaderField, rep: Rep, rest: seq<Byte>)
    requires ValidTable(t) && FieldFits(f.name, f.value) && rep.Literal?
    requires Refers(st, dyn, f, rep) && RepSendable(t, f, rep)
    ensures DecodeLiteral(t, st, dyn, f.kind, RepBytes(t, f, rep) + rest)
         == if RepLegible(t, f, rep) then Ok((f, rest)) else Undefined
  {
    var cmd := LiteralCommand(f.kind);
    var value := StringBytes(t, rep.valueEncoded, f.value);
    StringRoundTrip(t, rep.valueEncoded, f.value, rest);
    assert (value + rest)[|value|..] == rest;
    if rep.nameIndex == 0 {
      var name := StringBytes(t, rep.nameEncoded, f.name);
      StringRoundTrip(t, rep.nameEncoded, f.name, value + rest);
      NewNamePrefix(cmd, name + (value + rest));
      ThreeParts([OpValue(cmd)], name, value, rest);
    } else {
      var prefix := IntBytes(OpValue(cmd), OpBits(cmd), rep.nameIndex);
      IntegerRoundTrip(OpValue(cmd), OpBits(cmd), rep.nameIndex, value + rest);
      ConcatAssoc(prefix, value, rest);
      assert (prefix + (value + rest))[|prefix|..] == value + rest;
      assert (value + rest)[0..] == value + rest;
    }
  }

  /** A bare command octet reads as index zero. */
  lemma NewNamePrefix(cmd: Command, rest: seq<Byte>)
    ensures DecodeInt(OpBits(cmd), [OpValue(cmd)] + rest) == Ok(DecodedInt(1, 0))
    ensures ([OpValue(cmd)] + rest)[1..] == rest
  {
    PrefixMasks();
    IntegerRoundTrip(OpValue(cmd), OpBits(cmd), 0, rest);
    assert IntBytes(OpValue(cmd), OpBits(cmd), 0) == [OpValue(cmd)];
  }

  lemma ThreeParts<T>(a: seq<T>, b: seq<T>, c: seq<T>, d: seq<T>)
    ensures a + b + c + d == a + (b + (c + d))
    ensures (b + (c + d))[|b|..] == c + d
  {
  }
}
