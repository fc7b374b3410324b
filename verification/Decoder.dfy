/** The HPACK decoder. */
module Decoders {
  import opened Words
  import opened Outcomes
  import opened Huffman
  import opened Integers
  import opened StringCodec
  import opened DynamicTables
  import opened HpackTables
  import opened Wire

  const DEFAULT_TABLE_SIZE := 4096

  /** The command of a first octet, told by masks. */
  function DecodeCmd(b: Byte): Command {
    if BitAnd(b, 0x80) != 0 then IndexCmd
    else if BitAnd(b, 0xc0) == 0x40 then IncrementalCmd
    else if BitAnd(b, 0x20) == 0x20 then ChangeSizeCmd
    else if BitAnd(b, 0xf0) == 0x00 then WithoutCmd
    else NeverCmd
  }

  /** The masks split the octets into the five ranges of section 6 of RFC 7541. */
  lemma DecodeCmdIs(b: Byte)
    ensures DecodeCmd(b) == CommandOf(b)
  {
    hide BitAnd, Pow2;
    HighBit(b);
    TwoTopBits(b);
    ThirdBit(b);
    FourTopBits(b);
  }

  lemma TwoTopBits(b: Byte)
    ensures b < 0x80 ==> (BitAnd(b, 0xc0) == 0x40 <==> b >= 0x40)
  {
    Pow2Of8();
    AndWindow(b, 2, 6);
  }

  lemma ThirdBit(b: Byte)
    ensures b < 0x40 ==> (BitAnd(b, 0x20) == 0x20 <==> b >= 0x20)
  {
    Pow2Of8();
    AndWindow(b, 1, 5);
  }

  lemma FourTopBits(b: Byte)
    ensures b < 0x20 ==> (BitAnd(b, 0xf0) == 0 <==> b < 0x10)
  {
    Pow2Of8();
    AndWindow(b, 4, 4);
  }

  /**
   * A command handler did what the step says: appended fields, new state and unread bytes, or a failure that
   * changed nothing.
   */
  ghost predicate Performed(step: Outcome<Step>, was: State, before: seq<HeaderField>, now: State,
      after: seq<HeaderField>, rest: Outcome<seq<Byte>>) {
    if step.Ok?
    then rest == Ok(step.value.rest) && after == before + step.value.fields && now == step.value.state
    else rest == step.PropagateFailure() && now == was
  }

  class Decoder {
    const huffman: seq<Code>
    const table: DecoderTable

    ghost predicate Valid()
      reads this, table, table.dyn
    {
      |huffman| == 257 && table.Valid()
    }

    ghost function ToState(): State
      reads this, table, table.dyn
    {
      table.ToState()
    }

    constructor (huffman: seq<Code>, st: seq<Entry>)
      requires |huffman| == 257
      ensures Valid() && this.huffman == huffman && table.st == st && fresh(table) && fresh(table.dyn)
      ensures ToState() == State([], DEFAULT_TABLE_SIZE)
    {
      this.huffman := huffman;
      table := new DecoderTable(st, DEFAULT_TABLE_SIZE);
    }

    method Index(src: seq<Byte>, header: seq<HeaderField>) returns (rest: Outcome<seq<Byte>>, header': seq<HeaderField>)
      requires Valid()
      ensures Performed(DecodeIndexed(table.st, ToState(), src), ToState(), header, ToState(), header', rest)
    {
      header' := header;
      DecodeIntBounds(1, src);
      var index := Integers.Decode(OpBits(IndexCmd), src);
      if !index.Ok? {
        rest := index.PropagateFailure();
        return;
      }
      if index.value.value == 0 {
        rest := Throws(RuntimeError);
        return;
      }
      var e := table.At(index.value.value);
      if !e.Ok? {
        rest := e.PropagateFailure();
        return;
      }
      var f := MakeField(e.value.name, e.value.value, Default);
      if !f.Ok? {
        rest := f.PropagateFailure();
        return;
      }
      header' := header + [f.value];
      rest := Ok(src[index.value.usedBytes..]);
    }

    method ChangeTableSize(src: seq<Byte>) returns (rest: Outcome<seq<Byte>>)
      requires Valid()
      modifies table.dyn
      ensures Valid() && Performed(DecodeChangeSize(old(ToState()), src), old(ToState()), [], ToState(), [], rest)
    {
      DecodeIntBounds(3, src);
      var maxSize := Integers.Decode(OpBits(ChangeSizeCmd), src);
      if !maxSize.Ok? {
        rest := maxSize.PropagateFailure();
        return;
      }
      table.UpdateSize(maxSize.value.value);
      rest := Ok(src[maxSize.value.usedBytes..]);
    }

    /** The name of a literal and the bytes behind it. */
    method LiteralName(index: nat, src: seq<Byte>, around: seq<Byte>) returns (r: Outcome<DecodedString>)
      requires Valid() && |around| == 8
      ensures r == DecodeName(huffman, table.st, ToState().dyn, index, src)
    {
      if index == 0 {
        r := StringCodec.Decode(huffman, around[..7], src, around[7]);
        return;
      }
      var e := table.At(index);
      if !e.Ok? {
        return e.PropagateFailure();
      }
      return Ok(DecodedString(0, e.value.name));
    }

    /** What all literal commands share. The bytes around the source may be anything. */
    method LiteralWithoutIndex(src: seq<Byte>, around: seq<Byte>, kind: IndexType)
      returns (r: Outcome<(HeaderField, seq<Byte>)>)
      requires Valid() && |around| == 8
      ensures r == DecodeLiteral(huffman, table.st, ToState().dyn, kind, src)
    {
      hide DecodeName, DecodeString, DecodeInt, TableAt;
      DecodeIntBounds(OpBits(LiteralCommand(kind)), src);
      var index := Integers.Decode(OpBits(LiteralCommand(kind)), src);
      if !index.Ok? {
        return index.PropagateFailure();
      }
      var src1 := src[index.value.usedBytes..];
      var name := LiteralName(index.value.value, src1, around);
      if !name.Ok? {
        return name.PropagateFailure();
      }
      var src2 := src1[name.value.usedBytes..];
      var value := StringCodec.Decode(huffman, around[..7], src2, around[7]);
      if !value.Ok? {
        return value.PropagateFailure();
      }
      var f := MakeField(name.value.value, value.value.value, kind);
      if !f.Ok? {
        return f.PropagateFailure();
      }
      return Ok((f.value, src2[value.value.usedBytes..]));
    }

    /** One command. */
    method Execute(src: seq<Byte>, around: seq<Byte>, header: seq<HeaderField>)
      returns (rest: Outcome<seq<Byte>>, header': seq<HeaderField>)
      requires Valid() && |around| == 8 && src != []
      modifies table.dyn
      ensures Valid()
      ensures Performed(DecodeOne(huffman, table.st, old(ToState()), src), old(ToState()), header, ToState(), header',
        rest)
    {
      hide DecodeLiteral, DecodeIndexed, DecodeChangeSize, DecoderInsert, CommandOf, DecodeCmd;
      DecodeCmdIs(src[0]);
      header' := header;
      match DecodeCmd(src[0])
      case IndexCmd =>
        rest, header' := Index(src, header);
      case ChangeSizeCmd =>
        rest := ChangeTableSize(src);
      case IncrementalCmd =>
        var l := LiteralWithoutIndex(src, around, Default);
        if !l.Ok? {
          rest := l.PropagateFailure();
          return;
        }
        header' := header + [l.value.0];
        table.Insert(l.value.0.name, l.value.0.value);
        rest := Ok(l.value.1);
      case WithoutCmd =>
        var l := LiteralWithoutIndex(src, around, WithoutIndex);
        if !l.Ok? {
          rest := l.PropagateFailure();
          return;
        }
        header' := header + [l.value.0];
        rest := Ok(l.value.1);
      case NeverCmd =>
        var l := LiteralWithoutIndex(src, around, NeverIndex);
        if !l.Ok? {
          rest := l.PropagateFailure();
          return;
        }
        header' := header + [l.value.0];
        rest := Ok(l.value.1);
    }

    /** Decodes a header block, or fails in the state that the commands before the failing one left. */
    method Decode(encodedData: seq<Byte>, around: seq<Byte>) returns (r: Outcome<seq<HeaderField>>)
      requires Valid() && |around| == 8
      modifies table.dyn
      ensures Valid() && Decoded(r, ToState()) == DecodeBlock(huffman, table.st, old(ToState()), encodedData)
    {
      hide DecodeOne;
      ghost var goal := DecodeBlock(huffman, table.st, ToState(), encodedData);
      var src := encodedData;
      var fields: seq<HeaderField> := [];
      ContinuedNothing(goal);
      while src != []
        invariant Valid()
        invariant Continued(fields, DecodeBlock(huffman, table.st, ToState(), src)) == goal
        decreases |src|
      {
        ghost var was, before := ToState(), fields;
        var rest;
        rest, fields := Execute(src, around, fields);
        AfterCommand(huffman, table.st, was, src, before, ToState(), fields, rest);
        if !rest.Ok? {
          return rest.PropagateFailure();
        }
        src := rest.value;
      }
      assert fields + [] == fields;
      return Ok(fields);
    }
  }

  lemma AfterCommand(t: seq<Code>, st: seq<Entry>, was: State, src: seq<Byte>, before: seq<HeaderField>, now: State,
      after: seq<HeaderField>, rest: Outcome<seq<Byte>>)
    requires |t| == 257 && src != [] && Performed(DecodeOne(t, st, was, src), was, before, now, after, rest)
    ensures !rest.Ok? ==> Continued(before, DecodeBlock(t, st, was, src)) == Decoded(rest.PropagateFailure(), now)
    ensures rest.Ok? ==> |rest.value| < |src|
    ensures rest.Ok? ==>
      Continued(before, DecodeBlock(t, st, was, src)) == Continued(after, DecodeBlock(t, st, now, rest.value))
  {
    hide DecodeOne;
    if rest.Ok? {
      var later := DecodeBlock(t, st, now, rest.value);
      var fs := DecodeOne(t, st, was, src).value.fields;
      if later.fields.Ok? { ConcatAssoc(before, fs, later.fields.value); }
    }
  }
}
