/** A header block that is sent within the limit and does not fit the peer's frame size. */
module HeaderLimits {
  import opened Words
  import opened Huffman
  import opened HuffmanTable
  import opened Integers
  import opened StringCodec
  import opened DynamicTables
  import opened StaticTable
  import opened Wire
  import opened Blocks
  import opened Encoders
  import opened SessionLimits
  import opened Frames
  import opened HeaderEmission
  import opened HeaderWire

  function Repeat<T>(x: T, n: nat): (s: seq<T>)
    ensures |s| == n && forall i :: 0 <= i < n ==> s[i] == x
  {
    seq(n, i => x)
  }

  /** A field that is not to be indexed, with a new name, sent over and over. */
  lemma {:induction false} Repeated(t: seq<Code>, st: seq<Entry>, rate: nat, max: nat, s: Sent, n: nat)
    requires Sized(t) && Chosen(t, st, rate, [], s) && s.NewName() && s.field.kind != Default
    ensures Emitted(t, st, rate, [], max, Repeat(s, n)) && TableAfter([], max, Repeat(s, n)) == []
    ensures Charge(t, Repeat(s, n)) == n * FieldSize(t, s) && NewNames(Repeat(s, n)) == n
    ensures Fields(Repeat(s, n)) == Repeat(s.field, n)
  {
    hide Chosen, FieldSize;
    if n > 0 {
      Repeated(t, st, rate, max, s, n - 1);
      assert Repeat(s, n)[..n - 1] == Repeat(s, n - 1);
    }
  }

  /** The field of the witness: an empty name and a value of 651 zero octets. */
  function BigField(): Sent {
    Sent(HeaderField([], Repeat(0, 651), WithoutIndex), Literal(0, false, false))
  }

  lemma BigFieldSize(t: seq<Code>, s: Sent)
    requires Sized(t) && s == BigField()
    ensures FieldSize(t, s) == 655
  {
    PrefixMasks();
    assert IntBytes(StringFlag(false), 1, 0) == [0];
    assert |Continuation(524)| == 2;
    assert |IntBytes(StringFlag(false), 1, 651)| == 3;
  }

  lemma BigFieldChosen(t: seq<Code>, st: seq<Entry>, s: Sent)
    requires Sized(t) && t[0].len >= 8 && !HasName(st, []) && s == BigField()
    ensures Chosen(t, st, MIN_HUFFMAN_RATE, [], s)
  {
    SentInPlace(t, MIN_HUFFMAN_RATE, s.field.value);
    SentInPlace(t, MIN_HUFFMAN_RATE, s.field.name);
  }

  /**
   * With the tables of the program, 25 such fields go out in one frame under the largest limit; their charge
   * uses it up, and the 25 uncharged octets make the payload too large, so that the peer fails.
   */
  lemma FrameTooLarge(t: seq<Code>, st: seq<Entry>, s: Sent, block: seq<Sent>, streamId: nat)
    requires t == HUFFMAN_TABLE && st == STATIC_TABLE && s == BigField() && block == Repeat(s, 25) && streamId < TWO_32
    ensures Sized(t)
    ensures Longest(t, st, MIN_HUFFMAN_RATE, [], INIT_TABLE_SIZE,
      Repeat(s.field, 25), SizeLimit(false, MAX_FRAME_SIZE), block)
    ensures Charge(t, block) == SizeLimit(false, MAX_FRAME_SIZE) && |BlockBytes(t, block)| == 16400
    ensures FailsAlways(MAX_FRAME_SIZE, Concat(WrittenAll(streamId, FramesFor(t, [block], 25, true))))
  {
    TableIsValid();
    NoEmptyName();
    ZeroIsLong(t);
    BigFieldChosen(t, st, s);
    BigFieldSize(t, s);
    hide HUFFMAN_TABLE, STATIC_TABLE, CodeOf, HasName, PrefixFree, Chosen, FieldSize;
    hide Longest, Charge, NewNames, BlockBytes, FailsAlways, Concat, WrittenAll, FramesFor;
    BigBlock(t, st, s, 25, block, Repeat(s.field, 25));
    BigBlockFails(t, block, [block], streamId);
  }

  lemma BigBlock(t: seq<Code>, st: seq<Entry>, s: Sent, n: nat, block: seq<Sent>, fields: seq<HeaderField>)
    requires Sized(t) && Chosen(t, st, MIN_HUFFMAN_RATE, [], s) && s.NewName() && s.field.kind == WithoutIndex
    requires FieldSize(t, s) == 655 && n == 25 && block == Repeat(s, n) && fields == Repeat(s.field, n)
    ensures Longest(t, st, MIN_HUFFMAN_RATE, [], INIT_TABLE_SIZE, fields, SizeLimit(false, MAX_FRAME_SIZE), block)
    ensures Charge(t, block) == SizeLimit(false, MAX_FRAME_SIZE) && NewNames(block) == 25
    ensures |BlockBytes(t, block)| == 16400
  {
    hide Chosen, FieldSize, Charge, NewNames, BlockBytes, Emitted, TableAfter, Repeat;
    Repeated(t, st, MIN_HUFFMAN_RATE, INIT_TABLE_SIZE, s, n);
    BlockLength(t, block);
    assert fields[..n] == fields;
  }

  lemma BigBlockFails(t: seq<Code>, block: seq<Sent>, blocks: seq<seq<Sent>>, streamId: nat)
    requires Sized(t) && blocks == [block] && streamId < TWO_32
    requires Charge(t, block) + NewNames(block) == 16400
    ensures FailsAlways(MAX_FRAME_SIZE, Concat(WrittenAll(streamId, FramesFor(t, blocks, 25, true))))
  {
    hide Charge, NewNames, FailsAlways, Concat, WrittenAll, FramesFor;
    assert blocks[0] == block;
    RefusedAlways(t, MAX_FRAME_SIZE, streamId, blocks, 25, true);
  }
}
