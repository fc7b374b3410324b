/** Where the round trip of a session ends: concrete inputs, with the tables of the program. */
module SessionLimits {
  import opened Words
  import opened Outcomes
  import opened Huffman
  import opened HuffmanTable
  import opened HuffmanReader
  import opened Integers
  import opened StringCodec
  import opened DynamicTables
  import opened StaticTable
  import opened Wire
  import opened Blocks
  import opened Encoders
  import opened Decoders

  /** No static name is empty. */
  lemma NoEmptyName()
    ensures !HasName(STATIC_TABLE, [])
  {
    forall i | 0 <= i < |STATIC_TABLE|
      ensures STATIC_TABLE[i].name != []
    {
      EveryPlaced(i);
    }
  }

  /** What a fresh decoder makes of one field of a fresh encoder. */
  lemma FirstField(t: seq<Code>, st: seq<Entry>, rate: nat, max: nat, s: Sent)
    requires ValidTable(t) && Chosen(t, st, rate, [], s)
    ensures var d := DecodeBlock(t, st, State([], max), RepBytes(t, s.field, s.rep));
      if RepLegible(t, s.field, s.rep)
      then d == Decoded(Ok([s.field]), DecoderAfter(State([], max), s.field, s.rep))
      else d.fields == Undefined
  {
    hide RepBytes, Chosen, RepLegible, PrefixFree, DecodeOne;
    var block := [s];
    assert block[..0] == [];
    BlockThen(t, st, rate, [], max, block, []);
    assert BlockBytes(t, block[..0]) == [];
    assert BlockBytes(t, block) + [] == [] + RepBytes(t, s.field, s.rep) == RepBytes(t, s.field, s.rep);
    assert Fields(block) + [] == [s.field];
  }

  /** The field with an empty new name and an empty value, as it is sent. */
  function EmptyField(): Sent {
    Sent(HeaderField([], [], Default), Literal(0, false, false))
  }

  lemma EmptyFieldChosen(t: seq<Code>, st: seq<Entry>, rate: nat, s: Sent)
    requires Sized(t) && !HasName(st, []) && s == EmptyField()
    ensures Chosen(t, st, rate, [], s) && RepLegible(t, s.field, s.rep)
  {
    assert s.field.ToEntry() !in st;
  }

  /** A new name to be indexed: the decoder inserts it on reading the bytes, and the encoder did not. */
  lemma NewNameDiverges(t: seq<Code>, st: seq<Entry>, s: Sent)
    requires t == HUFFMAN_TABLE && st == STATIC_TABLE && s == EmptyField()
    ensures Sized(t) && Chosen(t, st, MIN_HUFFMAN_RATE, [], s)
    ensures TableAfter([], INIT_TABLE_SIZE, [s]) == []
    ensures DecodeBlock(t, st, State([], DEFAULT_TABLE_SIZE), RepBytes(t, s.field, s.rep))
         == Decoded(Ok([s.field]), State([Entry([], [])], DEFAULT_TABLE_SIZE))
  {
    hide DecodeBlock, RepBytes, PrefixFree;
    TableIsValid();
    NoEmptyName();
    EmptyFieldChosen(t, st, MIN_HUFFMAN_RATE, s);
    OneSent([], INIT_TABLE_SIZE, s);
    FirstField(t, st, MIN_HUFFMAN_RATE, DEFAULT_TABLE_SIZE, s);
  }

  /** The same field is sent with a limit of two bytes and takes three. */
  lemma NewNameOverruns(t: seq<Code>, st: seq<Entry>, s: Sent)
    requires t == HUFFMAN_TABLE && st == STATIC_TABLE && s == EmptyField()
    ensures Sized(t) && Longest(t, st, MIN_HUFFMAN_RATE, [], INIT_TABLE_SIZE, [s.field], 2, [s])
    ensures |BlockBytes(t, [s])| == 3
  {
    hide HUFFMAN_TABLE, STATIC_TABLE;
    TableIsValid();
    NoEmptyName();
    EmptyFieldChosen(t, st, MIN_HUFFMAN_RATE, s);
    EmptyFieldBytes(t, s);
    hide RepBytes, Chosen;
    var block, none := [s], [s][..0];
    assert none == [];
    NothingSent(t, st, MIN_HUFFMAN_RATE, [], INIT_TABLE_SIZE, none);
    ExtendBlock(t, st, MIN_HUFFMAN_RATE, [], INIT_TABLE_SIZE, none, s);
    assert none + [s] == block;
    assert Fields(block) == [s.field][..1];
  }

  lemma EmptyFieldBytes(t: seq<Code>, s: Sent)
    requires Sized(t) && s == EmptyField()
    ensures |RepBytes(t, s.field, s.rep)| == 3 && FieldSize(t, s) == 2
  {
    PrefixMasks();
    assert IntBytes(StringFlag(false), 1, 0) == [0];
  }

  /** Octets whose codes are no shorter than an octet are not worth coding. */
  lemma {:induction false} LongEstimate(t: seq<Code>, s: seq<Byte>)
    requires Sized(t) && forall b :: b in s ==> t[b].len >= 8
    ensures EstimateLen(t, s) >= 8 * |s|
  {
    if s != [] {
      assert forall b :: b in s[..|s| - 1] ==> b in s;
      LongEstimate(t, s[..|s| - 1]);
    }
  }

  lemma SentInPlace(t: seq<Code>, rate: nat, s: seq<Byte>)
    requires Sized(t) && |s| < 0x10000 && forall b :: b in s ==> t[b].len >= 8
    ensures EstimateString(t, rate, s) == Estimate(|s|, false)
  {
    LongEstimate(t, s);
    EstimateUpper(t, s);
    hide EstimateLen;
    assert Pow2(3) == 8 by { Pow2Of8(); }
    CeilOrder2Rounds(EstimateLen(t, s), 3);
  }

  lemma {:induction false} EstimateUpper(t: seq<Code>, s: seq<Byte>)
    requires Sized(t)
    ensures EstimateLen(t, s) <= 30 * |s|
  {
    if s != [] { EstimateUpper(t, s[..|s| - 1]); }
  }

  lemma ZeroIsLong(t: seq<Code>)
    requires t == HUFFMAN_TABLE
    ensures |t| == 257 && t[0].len == 13
  {
  }

  lemma OversizedInsert(o: Entry, e: Entry, max: nat)
    requires HpackSize(o) <= max < HpackSize(e) < TWO_32
    ensures EncoderInsert([o], e, max) == [e] && DecoderInsert([o], e, max) == [e, o]
    ensures EncoderInsert([], o, max) == DecoderInsert([], o, max) == [o]
  {
    OneEntry(o);
    assert [o][..0] == [] && [o][..1] == [o];
  }

  /** Section 4.1 counts 32 octets for every entry, so that this many octets of value fill the table. */
  lemma CookieFitsIff(value: seq<Byte>)
    ensures HpackSize(Entry(Ascii("cookie"), value)) <= INIT_TABLE_SIZE <==> |value| <= 4058
  {
  }

  /** The static name of the witness below has one entry, without a value. */
  lemma CookieIsStatic(st: seq<Entry>, name: seq<Byte>, value: seq<Byte>)
    requires st == STATIC_TABLE && name == Ascii("cookie")
    ensures |st| == 61 && |name| == 6 && st[31].name == name && (Entry(name, value) in st ==> value == [])
  {
    assert StaticField(31) == ("cookie", "");
    if i :| 0 <= i < |st| && st[i] == Entry(name, value) {
      SameGroup(i, 31);
      assert i == 31;
    }
  }

  lemma CookieChosen(t: seq<Code>, st: seq<Entry>, dyn: seq<Entry>, name: seq<Byte>, value: seq<Byte>, s: Sent)
    requires Sized(t) && t[0].len >= 8 && |st| == 61 && |name| == 6 && st[31].name == name && Entry(name, value) !in st
    requires |value| < 0x10000 && (forall b :: b in value ==> b == 0)
    requires s == Sent(HeaderField(name, value, Default), Literal(32, false, false))
    ensures Chosen(t, st, MIN_HUFFMAN_RATE, dyn, s) && RepLegible(t, s.field, s.rep)
  {
    SentInPlace(t, MIN_HUFFMAN_RATE, value);
    assert HasName(st, name);
  }

  /**
   * A static name with a short value, and then with one that makes the entry a byte larger than the table:
   * the encoder's table loses the first entry, and the decoder, which reads both fields, keeps it.
   */
  lemma OversizedDiverges(t: seq<Code>, st: seq<Entry>, name: seq<Byte>, value: seq<Byte>, small: Sent, big: Sent)
    requires t == HUFFMAN_TABLE && st == STATIC_TABLE && name == Ascii("cookie")
    requires |value| == 4059 && forall b :: b in value ==> b == 0
    requires small == Sent(HeaderField(name, [0], Default), Literal(32, false, false))
    requires big == Sent(HeaderField(name, value, Default), Literal(32, false, false))
    ensures Sized(t) && Emitted(t, st, MIN_HUFFMAN_RATE, [], INIT_TABLE_SIZE, [small, big])
    ensures TableAfter([], INIT_TABLE_SIZE, [small, big]) == [big.field.ToEntry()]
    ensures var after := State([big.field.ToEntry(), small.field.ToEntry()], DEFAULT_TABLE_SIZE);
      DecodeBlock(t, st, State([], DEFAULT_TABLE_SIZE), BlockBytes(t, [small, big])) ==
        Decoded(Ok([small.field, big.field]), after)
  {
    TableIsValid();
    ZeroIsLong(t);
    CookieIsStatic(st, name, [0]);
    CookieIsStatic(st, name, value);
    CookieChosen(t, st, [], name, [0], small);
    CookieChosen(t, st, [small.field.ToEntry()], name, value, big);
    hide HUFFMAN_TABLE, STATIC_TABLE, CodeOf, PrefixFree, Chosen, RepLegible;
    hide DecodeBlock, BlockBytes, Emitted, TableAfter;
    OversizedPair(t, st, MIN_HUFFMAN_RATE, INIT_TABLE_SIZE, small, big, [small, big]);
  }

  lemma OversizedPair(t: seq<Code>, st: seq<Entry>, rate: nat, max: nat, small: Sent, big: Sent, block: seq<Sent>)
    requires ValidTable(t) && block == [small, big] && small.Inserted() && big.Inserted()
    requires HpackSize(small.field.ToEntry()) <= max < HpackSize(big.field.ToEntry()) < TWO_32
    requires Chosen(t, st, rate, [], small) && Chosen(t, st, rate, [small.field.ToEntry()], big)
    requires RepLegible(t, small.field, small.rep) && RepLegible(t, big.field, big.rep)
    ensures Emitted(t, st, rate, [], max, block) && TableAfter([], max, block) == [big.field.ToEntry()]
    ensures DecodeBlock(t, st, State([], max), BlockBytes(t, block))
         == Decoded(Ok([small.field, big.field]), State([big.field.ToEntry(), small.field.ToEntry()], max))
  {
    hide Chosen, RepLegible, EncoderInsert, DecoderInsert, DecodeOne, RepBytes, PrefixFree;
    OversizedInsert(small.field.ToEntry(), big.field.ToEntry(), max);
    var none, one := block[..0], block[..1];
    assert none + [small] == one && one + [big] == block && one[..0] == none;
    NothingSent(t, st, rate, [], max, none);
    ExtendBlock(t, st, rate, [], max, none, small);
    ExtendBlock(t, st, rate, [], max, one, big);
    OneSent([], max, small);
    OneSent([small.field.ToEntry()], max, big);
    assert StateAfter(State([], max), one) == State([small.field.ToEntry()], max);
    assert forall k :: 0 <= k < 2 ==> EqualAfter([], max, block[..k]);
    BlockThen(t, st, rate, [], max, block, []);
    assert BlockBytes(t, block) + [] == BlockBytes(t, block);
    assert Fields(block) + [] == [small.field, big.field];
  }

  /** Six codes of 5 bits put a code of 26 bits where the reader cannot take it. */
  lemma LongCodeUnreadable(t: seq<Code>, a: Byte, x: Byte, rest: seq<Byte>)
    requires Sized(t) && t[a].len == 5 && t[x].len >= 26
    ensures !Readable(t, [a, a, a, a, a, a, x] + rest)
  {
    hide ReadableFrom;
    var s0 := [x] + rest;
    var s1, s2, s3 := [a] + s0, [a] + ([a] + s0), [a] + ([a] + ([a] + s0));
    var s4, s5, s6 := [a] + s3, [a] + ([a] + s3), [a] + ([a] + ([a] + s3));
    ReadableStep(t, s0, 30, x, rest);
    ReadableStep(t, s1, 25, a, s0);
    ReadableStep(t, s2, 20, a, s1);
    ReadableStep(t, s3, 15, a, s2);
    ReadableStep(t, s4, 10, a, s3);
    ReadableStep(t, s5, 5, a, s4);
    ReadableStep(t, s6, 0, a, s5);
    assert s6 == [a, a, a, a, a, a, x] + rest;
  }

  /** With three more short codes behind it such a string is Huffman-coded by the encoder. */
  lemma LongCodeEncoded(t: seq<Code>, a: Byte, x: Byte, s: seq<Byte>)
    requires Sized(t) && t[a].len == 5 && t[x].len == 26 && s == [a, a, a, a, a, a, x] + [a, a, a]
    ensures EstimateString(t, MIN_HUFFMAN_RATE, s) == Estimate(9, true)
  {
    hide EstimateLen, CeilOrder2;
    LongCodeLength(t, a, x, s);
    assert Pow2(3) == 8 by { Pow2Of8(); }
    CeilOrder2Rounds(71, 3);
  }

  lemma LongCodeLength(t: seq<Code>, a: Byte, x: Byte, s: seq<Byte>)
    requires Sized(t) && t[a].len == 5 && t[x].len == 26 && s == [a, a, a, a, a, a, x] + [a, a, a]
    ensures EstimateLen(t, s) == 71
  {
    hide EstimateLen;
    assert EstimateLen(t, s[..0]) == 0 by { NoEstimate(t, s[..0]); }
    EstimateMore(t, s, 0);
    EstimateMore(t, s, 1);
    EstimateMore(t, s, 2);
    EstimateMore(t, s, 3);
    EstimateMore(t, s, 4);
    EstimateMore(t, s, 5);
    EstimateMore(t, s, 6);
    EstimateMore(t, s, 7);
    EstimateMore(t, s, 8);
    EstimateMore(t, s, 9);
    assert s[..10] == s;
  }

  lemma NoEstimate(t: seq<Code>, s: seq<Byte>)
    requires |t| == 257 && s == []
    ensures EstimateLen(t, s) == 0
  {
  }

  lemma EstimateMore(t: seq<Code>, s: seq<Byte>, i: nat)
    requires |t| == 257 && i < |s|
    ensures EstimateLen(t, s[..i + 1]) == EstimateLen(t, s[..i]) + t[s[i]].len
  {
    assert s[..i + 1][..i] == s[..i];
  }

  lemma LongCodes(t: seq<Code>)
    requires t == HUFFMAN_TABLE
    ensures |t| == 257 && t[48].len == 5 && t[192].len == 26
  {
  }

  lemma LongCodeChosen(t: seq<Code>, st: seq<Entry>, value: seq<Byte>, s: Sent)
    requires Sized(t) && !HasName(st, []) && |value| == 10 && EstimateString(t, MIN_HUFFMAN_RATE, value).encoded
    requires s == Sent(HeaderField([], value, WithoutIndex), Literal(0, false, true))
    ensures Chosen(t, st, MIN_HUFFMAN_RATE, [], s)
  {
  }

  /** A value of ten octets that the encoder sends and the decoder cannot read. */
  lemma LongCodeLost(t: seq<Code>, st: seq<Entry>, value: seq<Byte>, s: Sent)
    requires t == HUFFMAN_TABLE && st == STATIC_TABLE && value == [48, 48, 48, 48, 48, 48, 192] + [48, 48, 48]
    requires s == Sent(HeaderField([], value, WithoutIndex), Literal(0, false, true))
    ensures Sized(t) && Chosen(t, st, MIN_HUFFMAN_RATE, [], s)
    ensures DecodeBlock(t, st, State([], DEFAULT_TABLE_SIZE), RepBytes(t, s.field, s.rep)).fields == Undefined
  {
    TableIsValid();
    NoEmptyName();
    LongCodes(t);
    hide DecodeBlock, RepBytes, PrefixFree, Readable, EstimateString;
    hide Chosen, HasName, HUFFMAN_TABLE, STATIC_TABLE, CodeOf;
    LongCodeUnreadable(t, 48, 192, [48, 48, 48]);
    LongCodeEncoded(t, 48, 192, value);
    LongCodeChosen(t, st, value, s);
    FirstField(t, st, MIN_HUFFMAN_RATE, DEFAULT_TABLE_SIZE, s);
  }
}
