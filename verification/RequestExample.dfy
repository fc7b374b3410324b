/** The first request of appendix C.4 of RFC 7541, as the program's own tables encode and decode it. */
module RequestExample {
  import opened Words
  import opened Bits
  import opened Outcomes
  import opened Huffman
  import opened HuffmanTable
  import opened HuffmanWriter
  import opened HuffmanReader
  import opened Integers
  import opened StringCodec
  import opened DynamicTables
  import opened StaticTable
  import opened Wire
  import opened Blocks
  import opened Encoders
  import opened Decoders
  import opened StreamBuffers
  import opened TableObjects
  import opened Connections

  // ---------------------------------------------------------------- the Huffman-coded value

  /** The symbol has a code of this length, which reads as this number. */
  ghost predicate Spells(t: seq<Code>, symbol: char, c: nat, len: nat)
    requires |t| == 257
  {
    var b := symbol as int;
    b < 256 && t[b].len == len <= 32 && c < Pow2(len) && ShiftRight(t[b].bits, 32 - len) == c
  }

  lemma Letter(t: seq<Code>, symbol: char, c: nat, len: nat)
    requires t == HUFFMAN_TABLE && symbol as int < 256 && len in LENGTHS
    requires c < Pow2(len) && CodeOf(symbol as int) == Code(c * Width(len), len)
    ensures |t| == 257 && Spells(t, symbol, c, len)
  {
    hide CodeOf, Width, Pow2;
    WidthIsPow2(len);
    DivModUnique(c, Pow2(32 - len), 0);
  }

  lemma ShortLetters(t: seq<Code>)
    requires t == HUFFMAN_TABLE
    ensures |t| == 257
    ensures Spells(t, 'a', 0x3, 5) && Spells(t, 'c', 0x4, 5) && Spells(t, 'e', 0x5, 5) && Spells(t, 'o', 0x7, 5)
  {
    hide Spells;
    Pow2Of8();
    Letter(t, 'a', 0x3, 5);
    Letter(t, 'c', 0x4, 5);
    Letter(t, 'e', 0x5, 5);
    Letter(t, 'o', 0x7, 5);
  }

  lemma LongLetters(t: seq<Code>)
    requires t == HUFFMAN_TABLE
    ensures |t| == 257
    ensures Spells(t, 'w', 0x78, 7) && Spells(t, 'x', 0x79, 7)
  {
    hide Spells;
    Pow2Of8();
    Letter(t, 'w', 0x78, 7);
    Letter(t, 'x', 0x79, 7);
  }

  lemma Letters(t: seq<Code>)
    requires t == HUFFMAN_TABLE
    ensures |t| == 257
    ensures Spells(t, '.', 0x17, 6) && Spells(t, 'l', 0x28, 6) && Spells(t, 'm', 0x29, 6) && Spells(t, 'p', 0x2b, 6)
  {
    hide Spells;
    Pow2Of8();
    Letter(t, '.', 0x17, 6);
    Letter(t, 'l', 0x28, 6);
    Letter(t, 'm', 0x29, 6);
    Letter(t, 'p', 0x2b, 6);
  }

  /** One more symbol appends its code to the number that the codes before it make. */
  lemma Spelled(t: seq<Code>, s: string, k: nat, c: nat, len: nat, q: nat, n: nat)
    requires Sized(t) && k < |s| && Spells(t, s[k], c, len)
    requires EncodedBits(t, Ascii(s[..k])) == BitsOf(q, n)
    ensures EncodedBits(t, Ascii(s[..k + 1])) == BitsOf(q * Pow2(len) + c, n + len)
  {
    hide BitsOf, Pow2, ShiftRight;
    BitsOfAppend(q, c, n, len);
    assert Ascii(s[..k + 1])[..k] == Ascii(s[..k]);
  }

  lemma FirstPart(t: seq<Code>, s: string)
    requires Sized(t) && t == HUFFMAN_TABLE && |s| == 15
    requires s[0] == 'w' && s[1] == 'w' && s[2] == 'w' && s[3] == '.' && s[4] == 'e'
    ensures EncodedBits(t, Ascii(s[..5])) == BitsOf(0xf1e3c2e5, 32)
  {
    hide HUFFMAN_TABLE, Spells, Sized, Ascii, Pow2, EncodedBits, BitsOf;
    Letters(t);
    ShortLetters(t);
    LongLetters(t);
    Pow2Of8();
    NothingSpelled(t, s);
    Spelled(t, s, 0, 0x78, 7, 0x0, 0);
    Spelled(t, s, 1, 0x78, 7, 0x78, 7);
    Spelled(t, s, 2, 0x78, 7, 0x3c78, 14);
    Spelled(t, s, 3, 0x17, 6, 0x1e3c78, 21);
    Spelled(t, s, 4, 0x5, 5, 0x78f1e17, 27);
  }

  lemma SecondPart(t: seq<Code>, s: string)
    requires Sized(t) && t == HUFFMAN_TABLE && |s| == 15
    requires s[5] == 'x' && s[6] == 'a' && s[7] == 'm' && s[8] == 'p' && s[9] == 'l'
    requires EncodedBits(t, Ascii(s[..5])) == BitsOf(0xf1e3c2e5, 32)
    ensures EncodedBits(t, Ascii(s[..10])) == BitsOf(0x3c78f0b97c8e9ae8, 62)
  {
    hide HUFFMAN_TABLE, Spells, Sized, Ascii, Pow2, EncodedBits, BitsOf;
    Letters(t);
    ShortLetters(t);
    LongLetters(t);
    Pow2Of8();
    Spelled(t, s, 5, 0x79, 7, 0xf1e3c2e5, 32);
    Spelled(t, s, 6, 0x3, 5, 0x78f1e172f9, 39);
    Spelled(t, s, 7, 0x29, 6, 0xf1e3c2e5f23, 44);
    Spelled(t, s, 8, 0x2b, 6, 0x3c78f0b97c8e9, 50);
    Spelled(t, s, 9, 0x28, 6, 0xf1e3c2e5f23a6b, 56);
  }

  lemma ThirdPart(t: seq<Code>, s: string)
    requires Sized(t) && t == HUFFMAN_TABLE && |s| == 15
    requires s[10] == 'e' && s[11] == '.' && s[12] == 'c' && s[13] == 'o' && s[14] == 'm'
    requires EncodedBits(t, Ascii(s[..10])) == BitsOf(0x3c78f0b97c8e9ae8, 62)
    ensures EncodedBits(t, Ascii(s[..15])) == BitsOf(0x1e3c785cbe474d7415721e9, 89)
  {
    hide HUFFMAN_TABLE, Spells, Sized, Ascii, Pow2, EncodedBits, BitsOf;
    Letters(t);
    ShortLetters(t);
    LongLetters(t);
    Pow2Of8();
    Spelled(t, s, 10, 0x5, 5, 0x3c78f0b97c8e9ae8, 62);
    Spelled(t, s, 11, 0x17, 6, 0x78f1e172f91d35d05, 67);
    Spelled(t, s, 12, 0x4, 5, 0x1e3c785cbe474d74157, 73);
    Spelled(t, s, 13, 0x7, 5, 0x3c78f0b97c8e9ae82ae4, 78);
    Spelled(t, s, 14, 0x29, 6, 0x78f1e172f91d35d055c87, 83);
  }

  lemma NothingSpelled(t: seq<Code>, s: string)
    requires Sized(t)
    ensures EncodedBits(t, Ascii(s[..0])) == BitsOf(0, 0)
  {
  }

  const AUTHORITY: seq<Byte> := [0xf1, 0xe3, 0xc2, 0xe5, 0xf2, 0x3a, 0x6b, 0xa0, 0xab, 0x90, 0xf4, 0xff]

  lemma AuthorityNumber()
    ensures FromBigEndian(AUTHORITY) == 0xf1e3c2e5f23a6ba0ab90f4ff
  {
    assert FromBigEndian(AUTHORITY[..3]) == 0xf1e3c2 by { Three(AUTHORITY, 0); }
    assert FromBigEndian(AUTHORITY[..6]) == 0xf1e3c2e5f23a by { Three(AUTHORITY, 3); }
    assert FromBigEndian(AUTHORITY[..9]) == 0xf1e3c2e5f23a6ba0ab by { Three(AUTHORITY, 6); }
    assert FromBigEndian(AUTHORITY[..12]) == 0xf1e3c2e5f23a6ba0ab90f4ff by { Three(AUTHORITY, 9); }
    assert AUTHORITY[..12] == AUTHORITY;
  }

  lemma Three(s: seq<Byte>, i: nat)
    requires i + 3 <= |s|
    ensures var a: nat, b: nat, c: nat := s[i], s[i + 1], s[i + 2];
      FromBigEndian(s[..i + 3]) == FromBigEndian(s[..i]) * 0x1000000 + a * 0x10000 + b * 0x100 + c
  {
    assert s[..i + 3][..i + 2] == s[..i + 2] && s[..i + 2][..i + 1] == s[..i + 1] && s[..i + 1][..i] == s[..i];
    assert FromBigEndian(s[..i + 1]) == FromBigEndian(s[..i]) * 0x100 + s[i];
    assert FromBigEndian(s[..i + 2]) == FromBigEndian(s[..i + 1]) * 0x100 + s[i + 1];
  }

  lemma AuthorityBits()
    ensures BytesToBits(AUTHORITY) == BitsOf(0x1e3c785cbe474d7415721e9, 89) + Ones(7)
  {
    hide AUTHORITY, BytesToBits, FromBigEndian, BitsOf, Ones;
    AuthorityNumber();
    AuthoritySize();
    FromBigEndianBits(AUTHORITY);
    Pow2Of8();
    BitsOfOnes(7);
    BitsOfAppend(0x1e3c785cbe474d7415721e9, 127, 89, 7);
  }

  lemma AuthoritySize()
    ensures |AUTHORITY| == 12
  {
  }

  lemma AuthoritySpelled(t: seq<Code>, s: string)
    requires Sized(t) && t == HUFFMAN_TABLE && s == "www.example.com"
    ensures EncodedBits(t, Ascii(s)) == BitsOf(0x1e3c785cbe474d7415721e9, 89)
  {
    hide HUFFMAN_TABLE, Sized, Ascii, EncodedBits, BitsOf;
    FirstPart(t, s);
    SecondPart(t, s);
    ThirdPart(t, s);
    assert s[..15] == s;
  }

  /** The value packs to these octets. */
  lemma AuthorityPacked(t: seq<Code>, s: string)
    requires Sized(t) && t == HUFFMAN_TABLE && s == "www.example.com"
    ensures PackedBytes(t, Ascii(s)) == AUTHORITY
  {
    hide HUFFMAN_TABLE, Sized, Ascii, EncodedBits, PackedBytes, AUTHORITY, BitsOf, BytesToBits, Ones;
    AuthoritySpelled(t, s);
    AuthorityBits();
    PackedUnique(t, Ascii(s), AUTHORITY, 7);
  }

  // ---------------------------------------------------------------- the request

  function Field(name: string, value: string): HeaderField {
    HeaderField(Ascii(name), Ascii(value), Default)
  }

  /** The request as the caller gives it. */
  function Request(): seq<HeaderField> {
    [Field(":method", "GET"), Field(":scheme", "http"), Field(":path", "/"), Field(":authority", "www.example.com")]
  }

  /** An entry with the name of entry `j` is in its group. */
  lemma StaticName(st: seq<Entry>, i: nat, j: nat)
    requires st == STATIC_TABLE && i < 61 && j < 61 && st[i].name == Ascii(StaticField(j).0)
    ensures GroupOf(i) == GroupOf(j)
  {
    hide StaticField, GroupOf, Ascii;
    SameGroup(i, j);
  }

  /** The three pairs of the request that are in the table have one index each. */
  lemma PairIndex(st: seq<Entry>, i: nat, j: nat)
    requires st == STATIC_TABLE && j in {1, 3, 5}
    requires TableAt(st, [], i) == Ok(Entry(Ascii(StaticField(j).0), Ascii(StaticField(j).1)))
    ensures i == j + 1
  {
    StaticName(st, i - 1, j);
    assert |st[i - 1].value| == |StaticField(i - 1).1|;
    assert StaticField(1).1 == "GET" && StaticField(2).1 == "POST" && StaticField(3).1 == "/";
    assert StaticField(4).1 == "/index.html" && StaticField(5).1 == "http" && StaticField(6).1 == "https";
  }

  /** The name of the last field has one index, and its pair none. */
  lemma AuthorityIndex(st: seq<Entry>, value: string, i: nat)
    requires st == STATIC_TABLE && value != "" && TableAt(st, [], i).Ok?
    requires TableAt(st, [], i).value.name == Ascii(":authority")
    ensures i == 1 && TableAt(st, [], i).value.value != Ascii(value)
  {
    assert StaticField(0) == (":authority", "");
    StaticName(st, i - 1, 0);
    assert |st[0].value| == 0;
  }

  /** An indexed field of the request. */
  lemma PairChosen(t: seq<Code>, st: seq<Entry>, rate: nat, s: Sent, j: nat)
    requires Sized(t) && st == STATIC_TABLE && j in {1, 3, 5} && Chosen(t, st, rate, [], s)
    requires s.field == Field(StaticField(j).0, StaticField(j).1)
    ensures s.rep == Indexed(j + 1) && RepBytes(t, s.field, s.rep) == [0x80 + j + 1] && !s.Inserted()
  {
    assert st[j] == s.field.ToEntry();
    hide StaticField, STATIC_TABLE;
    PairIndex(st, s.rep.index, j);
    PrefixMasks();
  }

  /** The field that is sent as a literal with an indexed name. */
  lemma AuthorityChosen(t: seq<Code>, st: seq<Entry>, s: Sent, value: string)
    requires Sized(t) && t == HUFFMAN_TABLE && st == STATIC_TABLE && value == "www.example.com"
    requires Chosen(t, st, MIN_HUFFMAN_RATE, [], s) && s.field == Field(":authority", value)
    ensures s.rep == Literal(1, false, true) && RepBytes(t, s.field, s.rep) == [0x41, 0x8c] + AUTHORITY
  {
    assert st[0].name == Ascii(":authority") && |st| == 61 by { assert StaticField(0) == (":authority", ""); }
    assert HasName(st, s.field.name);
    hide STATIC_TABLE, HUFFMAN_TABLE, StaticField, Ascii, Sized, EstimateString, AUTHORITY, RepBytes, PackedBytes;
    if s.rep.Indexed? {
      AuthorityIndex(st, value, s.rep.index);
      assert false;
    }
    AuthorityIndex(st, value, s.rep.nameIndex);
    AuthorityCoded(t, value);
    AuthorityBytes(t, s.field);
  }

  lemma AuthorityBytes(t: seq<Code>, f: HeaderField)
    requires Sized(t) && f.kind == Default && PackedBytes(t, f.value) == AUTHORITY
    ensures RepBytes(t, f, Literal(1, false, true)) == [0x41, 0x8c] + AUTHORITY
  {
    hide PackedBytes, AUTHORITY, Sized;
    AuthoritySize();
    PrefixMasks();
  }

  lemma AuthorityCoded(t: seq<Code>, value: string)
    requires Sized(t) && t == HUFFMAN_TABLE && value == "www.example.com"
    ensures EstimateString(t, MIN_HUFFMAN_RATE, Ascii(value)).encoded && PackedBytes(t, Ascii(value)) == AUTHORITY
  {
    hide HUFFMAN_TABLE, Sized, EstimateString, AUTHORITY, PackedBytes;
    AuthorityPacked(t, value);
    AuthoritySize();
    EncodedIff(t, MIN_HUFFMAN_RATE, Ascii(value));
  }

  /** The whole header block of the request. */
  const BLOCK: seq<Byte> := [0x82, 0x86, 0x84, 0x41, 0x8c] + AUTHORITY

  /**
   * With the program's own tables the first request of appendix C.4 of RFC 7541 is encoded to exactly the octets
   * given there, and these are decoded to the request; both tables then hold the authority.
   */
  lemma {:induction false} RequestEncoded(t: seq<Code>, st: seq<Entry>, block: seq<Sent>)
    requires t == HUFFMAN_TABLE && st == STATIC_TABLE && Sized(t)
    requires Emitted(t, st, MIN_HUFFMAN_RATE, [], INIT_TABLE_SIZE, block) && Fields(block) == Request()
    ensures BlockBytes(t, block) == BLOCK
    ensures TableAfter([], INIT_TABLE_SIZE, block) == [Request()[3].ToEntry()]
    ensures DecodeBlock(t, st, State([], DEFAULT_TABLE_SIZE), BLOCK) ==
      Decoded(Ok(Request()), State([Request()[3].ToEntry()], DEFAULT_TABLE_SIZE))
  {
    RequestChosen(t, st, block);
    hide HUFFMAN_TABLE, STATIC_TABLE, Sized, AUTHORITY, Ascii, Emitted, DecodeBlock, BlockBytes, TableAfter, PrefixFree;
    TableIsValid();
    StaticTableGrouped();
    RequestKept(t, st, block);
    BlockRoundTrip(t, st, MIN_HUFFMAN_RATE, [], INIT_TABLE_SIZE, block);
  }

  /** The last field of a block and those before it. */
  lemma LastSent(t: seq<Code>, st: seq<Entry>, rate: nat, max: nat, block: seq<Sent>, before: seq<Sent>, s: Sent)
    requires Sized(t) && block == before + [s]
    ensures Emitted(t, st, rate, [], max, block) <==>
      Emitted(t, st, rate, [], max, before) && Chosen(t, st, rate, TableAfter([], max, before), s)
    ensures BlockBytes(t, block) == BlockBytes(t, before) + RepBytes(t, s.field, s.rep)
    ensures TableAfter([], max, block) ==
      if s.Inserted() then EncoderInsert(TableAfter([], max, before), s.field.ToEntry(), max)
      else TableAfter([], max, before)
  {
    assert block[..|block| - 1] == before;
  }

  /** What is sent, field by field. */
  lemma {:induction false} RequestChosen(t: seq<Code>, st: seq<Entry>, block: seq<Sent>)
    requires t == HUFFMAN_TABLE && st == STATIC_TABLE && Sized(t)
    requires Emitted(t, st, MIN_HUFFMAN_RATE, [], INIT_TABLE_SIZE, block) && Fields(block) == Request()
    ensures |block| == 4 && BlockBytes(t, block) == BLOCK
    ensures block[0].rep == Indexed(2) && block[1].rep == Indexed(6) && block[2].rep == Indexed(4)
    ensures block[3].rep == Literal(1, false, true)
    ensures forall k :: 0 <= k < 4 ==> TableAfter([], INIT_TABLE_SIZE, block[..k]) == []
    ensures TableAfter([], INIT_TABLE_SIZE, block) == EncoderInsert([], Request()[3].ToEntry(), INIT_TABLE_SIZE)
  {
    hide HUFFMAN_TABLE, STATIC_TABLE, Sized, AUTHORITY, Ascii, Chosen, RepBytes, EncoderInsert;
    hide Emitted, BlockBytes, TableAfter;
    var rate, max := MIN_HUFFMAN_RATE, INIT_TABLE_SIZE;
    var none, one, two, three := block[..0], block[..1], block[..2], block[..3];
    assert block[0].field == Request()[0] && block[1].field == Request()[1];
    assert block[2].field == Request()[2] && block[3].field == Request()[3];
    LastSent(t, st, rate, max, block, three, block[3]);
    LastSent(t, st, rate, max, three, two, block[2]);
    LastSent(t, st, rate, max, two, one, block[1]);
    LastSent(t, st, rate, max, one, none, block[0]);
    NothingSent(t, st, rate, [], max, none);
    assert StaticField(1) == (":method", "GET") && StaticField(5) == (":scheme", "http");
    assert StaticField(3) == (":path", "/");
    PairChosen(t, st, rate, block[0], 1);
    PairChosen(t, st, rate, block[1], 5);
    PairChosen(t, st, rate, block[2], 3);
    AuthorityChosen(t, st, block[3], "www.example.com");
    assert BlockBytes(t, three) == [0x82, 0x86, 0x84];
  }

  lemma {:induction false} RequestKept(t: seq<Code>, st: seq<Entry>, block: seq<Sent>)
    requires t == HUFFMAN_TABLE && st == STATIC_TABLE && Sized(t) && |block| == 4 && Fields(block) == Request()
    requires block[0].rep == Indexed(2) && block[1].rep == Indexed(6) && block[2].rep == Indexed(4)
    requires block[3].rep == Literal(1, false, true)
    requires forall k :: 0 <= k < 4 ==> TableAfter([], INIT_TABLE_SIZE, block[..k]) == []
    requires TableAfter([], INIT_TABLE_SIZE, block) == EncoderInsert([], Request()[3].ToEntry(), INIT_TABLE_SIZE)
    ensures Reachable(st, [], INIT_TABLE_SIZE) && AllKept(st, [], INIT_TABLE_SIZE, block) && AllLegible(t, block)
    ensures TableAfter([], INIT_TABLE_SIZE, block) == [Request()[3].ToEntry()]
  {
    var value := Request()[3].value;
    assert block[3].field == Request()[3];
    AuthorityLegible(t, value);
    assert HasName(st, Ascii(":authority")) by {
      assert StaticField(0) == (":authority", "");
      assert st[0].name == Ascii(":authority");
    }
    hide HUFFMAN_TABLE, STATIC_TABLE, Sized, HasName, TableAfter, Readable;
    assert HpackSize(Request()[3].ToEntry()) <= INIT_TABLE_SIZE;
  }

  /** The octets of the value. */
  lemma AuthorityLetter(s: string, i: nat)
    requires s == "www.example.com" && i < 15
    ensures s[i] in {'w', '.', 'e', 'x', 'a', 'm', 'p', 'l', 'c', 'o'}
  {
  }

  lemma AuthorityLegible(t: seq<Code>, value: seq<Byte>)
    requires Sized(t) && t == HUFFMAN_TABLE && value == Ascii("www.example.com")
    ensures Readable(t, value)
  {
    hide HUFFMAN_TABLE, Sized, Pow2, ReadableFrom;
    var s := "www.example.com";
    Letters(t);
    ShortLetters(t);
    LongLetters(t);
    forall b | b in value ensures t[b].len <= 24 {
      var i :| 0 <= i < |value| && value[i] == b;
      AuthorityLetter(s, i);
      assert b == s[i] as int;
    }
    ShortCodesReadable(t, value, 0);
  }

  lemma RequestRoom()
    ensures AllFit(Request()) && NeedsAll(Request()) <= 4096
  {
    FourNeeds(Request());
  }

  lemma {:induction false} FourNeeds(fs: seq<HeaderField>)
    requires |fs| == 4
    ensures NeedsAll(fs) == Needs(fs[0]) + Needs(fs[1]) + Needs(fs[2]) + Needs(fs[3])
  {
    hide Needs;
    assert fs[..3][..2] == fs[..2] && fs[..2][..1] == fs[..1] && fs[..1][..0] == [];
    assert NeedsAll(fs[..1]) == Needs(fs[0]);
    assert NeedsAll(fs[..2]) == NeedsAll(fs[..1]) + Needs(fs[1]);
    assert NeedsAll(fs[..3]) == NeedsAll(fs[..2]) + Needs(fs[2]);
  }

  /** The encoder object itself, new and with the program's tables, writes these octets. */
  method EncodeRequest(enc: Encoder) returns (bytes: seq<Byte>, count: nat)
    requires enc.Valid() && enc.huffman == HUFFMAN_TABLE && enc.table.st == STATIC_TABLE
    requires enc.minHuffmanRate == MIN_HUFFMAN_RATE && enc.Dyn() == []
    modifies enc.table.dyn, enc.table.dyn.base
    ensures enc.Valid() && bytes == BLOCK && count == 4 && enc.Dyn() == [Request()[3].ToEntry()]
  {
    hide HUFFMAN_TABLE, STATIC_TABLE, Request, NeedsAll, Longest, BLOCK, AllFit, TableAfter, BlockBytes, Reachable;
    hide Chained, Separate, Joined, IndexedBy, Numbered, Distinct, Grouped, NewNames;
    RequestRoom();
    var buffers;
    ghost var block;
    buffers, count, block := enc.Encode(Request(), 4096);
    AllAreSent(enc.huffman, enc.table.st, enc.minHuffmanRate, [], INIT_TABLE_SIZE, Request(), 4096, block);
    RequestSent(enc.huffman, enc.table.st, block);
    bytes := Gather(buffers);
  }

  lemma RequestSent(t: seq<Code>, st: seq<Entry>, block: seq<Sent>)
    requires Sized(t) && t == HUFFMAN_TABLE && st == STATIC_TABLE && Fields(block) == Request()
    requires Longest(t, st, MIN_HUFFMAN_RATE, [], INIT_TABLE_SIZE, Request(), 4096, block)
    ensures |block| == 4 && BlockBytes(t, block) == BLOCK
    ensures TableAfter([], INIT_TABLE_SIZE, block) == [Request()[3].ToEntry()]
  {
    hide HUFFMAN_TABLE, STATIC_TABLE, DecodeBlock, TableAfter, BlockBytes, BLOCK;
    assert |Request()| == 4;
    RequestEncoded(t, st, block);
  }
}
