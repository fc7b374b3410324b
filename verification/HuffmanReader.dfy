/** Reading a Huffman-encoded string back, and exactly when that inverts the writer. */
module HuffmanReader {
  import opened Words
  import opened Bits
  import opened Huffman
  import opened HuffmanWriter
  import opened BitStreams
  import opened Outcomes

  /** A symbol and the length of its code. */
  datatype Match = Match(symbol: nat, len: nat)

  /**
   * Tries the code lengths in turn. Where the shift of the bit stream is undefined, or the trial runs
   * past the end of the string, the outcome is undefined.
   */
  function TryLengths(t: seq<Code>, lens: seq<nat>, bits: seq<bool>, pos: nat): (r: Outcome<Match>)
    requires pos <= |bits|
    ensures r.Ok? ==> r.value.symbol < |t| && r.value.len in lens && pos + r.value.len <= |bits|
  {
    if lens == [] then Throws(InvalidArgument)
    else if pos + lens[0] > |bits| || pos % 8 + lens[0] >= 32 then Undefined
    else
      match Decode(t, Code(LeftAligned(bits[pos..pos + lens[0]]), lens[0]))
      case Some(symbol) => Ok(Match(symbol, lens[0]))
      case None => TryLengths(t, lens[1..], bits, pos)
  }

  /** Fewer than eight bits are left and all of them are ones. */
  predicate AtPadding(bits: seq<bool>, pos: nat)
    requires pos <= |bits|
  {
    |bits| - pos < 8 && bits[pos..] == Ones(|bits| - pos)
  }

  /** The next symbol; none at the padding and at EOS. */
  function NextAt(t: seq<Code>, lens: seq<nat>, bits: seq<bool>, pos: nat): (r: Outcome<Option<Match>>)
    requires pos <= |bits| && |t| == 257
    ensures r.Ok? && r.value.Some? ==>
              r.value.value.symbol < 256 && r.value.value.len in lens && pos + r.value.value.len <= |bits|
  {
    if AtPadding(bits, pos) then Ok(None)
    else
      var m :- TryLengths(t, lens, bits, pos);
      if m.symbol == EOS then Ok(None) else Ok(Some(m))
  }

  /** What was read so far, in front of what is still to be read. */
  function Prepend(done: seq<Byte>, rest: Outcome<seq<Byte>>): Outcome<seq<Byte>> {
    if rest.Ok? then Ok(done + rest.value) else rest
  }

  /** The symbols from a position to the end of the string. */
  function ReadFrom(t: seq<Code>, lens: seq<nat>, bits: seq<bool>, pos: nat): Outcome<seq<Byte>>
    requires pos <= |bits| && |t| == 257 && 0 !in lens
    decreases |bits| - pos
  {
    if pos == |bits| then Ok([])
    else
      var next :- NextAt(t, lens, bits, pos);
      if next.None? then Ok([])
      else Prepend([next.value.symbol], ReadFrom(t, lens, bits, pos + next.value.len))
  }

  function ReadHuffman(t: seq<Code>, src: seq<Byte>): Outcome<seq<Byte>>
    requires |t| == 257
  {
    ReadFrom(t, LENGTHS, BytesToBits(src), 0)
  }

  /** Every code starts where the bit stream can read it: fewer than 32 bits from its octet boundary. */
  predicate ReadableFrom(t: seq<Code>, s: seq<Byte>, pos: nat)
    requires Sized(t)
  {
    s == [] || (pos % 8 + t[s[0]].len < 32 && ReadableFrom(t, s[1..], pos + t[s[0]].len))
  }

  predicate Readable(t: seq<Code>, s: seq<Byte>)
    requires Sized(t)
  {
    ReadableFrom(t, s, 0)
  }

  /** Codes of at most 24 bits can be read at every position. */
  lemma {:induction false} ShortCodesReadable(t: seq<Code>, s: seq<Byte>, pos: nat)
    requires Sized(t) && forall b :: b in s ==> t[b].len <= 24
    ensures ReadableFrom(t, s, pos)
  {
    if s != [] { ShortCodesReadable(t, s[1..], pos + t[s[0]].len); }
  }

  // ---------------------------------------------------------------- one symbol

  /** The left-aligned word of some bits is a code with those bits. */
  lemma AlignedCode(bs: seq<bool>)
    requires 5 <= |bs| <= 30
    ensures WellFormed(Code(LeftAligned(bs), |bs|)) && CodeBits(Code(LeftAligned(bs), |bs|)) == bs
  {
    var k, v := 32 - |bs|, ValueOf(bs);
    ValueOfBits(bs);
    Pow2Add(|bs|, k);
    Pow2Of32();
    MulMonotone(v, Pow2(|bs|) - 1, Pow2(k));
    MulLess(Pow2(|bs|), Pow2(k));
    MulNonNegative(v, Pow2(k));
    DivModUnique(v, Pow2(k), 0);
  }

  /** The bits of a code give back its word. */
  lemma AlignedInverse(c: Code)
    requires WellFormed(c)
    ensures LeftAligned(CodeBits(c)) == c.bits
  {
    var k := 32 - c.len;
    Pow2Of32();
    Pow2Quotient(c.bits, c.len, k);
    DivModLaw(c.bits, Pow2(k));
    ValueOfBitsOf(c.bits / Pow2(k), c.len);
  }

  ghost predicate Ascending(lens: seq<nat>) {
    && (forall i :: 0 <= i < |lens| ==> 5 <= lens[i] <= 30)
    && (forall i, j :: 0 <= i < j < |lens| ==> lens[i] < lens[j])
  }

  lemma LengthsAscend()
    ensures Ascending(LENGTHS)
  {
  }

  /** What a trial of `bs` finds. */
  function Lookup(t: seq<Code>, bs: seq<bool>): Option<nat>
    requires |bs| <= 32
  {
    Decode(t, Code(LeftAligned(bs), |bs|))
  }

  /** Some bits are the code of `s`, and no shorter part of them is a code. */
  ghost predicate Spells(t: seq<Code>, bs: seq<bool>, s: nat) {
    && 5 <= |bs| <= 30
    && Lookup(t, bs) == Some(s)
    && (forall len :: 5 <= len < |bs| ==> Lookup(t, bs[..len]) == None)
  }

  /** Every code of a valid table spells its symbol: ascending trial lengths cannot stop early. */
  lemma CodesSpell(t: seq<Code>, s: nat)
    requires ValidTable(t) && s < 257
    ensures Spells(t, CodeBits(t[s]), s)
  {
    var bs := CodeBits(t[s]);
    AlignedInverse(t[s]);
    DecodeFindsSymbol(t, s);
    forall len | 5 <= len < |bs|
      ensures Lookup(t, bs[..len]) == None
    {
      AlignedCode(bs[..len]);
      DecodeRejectsPrefix(t, s, Code(LeftAligned(bs[..len]), len));
    }
  }

  /** The trial rejects every shorter length and stops at the code of the symbol. */
  lemma {:induction false} TryFindsSymbol(t: seq<Code>, lens: seq<nat>, bits: seq<bool>, pos: nat, bs: seq<bool>,
      s: nat)
    requires Spells(t, bs, s) && Ascending(lens) && |bs| in lens
    requires pos + |bs| <= |bits| && bits[pos..pos + |bs|] == bs
    ensures TryLengths(t, lens, bits, pos) == if pos % 8 + |bs| < 32 then Ok(Match(s, |bs|)) else Undefined
  {
    PrefixOfCode(bits, pos, lens[0], bs);
    if lens[0] != |bs| {
      assert Lookup(t, bs[..lens[0]]) == None;
      TryFindsSymbol(t, lens[1..], bits, pos, bs, s);
    }
  }

  lemma PrefixOfCode(bits: seq<bool>, pos: nat, len: nat, code: seq<bool>)
    requires pos + |code| <= |bits| && bits[pos..pos + |code|] == code
    ensures len <= |code| ==> bits[pos..pos + len] == code[..len]
  {
  }

  /** What reading back a symbol rests on. */
  ghost predicate Recognised(t: seq<Code>, lens: seq<nat>, bs: seq<bool>, s: nat) {
    && Spells(t, bs, s)
    && |bs| in lens
    && (|bs| <= 7 ==> bs != Ones(|bs|))
  }

  /** Every octet is recognised by its code. */
  ghost predicate Recognises(t: seq<Code>, lens: seq<nat>) {
    && Sized(t)
    && Ascending(lens)
    && (forall s :: 0 <= s < 256 ==> KnowsSymbol(t, lens, s))
  }

  ghost predicate KnowsSymbol(t: seq<Code>, lens: seq<nat>, s: nat)
    requires Sized(t) && s < 257
  {
    Recognised(t, lens, CodeBits(t[s]), s)
  }

  lemma ValidTableRecognises(t: seq<Code>)
    requires ValidTable(t)
    ensures Recognises(t, LENGTHS)
  {
    LengthsAscend();
    forall s | 0 <= s < 256
      ensures KnowsSymbol(t, LENGTHS, s)
    {
      CodesSpell(t, s);
    }
  }

  /** A symbol that is still to be read is not taken for padding. */
  lemma CodeIsNotPadding(bits: seq<bool>, pos: nat, bs: seq<bool>)
    requires pos + |bs| <= |bits| && bits[pos..pos + |bs|] == bs && 0 < |bs| && (|bs| <= 7 ==> bs != Ones(|bs|))
    ensures !AtPadding(bits, pos)
  {
    assert AtPadding(bits, pos) ==> bits[pos..pos + |bs|] == Ones(|bs|);
  }

  // ---------------------------------------------------------------- the whole string

  /**
   * From any boundary between codes, the reader returns `todo`, and then whatever it makes of the bits behind
   * it, when its codes are readable there, and is undefined otherwise.
   */
  lemma {:induction false} ReadsBack(t: seq<Code>, lens: seq<nat>, bits: seq<bool>, pos: nat, todo: seq<Byte>,
      tail: seq<bool>)
    requires Recognises(t, lens) && pos <= |bits|
    requires bits[pos..] == EncodedBits(t, todo) + tail
    ensures ReadFrom(t, lens, bits, pos) ==
      if ReadableFrom(t, todo, pos) then Prepend(todo, ReadFrom(t, lens, bits, |bits| - |tail|)) else Undefined
    decreases |todo|
  {
    if todo == [] {
      PrependNothing(ReadFrom(t, lens, bits, pos));
    } else {
      hide ReadFrom, EncodedBits;
      var s, rest, next := ReadsOne(t, lens, bits, pos, todo, tail);
      ReadsBack(t, lens, bits, next, rest, tail);
      PrependTwice([s], rest, ReadFrom(t, lens, bits, |bits| - |tail|));
    }
  }

  lemma PrependNothing(r: Outcome<seq<Byte>>)
    ensures Prepend([], r) == r
  {
    if r.Ok? { assert [] + r.value == r.value; }
  }

  lemma PrependTwice(a: seq<Byte>, b: seq<Byte>, r: Outcome<seq<Byte>>)
    ensures Prepend(a, Prepend(b, r)) == Prepend(a + b, r)
  {
    if r.Ok? { ConcatAssoc(a, b, r.value); }
  }

  /** One octet: whether it can be read, and how the outcome depends on the rest. */
  lemma ReadsOne(t: seq<Code>, lens: seq<nat>, bits: seq<bool>, pos: nat, todo: seq<Byte>, tail: seq<bool>)
    returns (s: Byte, rest: seq<Byte>, next: nat)
    requires Recognises(t, lens) && todo != [] && pos <= |bits|
    requires bits[pos..] == EncodedBits(t, todo) + tail
    ensures todo == [s] + rest && pos < next <= |bits|
    ensures bits[next..] == EncodedBits(t, rest) + tail
    ensures var fits := pos % 8 + (next - pos) < 32;
            && (ReadableFrom(t, todo, pos) <==> fits && ReadableFrom(t, rest, next))
            && (!fits ==> ReadFrom(t, lens, bits, pos) == Undefined)
            && (fits ==> var later := ReadFrom(t, lens, bits, next);
                         ReadFrom(t, lens, bits, pos) == Prepend([s], later))
  {
    hide ReadFrom, ReadableFrom, EncodedBits, CodeBits;
    var bs;
    s, rest, bs := FirstCode(t, bits, pos, todo, tail);
    next := pos + |bs|;
    ReadsKnown(t, lens, bits, pos, bs, s);
    ReadableStep(t, todo, pos, s, rest);
  }

  lemma ReadableStep(t: seq<Code>, todo: seq<Byte>, pos: nat, s: Byte, rest: seq<Byte>)
    requires Sized(t) && todo == [s] + rest
    ensures ReadableFrom(t, todo, pos) <==> pos % 8 + t[s].len < 32 && ReadableFrom(t, rest, pos + t[s].len)
  {
    assert todo[1..] == rest;
  }

  lemma ReadsPadding(t: seq<Code>, lens: seq<nat>, bits: seq<bool>, pos: nat, pad: nat)
    requires |t| == 257 && 0 !in lens && pad < 8 && pos <= |bits|
    requires bits[pos..] == [] + Ones(pad)
    ensures ReadFrom(t, lens, bits, pos) == Ok([])
  {
    assert [] + Ones(pad) == Ones(pad);
  }

  lemma ReadsKnown(t: seq<Code>, lens: seq<nat>, bits: seq<bool>, pos: nat, bs: seq<bool>, s: Byte)
    requires Recognises(t, lens) && bs == CodeBits(t[s])
    requires pos + |bs| <= |bits| && bits[pos..pos + |bs|] == bs
    ensures pos % 8 + |bs| >= 32 ==> ReadFrom(t, lens, bits, pos) == Undefined
    ensures pos % 8 + |bs| < 32 ==>
              var rest := ReadFrom(t, lens, bits, pos + |bs|);
              ReadFrom(t, lens, bits, pos) == Prepend([s], rest)
  {
    assert KnowsSymbol(t, lens, s);
    ReadsFirst(t, lens, bits, pos, bs, s);
  }

  lemma ReadsFirst(t: seq<Code>, lens: seq<nat>, bits: seq<bool>, pos: nat, bs: seq<bool>, s: Byte)
    requires |t| == 257 && Ascending(lens) && Recognised(t, lens, bs, s)
    requires pos + |bs| <= |bits| && bits[pos..pos + |bs|] == bs
    ensures pos % 8 + |bs| >= 32 ==> ReadFrom(t, lens, bits, pos) == Undefined
    ensures pos % 8 + |bs| < 32 ==>
              var rest := ReadFrom(t, lens, bits, pos + |bs|);
              ReadFrom(t, lens, bits, pos) == Prepend([s], rest)
  {
    CodeIsNotPadding(bits, pos, bs);
    TryFindsSymbol(t, lens, bits, pos, bs, s);
    ReadStep(t, lens, bits, pos, s, |bs|);
  }

  lemma ReadStep(t: seq<Code>, lens: seq<nat>, bits: seq<bool>, pos: nat, s: Byte, len: nat)
    requires |t| == 257 && 0 !in lens && 0 < len && pos + len <= |bits| && !AtPadding(bits, pos)
    requires TryLengths(t, lens, bits, pos) == if pos % 8 + len < 32 then Ok(Match(s, len)) else Undefined
    ensures pos % 8 + len >= 32 ==> ReadFrom(t, lens, bits, pos) == Undefined
    ensures pos % 8 + len < 32 ==>
              var rest := ReadFrom(t, lens, bits, pos + len);
              ReadFrom(t, lens, bits, pos) == Prepend([s], rest)
  {
  }

  /** The first code of what is to be read, and what follows it. */
  lemma FirstCode(t: seq<Code>, bits: seq<bool>, pos: nat, todo: seq<Byte>, tail: seq<bool>)
    returns (s: Byte, rest: seq<Byte>, bs: seq<bool>)
    requires Sized(t) && todo != [] && pos <= |bits|
    requires bits[pos..] == EncodedBits(t, todo) + tail
    ensures todo == [s] + rest && s == todo[0] && rest == todo[1..] && bs == CodeBits(t[s]) && |bs| == t[s].len
    ensures pos + |bs| <= |bits| && bits[pos..pos + |bs|] == bs
    ensures bits[pos + |bs|..] == EncodedBits(t, rest) + tail
  {
    s, rest := todo[0], todo[1..];
    bs := CodeBits(t[s]);
    assert todo == [s] + rest;
    EncodedBitsConcat(t, [s], rest);
    EncodedBitsOne(t, s);
    ConcatAssoc(bs, EncodedBits(t, rest), tail);
    SplitAt(bits, pos, bs, EncodedBits(t, rest) + tail);
  }

  lemma SplitAt<T>(s: seq<T>, pos: nat, a: seq<T>, b: seq<T>)
    requires pos <= |s| && s[pos..] == a + b
    ensures pos + |a| <= |s| && s[pos..pos + |a|] == a && s[pos + |a|..] == b
  {
    assert |s| == pos + |a| + |b|;
    forall i | 0 <= i < |a| ensures s[pos + i] == a[i] { assert s[pos..][i] == (a + b)[i]; }
    forall i | 0 <= i < |b| ensures s[pos + |a| + i] == b[i] { assert s[pos..][|a| + i] == (a + b)[|a| + i]; }
  }

  /** Reading inverts writing if and only if every code starts where it can be read. */
  lemma HuffmanRoundTrip(t: seq<Code>, s: seq<Byte>)
    requires ValidTable(t)
    ensures ReadHuffman(t, PackedBytes(t, s)) == Ok(s) <==> Readable(t, s)
    ensures !Readable(t, s) ==> ReadHuffman(t, PackedBytes(t, s)) == Undefined
  {
    hide PackedBytes, BytesToBits, EncodedBits, ReadFrom, ReadableFrom, PrefixFree, Recognises;
    PackedBits(t, s);
    var bits := BytesToBits(PackedBytes(t, s));
    assert bits[0..] == bits;
    ValidTableRecognises(t);
    var pad := PadLength(|EncodedBits(t, s)|);
    ReadsBack(t, LENGTHS, bits, 0, s, Ones(pad));
    assert bits[|bits| - pad..] == [] + Ones(pad);
    ReadsPadding(t, LENGTHS, bits, |bits| - pad, pad);
    assert s + [] == s;
  }

  // ---------------------------------------------------------------- whatever is accepted

  /** The string may end here: with fewer than eight ones, or with a readable EOS and anything behind it. */
  ghost predicate Ending(t: seq<Code>, bits: seq<bool>, n: nat)
    requires Sized(t) && n <= |bits|
  {
    || AtPadding(bits, n)
    || (n % 8 + t[EOS].len < 32 && n + t[EOS].len <= |bits| && bits[n..n + t[EOS].len] == CodeBits(t[EOS]))
  }

  /** From a position on the bits are the codes of the string, all of them readable, and an ending. */
  ghost predicate Encodes(t: seq<Code>, bits: seq<bool>, pos: nat, s: seq<Byte>)
    requires Sized(t) && pos <= |bits|
  {
    var n := pos + |EncodedBits(t, s)|;
    n <= |bits| && bits[pos..n] == EncodedBits(t, s) && ReadableFrom(t, s, pos) && Ending(t, bits, n)
  }

  lemma FoundIsCode(t: seq<Code>, bs: seq<bool>)
    requires Sized(t) && 5 <= |bs| <= 30 && Lookup(t, bs).Some?
    ensures CodeBits(t[Lookup(t, bs).value]) == bs
  {
    hide CodeBits, LeftAligned;
    AlignedCode(bs);
  }

  /** A trial that finds a symbol found its code, where it can be read. */
  lemma {:induction false} TrySound(t: seq<Code>, lens: seq<nat>, bits: seq<bool>, pos: nat)
    requires pos <= |bits| && Sized(t) && forall len :: len in lens ==> 5 <= len <= 30
    requires TryLengths(t, lens, bits, pos).Ok?
    ensures var m := TryLengths(t, lens, bits, pos).value;
      bits[pos..pos + m.len] == CodeBits(t[m.symbol]) && pos % 8 + m.len < 32 && t[m.symbol].len == m.len
  {
    hide CodeBits, LeftAligned, Decode;
    assert lens[0] in lens;
    var part := bits[pos..pos + lens[0]];
    if Lookup(t, part).Some? {
      FoundIsCode(t, part);
    } else {
      assert forall len :: len in lens[1..] ==> len in lens;
      TrySound(t, lens[1..], bits, pos);
    }
  }

  lemma EncodedFirst(t: seq<Code>, b: Byte, rest: seq<Byte>)
    requires Sized(t)
    ensures EncodedBits(t, [b] + rest) == CodeBits(t[b]) + EncodedBits(t, rest)
  {
    EncodedBitsConcat(t, [b], rest);
    EncodedBitsOne(t, b);
  }

  lemma {:induction false} ReadSound(t: seq<Code>, lens: seq<nat>, bits: seq<bool>, pos: nat)
    requires pos <= |bits| && Sized(t) && forall len :: len in lens ==> 5 <= len <= 30
    requires ReadFrom(t, lens, bits, pos).Ok?
    ensures Encodes(t, bits, pos, ReadFrom(t, lens, bits, pos).value)
    decreases |bits| - pos
  {
    hide TryLengths, CodeBits, Encodes, Ending, AtPadding;
    if pos == |bits| || AtPadding(bits, pos) {
      EndsHere(t, bits, pos);
    } else {
      TrySound(t, lens, bits, pos);
      var m := TryLengths(t, lens, bits, pos).value;
      if m.symbol == EOS {
        EndsAtEos(t, bits, pos);
      } else {
        ReadSound(t, lens, bits, pos + m.len);
        EncodesFirst(t, bits, pos, m.symbol, ReadFrom(t, lens, bits, pos + m.len).value);
      }
    }
  }

  lemma EndsHere(t: seq<Code>, bits: seq<bool>, pos: nat)
    requires Sized(t) && pos <= |bits| && (pos == |bits| || AtPadding(bits, pos))
    ensures Encodes(t, bits, pos, [])
  {
  }

  lemma EndsAtEos(t: seq<Code>, bits: seq<bool>, pos: nat)
    requires Sized(t) && pos % 8 + t[EOS].len < 32 && pos + t[EOS].len <= |bits|
    requires bits[pos..pos + t[EOS].len] == CodeBits(t[EOS])
    ensures Encodes(t, bits, pos, [])
  {
    hide CodeBits;
  }

  lemma EncodesFirst(t: seq<Code>, bits: seq<bool>, pos: nat, b: Byte, rest: seq<Byte>)
    requires Sized(t) && pos + t[b].len <= |bits| && bits[pos..pos + t[b].len] == CodeBits(t[b])
    requires pos % 8 + t[b].len < 32 && Encodes(t, bits, pos + t[b].len, rest)
    ensures Encodes(t, bits, pos, [b] + rest)
  {
    hide CodeBits, EncodedBits, Ending, ReadableFrom;
    EncodedFirst(t, b, rest);
    ReadableStep(t, [b] + rest, pos, b, rest);
    var k, n := pos + t[b].len, |EncodedBits(t, rest)|;
    assert bits[pos..k + n] == bits[pos..k] + bits[k..k + n];
  }

  lemma EndingRead(t: seq<Code>, bits: seq<bool>, n: nat)
    requires ValidTable(t) && n <= |bits| && Ending(t, bits, n)
    ensures ReadFrom(t, LENGTHS, bits, n) == Ok([])
  {
    if n < |bits| && !AtPadding(bits, n) {
      hide CodeBits, TryLengths, Spells, AtPadding, PrefixFree;
      LengthsAscend();
      CodesSpell(t, EOS);
      TryFindsSymbol(t, LENGTHS, bits, n, CodeBits(t[EOS]), EOS);
    }
  }

  /**
   * Whatever octets are read: the reader returns a string if and only if their bits are its codes, each
   * readable where it starts, followed by fewer than eight ones or by a readable EOS.
   */
  lemma AcceptedIff(t: seq<Code>, src: seq<Byte>, s: seq<Byte>)
    requires ValidTable(t)
    ensures ReadHuffman(t, src) == Ok(s) <==> Encodes(t, BytesToBits(src), 0, s)
  {
    hide ReadFrom, ReadableFrom, Ending, EncodedBits, BytesToBits, PrefixFree;
    var bits := BytesToBits(src);
    if ReadHuffman(t, src) == Ok(s) {
      hide Encodes;
      LengthsAscend();
      ReadSound(t, LENGTHS, bits, 0);
    }
    if Encodes(t, bits, 0, s) {
      var n := |EncodedBits(t, s)|;
      assert bits[0..] == bits[0..n] + bits[n..];
      ValidTableRecognises(t);
      ReadsBack(t, LENGTHS, bits, 0, s, bits[n..]);
      EndingRead(t, bits, n);
      assert s + [] == s;
    }
  }
}
