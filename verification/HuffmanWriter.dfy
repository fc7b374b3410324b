/** The 64-bit accumulator that writes Huffman codes, and the bit string it must produce. */
module HuffmanWriter {
  import opened Words
  import opened Bits
  import opened Huffman

  /** The ones that fill the last octet. */
  function PadLength(n: nat): (pad: nat)
    ensures pad < 8 && (n + pad) % 8 == 0
  {
    (8 - n % 8) % 8
  }

  lemma PadUnique(n: nat, pad: nat)
    requires pad < 8 && (n + pad) % 8 == 0
    ensures pad == PadLength(n)
  {
  }

  /** What an encoded string is: its codes, padded with ones to whole octets. */
  ghost function PackedBytes(t: seq<Code>, s: seq<Byte>): (p: seq<Byte>)
    requires Sized(t)
  {
    var bits := EncodedBits(t, s);
    BitsToBytes(bits + Ones(PadLength(|bits|)))
  }

  lemma PackedBits(t: seq<Code>, s: seq<Byte>)
    requires Sized(t)
    ensures var bits := EncodedBits(t, s);
            BytesToBits(PackedBytes(t, s)) == bits + Ones(PadLength(|bits|))
  {
    var bits := EncodedBits(t, s);
    BitsToBytesInverse(bits + Ones(PadLength(|bits|)));
  }

  /** The size of the encoded string is the estimate, rounded up to octets. */
  lemma PackedSize(t: seq<Code>, s: seq<Byte>)
    requires Sized(t) && EstimateLen(t, s) + 8 <= TWO_64
    ensures |PackedBytes(t, s)| == CeilOrder2(EstimateLen(t, s), 3) / 8
    ensures |PackedBytes(t, s)| == (EstimateLen(t, s) + 7) / 8
  {
    EstimateIsLength(t, s);
    Pow2Of8();
    CeilOrder2Rounds(EstimateLen(t, s), 3);
  }

  /** A packed string is known by its bits. */
  lemma PackedUnique(t: seq<Code>, s: seq<Byte>, out: seq<Byte>, pad: nat)
    requires Sized(t) && pad < 8 && BytesToBits(out) == EncodedBits(t, s) + Ones(pad)
    ensures out == PackedBytes(t, s)
  {
    var n := |EncodedBits(t, s)|;
    assert n + pad == 8 * |out|;
    PadUnique(n, pad);
    PackedBits(t, s);
    BytesToBitsInjective(out, PackedBytes(t, s));
  }

  // ---------------------------------------------------------------- the steps of the accumulator

  /** Flushing whole octets: the first of the big-endian word, and the bits that stay. */
  lemma FlushStep(val: nat, len: nat)
    requires len <= 64
    ensures BytesToBits(BigEndian(ShiftLeft(val, 64 - len, 64), 8)[..len / 8]) + BitsOf(val, len - len / 8 * 8)
         == BitsOf(val, len)
  {
    var word, ready := ShiftLeft(val, 64 - len, 64), len / 8;
    BigEndianBits(word, 8);
    BytesToBitsSlice(BigEndian(word, 8), 0, ready);
    BitsOfShiftLeft(val, 64 - len, 64);
    BitsOfLow(val, len, len - ready * 8);
    assert BigEndian(word, 8)[0..ready] == BigEndian(word, 8)[..ready];
    assert BitsOf(word, 64)[0..8 * ready] == BitsOf(val, len)[..8 * ready];
  }

  /** Shifting in `k` bits: stale bits above the accumulated ones do not matter. */
  lemma OrAppend(val: nat, c: nat, len: nat, k: nat)
    requires c < Pow2(k) && len + k <= 64
    ensures BitsOf(BitOr(ShiftLeft(val, k, 64), c), len + k) == BitsOf(val, len) + BitsOf(c, k)
  {
    ShiftLeftIsMultiple(val, k, 64);
    OrAppendAt(ShiftLeft(val, k, 64), c, val % Pow2(64 - k), len, k);
    BitsOfMod(val, len, 64 - k);
  }

  lemma OrAppendAt(word: nat, c: nat, kept: nat, len: nat, k: nat)
    requires word == kept * Pow2(k) && c < Pow2(k)
    ensures BitsOf(BitOr(word, c), len + k) == BitsOf(kept, len) + BitsOf(c, k)
  {
    OrBelow(word, c, kept, k);
    BitsOfAppend(kept, c, len, k);
  }

  /** Appending a code. */
  lemma AppendStep(val: nat, len: nat, c: Code)
    requires WellFormed(c) && len + c.len <= 64
    ensures BitsOf(BitOr(ShiftLeft(val, c.len, 64), ShiftRight(c.bits, 32 - c.len)), len + c.len)
         == BitsOf(val, len) + CodeBits(c)
  {
    Pow2Of32();
    Pow2Quotient(c.bits, c.len, 32 - c.len);
    OrAppend(val, ShiftRight(c.bits, 32 - c.len), len, c.len);
  }

  /** The tail: the remaining bits and ones up to the octet boundary. */
  lemma TailStep(word: nat, val: nat, len: nat, n: nat)
    requires 0 < len <= 64 && n <= 8 && 0 <= 8 * n - len < 8
    requires BitsOf(word, 64) == BitsOf(val, len) + Ones(64 - len)
    ensures BytesToBits(BigEndian(word, 8)[..n]) == BitsOf(val, len) + Ones(8 * n - len)
  {
    BigEndianBits(word, 8);
    BytesToBitsSlice(BigEndian(word, 8), 0, n);
    assert BigEndian(word, 8)[0..n] == BigEndian(word, 8)[..n];
    assert (BitsOf(val, len) + Ones(64 - len))[0..8 * n] == BitsOf(val, len) + Ones(8 * n - len);
  }

  lemma TailWord(val: nat, len: nat)
    requires 0 < len <= 64
    ensures BitsOf(BitOr(ShiftLeft(val, 64 - len, 64), MakeMask(64 - len, 64)), 64)
         == BitsOf(val, len) + Ones(64 - len)
  {
    hide BitOr, ShiftLeft, BitsOf, Ones;
    OrAppend(val, Pow2(64 - len) - 1, len, 64 - len);
    BitsOfOnes(64 - len);
  }

  lemma CeilBytes(len: nat)
    requires len <= 64
    ensures CeilOrder2(len, 3) / 8 <= 8 && 0 <= 8 * (CeilOrder2(len, 3) / 8) - len < 8
  {
    Pow2Of8();
    CeilOrder2Rounds(len, 3);
  }

  // ---------------------------------------------------------------- the words of the writer

  /** The complete octets at the top of the accumulator. */
  method ReadyBytes(val: nat, len: nat) returns (ready: seq<Byte>)
    requires len <= 64
    ensures |ready| == len / 8
    ensures BytesToBits(ready) + BitsOf(val, len - |ready| * 8) == BitsOf(val, len)
  {
    FlushStep(val, len);
    var big := BigEndian(ShiftLeft(val, 64 - len, 64), 8);
    ready := big[..len / 8];
  }

  method AppendCode(val: nat, ghost len: nat, c: Code) returns (v: nat)
    requires WellFormed(c) && len + c.len <= 64
    ensures BitsOf(v, len + c.len) == BitsOf(val, len) + CodeBits(c)
  {
    AppendStep(val, len, c);
    v := ShiftLeft(val, c.len, 64);
    v := BitOr(v, ShiftRight(c.bits, 32 - c.len));
  }

  /** One code: flushes the complete octets when the code does not fit beside them. */
  method Accept(val: nat, len: nat, code: Code) returns (ready: seq<Byte>, val': nat, len': nat)
    requires len <= 64 && WellFormed(code)
    ensures len' <= 64
    ensures BytesToBits(ready) + BitsOf(val', len') == BitsOf(val, len) + CodeBits(code)
  {
    ready := [];
    len' := len;
    if 64 - len < code.len {
      ready := ReadyBytes(val, len);
      len' := len - |ready| * 8;
    }
    ghost var kept := BitsOf(val, len');
    assert BytesToBits(ready) + kept == BitsOf(val, len);
    val' := AppendCode(val, len', code);
    len' := len' + code.len;
    ConcatAssoc(BytesToBits(ready), kept, CodeBits(code));
  }

  method TailBytes(val: nat, len: nat) returns (tail: seq<Byte>)
    requires 0 < len <= 64
    ensures 0 <= 8 * |tail| - len < 8
    ensures BytesToBits(tail) == BitsOf(val, len) + Ones(8 * |tail| - len)
  {
    CeilBytes(len);
    TailWord(val, len);
    var bitsLeft := 64 - len;
    var v := ShiftLeft(val, bitsLeft, 64);
    v := BitOr(v, MakeMask(bitsLeft, 64));
    var n := CeilOrder2(len, 3) / 8;
    TailStep(v, val, len, n);
    tail := BigEndian(v, 8)[..n];
  }
}
