/** Huffman codes as h2pp stores them, for any code table; the table itself is in HuffmanTable. */
module Huffman {
  import opened Words
  import opened Bits
  import opened Outcomes

  /** A code of `len` bits, left-aligned in a 32-bit word. */
  datatype Code = Code(bits: nat, len: nat)

  const EOS := 256

  /** The code lengths that occur, in the order in which the reader tries them. */
  const LENGTHS: seq<nat> := [5, 6, 7, 8, 10, 11, 12, 13, 14, 15, 19, 20, 21, 22, 23, 24, 25, 26, 27, 28, 30]

  ghost predicate WellFormed(c: Code) {
    && 5 <= c.len <= 30
    && c.bits < TWO_32
    && c.bits % Pow2(32 - c.len) == 0
  }

  /** A code for each of the 256 octets and EOS, each of 5 to 30 bits. */
  predicate Sized(t: seq<Code>) {
    && |t| == 257
    && (forall i :: 0 <= i < |t| ==> 5 <= t[i].len <= 30)
  }

  /** The bits that the writer emits for a code. */
  function CodeBits(c: Code): (bs: seq<bool>)
    requires c.len <= 32
    ensures |bs| == c.len
  {
    BitsOf(ShiftRight(c.bits, 32 - c.len), c.len)
  }

  /** No code is a prefix of another one. */
  ghost predicate PrefixFree(t: seq<Code>)
    requires Sized(t)
  {
    forall i, j :: 0 <= i < |t| && 0 <= j < |t| && i != j ==> !(CodeBits(t[i]) <= CodeBits(t[j]))
  }

  /** What the writer needs of a table. */
  ghost predicate Writable(t: seq<Code>) {
    && Sized(t)
    && (forall i :: 0 <= i < |t| ==> WellFormed(t[i]))
  }

  /** What encoding and decoding need of a table. */
  ghost predicate ValidTable(t: seq<Code>) {
    && Writable(t)
    && (forall i :: 0 <= i < |t| ==> t[i].len in LENGTHS)
    && PrefixFree(t)
    && (forall i :: 0 <= i < |t| && t[i].len <= 7 ==> CodeBits(t[i]) != Ones(t[i].len))
  }

  /** The symbol with exactly this code, found by search. */
  function Decode(t: seq<Code>, code: Code): (r: Option<nat>)
    ensures r.Some? ==> r.value < |t| && t[r.value] == code
    ensures r.None? ==> code !in t
  {
    if t == [] then None
    else if t[|t| - 1] == code then Some(|t| - 1)
    else Decode(t[..|t| - 1], code)
  }

  /** The bit string of an encoded octet string: its codes, one after the other. */
  ghost function EncodedBits(t: seq<Code>, s: seq<Byte>): seq<bool>
    requires Sized(t)
  {
    if s == [] then [] else EncodedBits(t, s[..|s| - 1]) + CodeBits(t[s[|s| - 1]])
  }

  /** The sum of the code lengths, as the encoder folds it. */
  function EstimateLen(t: seq<Code>, s: seq<Byte>): nat
    requires |t| == 257
  {
    if s == [] then 0 else EstimateLen(t, s[..|s| - 1]) + t[s[|s| - 1]].len
  }

  // ---------------------------------------------------------------- properties

  lemma {:induction false} EstimateIsLength(t: seq<Code>, s: seq<Byte>)
    requires Sized(t)
    ensures EstimateLen(t, s) == |EncodedBits(t, s)|
    ensures 5 * |s| <= EstimateLen(t, s) <= 30 * |s|
  {
    if s != [] { EstimateIsLength(t, s[..|s| - 1]); }
  }

  lemma {:induction false} EncodedBitsConcat(t: seq<Code>, a: seq<Byte>, b: seq<Byte>)
    requires Sized(t)
    ensures EncodedBits(t, a + b) == EncodedBits(t, a) + EncodedBits(t, b)
  {
    if b == [] {
      assert a + b == a;
    } else {
      var b', c := b[..|b| - 1], b[|b| - 1];
      assert (a + b)[..|a + b| - 1] == a + b';
      EncodedBitsConcat(t, a, b');
      ConcatAssoc(EncodedBits(t, a), EncodedBits(t, b'), CodeBits(t[c]));
    }
  }

  lemma EncodedBitsOne(t: seq<Code>, b: Byte)
    requires Sized(t)
    ensures EncodedBits(t, [b]) == CodeBits(t[b])
  {
    assert [b][..0] == [];
    assert EncodedBits(t, [b]) == EncodedBits(t, []) + CodeBits(t[b]);
  }

  /** The 32-bit word of a code is its bits followed by zeros. */
  lemma CodeWord(c: Code)
    requires WellFormed(c)
    ensures BitsOf(c.bits, 32) == CodeBits(c) + Zeros(32 - c.len)
  {
    var k := 32 - c.len;
    var q := c.bits / Pow2(k);
    DivModLaw(c.bits, Pow2(k));
    BitsOfAppend(q, 0, c.len, k);
    BitsOfZero(k);
  }

  /** Codes whose bits extend one another share an interval of 32-bit words. */
  lemma PrefixMeansInterval(c: Code, d: Code)
    requires WellFormed(c) && WellFormed(d)
    requires CodeBits(c) <= CodeBits(d)
    ensures c.bits <= d.bits < c.bits + Pow2(32 - c.len)
  {
    var k := 32 - c.len;
    CodeWord(c);
    CodeWord(d);
    assert BitsOf(c.bits, 32)[..c.len] == BitsOf(d.bits, 32)[..c.len] == CodeBits(c);
    Pow2Of32();
    SameHighBits(c.bits, d.bits, c.len, k);
    SameQuotient(c.bits, d.bits, Pow2(k));
  }

  lemma {:induction false} SameHighBits(x: nat, y: nat, n: nat, k: nat)
    requires x < Pow2(n + k) && y < Pow2(n + k)
    requires BitsOf(x, n + k)[..n] == BitsOf(y, n + k)[..n]
    ensures x / Pow2(k) == y / Pow2(k)
  {
    if k == 0 {
      BitsOfInjective(x, y, n);
    } else {
      assert BitsOf(x, n + k)[..n] == BitsOf(x / 2, n + k - 1)[..n];
      assert BitsOf(y, n + k)[..n] == BitsOf(y / 2, n + k - 1)[..n];
      SameHighBits(x / 2, y / 2, n, k - 1);
      DivDiv(x, 2, Pow2(k - 1));
      DivDiv(y, 2, Pow2(k - 1));
    }
  }

  lemma SameQuotient(x: nat, y: nat, p: nat)
    requires p > 0 && x % p == 0 && x / p == y / p
    ensures x <= y < x + p
  {
    DivModLaw(x, p);
    DivModLaw(y, p);
  }

  /** In a valid table a code word is found exactly at its symbol. */
  lemma DecodeFindsSymbol(t: seq<Code>, s: nat)
    requires ValidTable(t) && s < |t|
    ensures Decode(t, t[s]) == Some(s)
  {
    var r := Decode(t, t[s]);
    assert t[s] in t;
    assert CodeBits(t[r.value]) == CodeBits(t[s]);
  }

  /** No code shorter than a given one is found at its beginning. */
  lemma DecodeRejectsPrefix(t: seq<Code>, s: nat, c: Code)
    requires ValidTable(t) && s < |t|
    requires WellFormed(c) && c.len < t[s].len && CodeBits(c) == CodeBits(t[s])[..c.len]
    ensures Decode(t, c) == None
  {
    forall i | 0 <= i < |t| ensures t[i] != c {
      assert i != s ==> !(CodeBits(t[i]) <= CodeBits(t[s]));
    }
  }
}
