/** The reading loop of the decoder over the bit stream, proved against the reader's specification. */
module HuffmanStrings {
  import opened Words
  import opened Bits
  import opened Huffman
  import opened BitStreams
  import opened HuffmanReader
  import opened Outcomes

  /** The last octet shows the padding. */
  lemma LastBits(src: seq<Byte>, pos: nat, rem: nat)
    requires src != [] && 0 < rem < 8 && pos + rem == 8 * |src|
    ensures BytesToBits(src)[pos..] == BitsOf(src[|src| - 1], rem)
  {
    var front, last := src[..|src| - 1], src[|src| - 1];
    assert src == front + [last];
    BytesToBitsConcat(front, [last]);
    ByteBits(last);
    BitsOfLow(last, 8, rem);
    SuffixOf(BytesToBits(front), BitsOf(last, 8), pos, 8 - rem);
  }

  lemma SuffixOf<T>(a: seq<T>, b: seq<T>, pos: nat, k: nat)
    requires k <= |b| && pos == |a| + k
    ensures (a + b)[pos..] == b[k..]
  {
  }

  lemma OnesByRemainder(v: nat, n: nat)
    ensures BitsOf(v, n) == Ones(n) <==> v % Pow2(n) == Pow2(n) - 1
  {
    BitsOfMod(v, n, n);
    BitsOfOnes(n);
    DivModLaw(v, Pow2(n));
    if BitsOf(v, n) == Ones(n) {
      BitsOfInjective(v % Pow2(n), Pow2(n) - 1, n);
    }
  }

  /** The mask test on the last octet is the padding test. */
  method IsPadding(src: seq<Byte>, pos: nat) returns (b: bool)
    requires pos < 8 * |src| < pos + 8
    ensures b == AtPadding(BytesToBits(src), pos)
  {
    var rem := |src| * 8 - pos;
    var mask := MakeMask(rem, 8);
    LastBits(src, pos, rem);
    OnesByRemainder(src[|src| - 1], rem);
    AndOnes(src[|src| - 1], rem);
    b := mask == BitAnd(src[|src| - 1], mask);
  }

  /** Tries one code length after the other at the current position. */
  method FindSymbol(t: seq<Code>, lens: seq<nat>, stream: IBitStream) returns (r: Outcome<Match>)
    requires stream.Valid() && forall i :: 0 <= i < |lens| ==> lens[i] <= 32
    ensures r == TryLengths(t, lens, BytesToBits(stream.data), stream.offset)
  {
    ghost var bits, pos := BytesToBits(stream.data), stream.offset;
    var k := 0;
    while k < |lens|
      invariant 0 <= k <= |lens|
      invariant TryLengths(t, lens, bits, pos) == TryLengths(t, lens[k..], bits, pos)
    {
      assert lens[k..][1..] == lens[k + 1..];
      if stream.offset + lens[k] > 8 * |stream.data| {
        return Undefined;
      }
      var hcode := stream.TakeBits(lens[k]);
      if hcode.Undefined? {
        return Undefined;
      }
      var index := Decode(t, Code(hcode.value, lens[k]));
      if index.Some? {
        return Ok(Match(index.value, lens[k]));
      }
      k := k + 1;
    }
    r := Throws(InvalidArgument);
  }

  /** The next symbol; none at the padding and at EOS. */
  method NextSymbol(t: seq<Code>, lens: seq<nat>, stream: IBitStream) returns (r: Outcome<Option<Match>>)
    requires |t| == 257 && forall i :: 0 <= i < |lens| ==> lens[i] <= 32
    requires stream.Valid() && !stream.Empty()
    ensures r == NextAt(t, lens, BytesToBits(stream.data), stream.offset)
  {
    if |stream.data| * 8 - stream.offset < 8 {
      var padding := IsPadding(stream.data, stream.offset);
      if padding {
        return Ok(None);
      }
    }
    var found := FindSymbol(t, lens, stream);
    if !found.Ok? {
      return found.PropagateFailure();
    }
    if found.value.symbol == EOS {
      return Ok(None);
    }
    return Ok(Some(found.value));
  }

  /** Reads symbols until the string ends, shows padding, or cannot be read. */
  method ReadHuffmanStr(t: seq<Code>, lens: seq<nat>, before: seq<Byte>, src: seq<Byte>, after: Byte)
    returns (r: Outcome<seq<Byte>>)
    requires |t| == 257 && |before| == 7 && forall i :: 0 <= i < |lens| ==> 0 < lens[i] <= 32
    ensures r == ReadFrom(t, lens, BytesToBits(src), 0)
  {
    hide NextAt;
    var stream := new IBitStream(before, src, after);
    ghost var bits := BytesToBits(src);
    ghost var goal := ReadFrom(t, lens, bits, 0);
    PrependNothing(goal);
    var result: seq<Byte> := [];
    while !stream.Empty()
      invariant stream.Valid() && stream.data == src && fresh(stream)
      invariant goal == Prepend(result, ReadFrom(t, lens, bits, stream.offset))
      decreases 8 * |src| - stream.offset
    {
      var next := NextSymbol(t, lens, stream);
      Progress(t, lens, bits, stream.offset, result, goal, next);
      if !next.Ok? {
        return next.PropagateFailure();
      }
      if next.value.None? {
        return Ok(result);
      }
      result := result + [next.value.value.symbol];
      stream.CommitBits(next.value.value.len);
    }
    PrependEnd(result);
    r := Ok(result);
  }

  /** One round of the loop. */
  lemma Progress(t: seq<Code>, lens: seq<nat>, bits: seq<bool>, pos: nat, done: seq<Byte>,
                 goal: Outcome<seq<Byte>>, next: Outcome<Option<Match>>)
    requires |t| == 257 && 0 !in lens && pos < |bits|
    requires goal == Prepend(done, ReadFrom(t, lens, bits, pos)) && next == NextAt(t, lens, bits, pos)
    ensures !next.Ok? ==> goal == next.PropagateFailure()
    ensures next.Ok? && next.value.None? ==> goal == Ok(done)
    ensures next.Ok? && next.value.Some? ==>
              var m := next.value.value;
              && 0 < m.len && pos + m.len <= |bits|
              && goal == Prepend(done + [m.symbol], ReadFrom(t, lens, bits, pos + m.len))
  {
    PrependEnd(done);
    if next.Ok? && next.value.Some? {
      var m := next.value.value;
      PrependMore(done, m.symbol, ReadFrom(t, lens, bits, pos + m.len));
    }
  }

  lemma PrependNothing(rest: Outcome<seq<Byte>>)
    ensures Prepend([], rest) == rest
  {
    if rest.Ok? { assert [] + rest.value == rest.value; }
  }

  lemma PrependEnd(done: seq<Byte>)
    ensures Prepend(done, Ok([])) == Ok(done)
  {
    assert done + [] == done;
  }

  lemma PrependMore(done: seq<Byte>, s: Byte, rest: Outcome<seq<Byte>>)
    ensures Prepend(done, Prepend([s], rest)) == Prepend(done + [s], rest)
  {
    if rest.Ok? { ConcatAssoc(done, [s], rest.value); }
  }
}
