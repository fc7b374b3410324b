/** String literals (section 5.2 of RFC 7541): the choice of the representation, writing and reading. */
module StringCodec {
  import opened Words
  import opened Huffman
  import opened HuffmanWriter
  import opened HuffmanReader
  import opened HuffmanStrings
  import opened Integers
  import opened Outcomes

  datatype Estimate = Estimate(size: nat, encoded: bool)

  /** The encoder's choice: Huffman when it is shorter, and for longer strings short enough by the rate. */
  function EstimateString(t: seq<Code>, rate: nat, s: seq<Byte>): Estimate
    requires |t| == 257
  {
    var encodedLen := CeilOrder2(EstimateLen(t, s), 3) / 8;
    if encodedLen < |s| && (|s| < 10 || Wrap32(100 * encodedLen) / |s| <= rate)
    then Estimate(encodedLen, true)
    else Estimate(|s|, false)
  }

  function StringFlag(encoded: bool): (f: Byte)
    ensures Opcode(f, 1)
  {
    PrefixMasks();
    if encoded then 0x80 else 0
  }

  ghost function Payload(t: seq<Code>, encoded: bool, s: seq<Byte>): seq<Byte>
    requires Sized(t)
  {
    if encoded then PackedBytes(t, s) else s
  }

  ghost function StringBytes(t: seq<Code>, encoded: bool, s: seq<Byte>): seq<Byte>
    requires Sized(t)
  {
    var payload := Payload(t, encoded, s);
    IntBytes(StringFlag(encoded), 1, |payload|) + payload
  }

  /** The estimated size is the size of the payload, and it fits an integer for every header field. */
  lemma EstimateIsPayload(t: seq<Code>, rate: nat, s: seq<Byte>)
    requires Sized(t) && |s| <= MAX_HPACK_INT
    ensures var e := EstimateString(t, rate, s);
            e.size == |Payload(t, e.encoded, s)| && e.size <= |s|
  {
    EstimateIsLength(t, s);
    PackedSize(t, s);
  }

  /**
   * The choice, told by the packed string: Huffman if and only if that is shorter and, from ten octets on, its
   * percentage of the plain string is at most the rate.
   */
  lemma EncodedIff(t: seq<Code>, rate: nat, s: seq<Byte>)
    requires Sized(t) && |s| <= MAX_HPACK_INT
    ensures var packed := |PackedBytes(t, s)|;
      EstimateString(t, rate, s).encoded <==> packed < |s| && (|s| < 10 || 100 * packed / |s| <= rate)
  {
    EstimateIsLength(t, s);
    PackedSize(t, s);
    hide EstimateLen, PackedBytes;
  }

  datatype DecodedString = DecodedString(usedBytes: nat, value: seq<Byte>)

  function DecodeString(t: seq<Code>, src: seq<Byte>): (r: Outcome<DecodedString>)
    requires |t| == 257
    ensures r.Ok? ==> 0 < r.value.usedBytes <= |src|
  {
    if src == [] then Throws(InvalidArgument)
    else
      DecodeIntBounds(1, src);
      var len :- DecodeInt(1, src);
      var rest := src[len.usedBytes..];
      if |rest| < len.value then Throws(InvalidArgument)
      else if src[0] < 0x80 then Ok(DecodedString(len.usedBytes + len.value, rest[..len.value]))
      else
        var value :- ReadHuffman(t, rest[..len.value]);
        Ok(DecodedString(len.usedBytes + len.value, value))
  }

  /** A representation whose length fits an integer. */
  ghost predicate Sendable(t: seq<Code>, encoded: bool, s: seq<Byte>)
    requires Sized(t)
  {
    |Payload(t, encoded, s)| <= MAX_HPACK_INT
  }

  /** A representation that the reader can take back. */
  predicate Legible(t: seq<Code>, encoded: bool, s: seq<Byte>)
    requires Sized(t)
  {
    encoded ==> Readable(t, s)
  }

  /** A string is read back exactly when it is legible; otherwise the outcome is undefined. */
  lemma StringRoundTrip(t: seq<Code>, encoded: bool, s: seq<Byte>, rest: seq<Byte>)
    requires ValidTable(t) && Sendable(t, encoded, s)
    ensures DecodeString(t, StringBytes(t, encoded, s) + rest)
         == if Legible(t, encoded, s) then Ok(DecodedString(|StringBytes(t, encoded, s)|, s)) else Undefined
  {
    hide PackedBytes, ReadHuffman, Readable, IntBytes, DecodeInt, PrefixFree;
    var payload := Payload(t, encoded, s);
    var prefix := IntBytes(StringFlag(encoded), 1, |payload|);
    IntegerRoundTrip(StringFlag(encoded), 1, |payload|, payload + rest);
    ConcatAssoc(prefix, payload, rest);
    FlagOf(encoded, |payload|);
    var src := prefix + (payload + rest);
    assert src[|prefix|..] == payload + rest;
    assert (payload + rest)[..|payload|] == payload;
    if encoded { HuffmanRoundTrip(t, s); }
  }

  lemma FlagOf(encoded: bool, n: nat)
    ensures IntBytes(StringFlag(encoded), 1, n)[0] >= 0x80 <==> encoded
  {
    PrefixMasks();
  }

  /** Reads a string literal; `before` and `after` are the memory around the source. */
  method Decode(t: seq<Code>, before: seq<Byte>, src: seq<Byte>, after: Byte) returns (r: Outcome<DecodedString>)
    requires |t| == 257 && |before| == 7
    ensures r == DecodeString(t, src)
  {
    if src == [] {
      return Throws(InvalidArgument);
    }
    HighBit(src[0]);
    var isHuffman := BitAnd(src[0], 0x80) != 0;
    DecodeIntBounds(1, src);
    var len := Integers.Decode(1, src);
    if !len.Ok? {
      return len.PropagateFailure();
    }
    var rest := src[len.value.usedBytes..];
    if |rest| < len.value.value {
      return Throws(InvalidArgument);
    }
    if !isHuffman {
      return Ok(DecodedString(len.value.usedBytes + len.value.value, rest[..len.value.value]));
    }
    var value := ReadHuffmanStr(t, LENGTHS, before, rest[..len.value.value], after);
    if !value.Ok? {
      return value.PropagateFailure();
    }
    return Ok(DecodedString(len.value.usedBytes + len.value.value, value.value));
  }

  lemma HighBit(b: Byte)
    ensures BitAnd(b, 0x80) != 0 <==> b >= 0x80
  {
    Pow2Of8();
    AndWindow(b, 1, 7);
    assert Pow2(1) == 2;
  }
}
