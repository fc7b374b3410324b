/** The integer representation of section 5.1 of RFC 7541. */
module Integers {
  import opened Words
  import opened Outcomes

  const MAX_HPACK_INT := 0x1000000 - 16

  datatype DecodedInt = DecodedInt(usedBytes: nat, value: nat)

  /** The largest value of a prefix that follows `bitlen` command bits. */
  function PrefixMask(bitlen: nat): nat
    requires 1 <= bitlen <= 4
  {
    MakeMask(8 - bitlen, 8)
  }

  lemma PrefixMasks()
    ensures PrefixMask(1) == 127 && PrefixMask(2) == 63 && PrefixMask(3) == 31 && PrefixMask(4) == 15
  {
    Pow2Of8();
  }

  /** Command bits leave the prefix clear. */
  predicate Opcode(init: Byte, bitlen: nat) {
    1 <= bitlen <= 4 && init % (PrefixMask(bitlen) + 1) == 0
  }

  /** Seven bits to an octet, low bits first, the high bit set on all but the last. */
  function Continuation(v: nat): (s: seq<Byte>)
    ensures |s| > 0
  {
    if v < 128 then [v] else [v % 128 + 128] + Continuation(v / 128)
  }

  function IntBytes(init: Byte, bitlen: nat, v: nat): (s: seq<Byte>)
    requires Opcode(init, bitlen)
    ensures |s| > 0
  {
    PrefixMasks();
    PrefixedInt(init, PrefixMask(bitlen), v)
  }

  function PrefixedInt(init: Byte, mask: nat, v: nat): (s: seq<Byte>)
    requires init + mask < 256
    ensures |s| > 0
  {
    if v < mask then [init + v] else [init + mask] + Continuation(v - mask)
  }

  /** `p` with `m` zero bits behind it. */
  function Scaled(p: nat, m: nat): nat {
    if m == 0 then p else 2 * Scaled(p, m - 1)
  }

  /** The value after adding seven more bits: nothing is lost up to shift 56, at shift 63 all but one bit. */
  function Accumulate(value: nat, p: nat, m: nat): nat {
    if m <= 56 then value + Scaled(p, m)
    else if p % 2 == 0 then value
    else value + TWO_64 / 2
  }

  /** The loop over the octets after a full prefix, from octet `i` with shift `m`. */
  function ReadContinuation(src: seq<Byte>, i: nat, value: nat, m: nat): Outcome<DecodedInt>
    decreases |src| - i
  {
    if i >= |src| then Throws(InvalidArgument)
    else if m >= 64 then Undefined
    else
      var v := Accumulate(value, src[i] % 128, m);
      if v > MAX_HPACK_INT then Throws(OverflowError)
      else if src[i] >= 128 then ReadContinuation(src, i + 1, v, m + 7)
      else Ok(DecodedInt(i + 1, v))
  }

  function DecodeInt(bitlen: nat, src: seq<Byte>): (r: Outcome<DecodedInt>) {
    if src == [] || bitlen > 4 || bitlen == 0 then Throws(InvalidArgument)
    else DecodePrefixed(PrefixMask(bitlen), src)
  }

  function DecodePrefixed(mask: nat, src: seq<Byte>): (r: Outcome<DecodedInt>)
    requires src != []
  {
    var value := src[0] % (mask + 1);
    if value < mask then Ok(DecodedInt(1, value)) else ReadContinuation(src, 1, value, 0)
  }

  lemma {:induction false} ReadContinuationBounds(src: seq<Byte>, i: nat, value: nat, m: nat)
    ensures ReadContinuation(src, i, value, m).Ok? ==>
              var d := ReadContinuation(src, i, value, m).value;
              i < d.usedBytes <= |src| && d.value <= MAX_HPACK_INT
    decreases |src| - i
  {
    if i < |src| && m < 64 {
      var v := Accumulate(value, src[i] % 128, m);
      ReadContinuationBounds(src, i + 1, v, m + 7);
    }
  }

  lemma DecodeIntBounds(bitlen: nat, src: seq<Byte>)
    ensures DecodeInt(bitlen, src).Ok? ==>
              var d := DecodeInt(bitlen, src).value;
              0 < d.usedBytes <= |src| && d.value <= MAX_HPACK_INT
  {
    if src != [] && 1 <= bitlen <= 4 {
      PrefixMasks();
      ReadContinuationBounds(src, 1, src[0] % (PrefixMask(bitlen) + 1), 0);
    }
  }

  // ---------------------------------------------------------------- round trip

  /** A value below 128^k needs at most `k` octets. */
  lemma {:induction false} ContinuationLength(v: nat, k: nat)
    requires k > 0 && v < Pow2(7 * k)
    ensures |Continuation(v)| <= k
  {
    Pow2Of8();
    if v >= 128 {
      assert k > 1;
      Pow2Add(7, 7 * (k - 1));
      QuotientBelow(v, 128, Pow2(7 * (k - 1)));
      ContinuationLength(v / 128, k - 1);
    }
  }

  lemma IntBytesLength(init: Byte, bitlen: nat, v: nat)
    requires Opcode(init, bitlen) && v <= MAX_HPACK_INT
    ensures |IntBytes(init, bitlen, v)| <= 5
  {
    if v >= PrefixMask(bitlen) {
      Pow2OfSevens();
      ContinuationLength(v - PrefixMask(bitlen), 4);
    }
  }

  lemma {:induction false} ScaledIsProduct(p: nat, m: nat)
    ensures Scaled(p, m) == p * Pow2(m)
  {
    if m > 0 {
      ScaledIsProduct(p, m - 1);
      MulTwice(p, Pow2(m - 1));
    }
  }

  lemma {:induction false} ScaledAdds(a: nat, b: nat, m: nat)
    ensures Scaled(a + b, m) == Scaled(a, m) + Scaled(b, m)
  {
    if m > 0 { ScaledAdds(a, b, m - 1); }
  }

  lemma {:induction false} ScaledBySeven(q: nat, m: nat)
    ensures Scaled(128 * q, m) == Scaled(q, m + 7)
  {
    if m > 0 {
      ScaledBySeven(q, m - 1);
    } else {
      assert Scaled(q, 1) == 2 * q;
      assert Scaled(q, 3) == 8 * q;
      assert Scaled(q, 5) == 32 * q;
    }
  }

  lemma {:induction false} ScaledMonotone(a: nat, b: nat, m: nat, n: nat)
    requires a <= b && m <= n
    ensures Scaled(a, m) <= Scaled(b, n)
    decreases n
  {
    if m == n && n > 0 {
      ScaledMonotone(a, b, m - 1, n - 1);
    } else if n > 0 {
      ScaledMonotone(a, b, m, n - 1);
    }
  }

  /** The shift and addition of 64-bit words. */
  lemma AccumulateIsShift(value: nat, p: nat, m: nat)
    requires value <= MAX_HPACK_INT && p < 128 && (m <= 56 || m == 63)
    ensures Accumulate(value, p, m) == Wrap64(value + ShiftLeft(p, m, 64))
  {
    Pow2Of64();
    Pow2Add(63, 1);
    if m <= 56 {
      ScaledIsProduct(p, m);
      Pow2Of8();
      Pow2Add(7, m);
      MulMonotone(p, 127, Pow2(m));
      Pow2Monotone(7 + m, 63);
      DivModUnique(0, Pow2(64), p * Pow2(m));
    } else {
      ShiftBy63(p, Pow2(63));
    }
  }

  lemma ShiftBy63(p: nat, h: nat)
    requires h > 0
    ensures p * h % (2 * h) == (if p % 2 == 0 then 0 else h)
  {
    MulAdd(p / 2 * 2, p % 2, h);
    MulAssoc(p / 2, 2, h);
    DivModUnique(p / 2, 2 * h, p % 2 * h);
  }

  lemma {:induction false} ContinuationRoundTrip(pre: seq<Byte>, v: nat, rest: seq<Byte>, acc: nat, m: nat)
    requires m <= 28 && acc + Scaled(v, m) <= MAX_HPACK_INT
    ensures ReadContinuation(pre + Continuation(v) + rest, |pre|, acc, m)
         == Ok(DecodedInt(|pre| + |Continuation(v)|, acc + Scaled(v, m)))
    decreases v
  {
    var src := pre + Continuation(v) + rest;
    var p := v % 128;
    assert src[|pre|] == Continuation(v)[0];
    if v >= 128 {
      var q := v / 128;
      Shifted(v, m);
      var pre' := pre + [p + 128];
      assert src == pre' + Continuation(q) + rest;
      ContinuationRoundTrip(pre', q, rest, acc + Scaled(p, m), m + 7);
    }
  }

  /** One more octet: the rest of the value weighs 128 times as much, and the shift stays small. */
  lemma Shifted(v: nat, m: nat)
    requires v >= 128 && Scaled(v, m) <= MAX_HPACK_INT
    ensures Scaled(v, m) == Scaled(v % 128, m) + Scaled(v / 128, m + 7)
    ensures m + 7 <= 28
  {
    ScaledAdds(128 * (v / 128), v % 128, m);
    ScaledBySeven(v / 128, m);
    if m + 7 > 28 {
      ScaledMonotone(1, v / 128, 28, m + 7);
      ScaledIsProduct(1, 28);
      Pow2OfSevens();
      assert false;
    }
  }

  /** The decoder's mask takes the command bits off again. */
  lemma PrefixValue(init: Byte, bitlen: nat, v: nat)
    requires Opcode(init, bitlen) && v <= PrefixMask(bitlen)
    ensures init + v < 256 && (init + v) % (PrefixMask(bitlen) + 1) == v
  {
    PrefixMasks();
    match bitlen
    case 1 => MultiplePlus(init, 128, v);
    case 2 => MultiplePlus(init, 64, v);
    case 3 => MultiplePlus(init, 32, v);
    case _ => MultiplePlus(init, 16, v);
  }

  lemma MultiplePlus(a: nat, p: nat, v: nat)
    requires p > 0 && a % p == 0 && v < p
    ensures (a + v) % p == v && (a < 256 && 256 % p == 0 ==> a + v < 256)
  {
    DivModLaw(a, p);
    DivModUnique(a / p, p, v);
    DivModLaw(256, p);
    if a < 256 && 256 % p == 0 && a / p >= 256 / p {
      MulMonotone(256 / p, a / p, p);
    } else if a < 256 && 256 % p == 0 {
      MulMonotone(a / p, 256 / p - 1, p);
      MulLess(256 / p, p);
    }
  }

  /** Decoding returns the value and the length that encoding wrote, whatever follows. */
  lemma IntegerRoundTrip(init: Byte, bitlen: nat, v: nat, rest: seq<Byte>)
    requires Opcode(init, bitlen) && v <= MAX_HPACK_INT
    ensures DecodeInt(bitlen, IntBytes(init, bitlen, v) + rest)
         == Ok(DecodedInt(|IntBytes(init, bitlen, v)|, v))
  {
    PrefixValue(init, bitlen, PrefixMask(bitlen));
    PrefixValue(init, bitlen, Min(v, PrefixMask(bitlen)));
    PrefixedRoundTrip(init, PrefixMask(bitlen), v, rest);
  }

  lemma PrefixedRoundTrip(init: Byte, mask: nat, v: nat, rest: seq<Byte>)
    requires init + mask < 256 && v <= MAX_HPACK_INT
    requires (init + mask) % (mask + 1) == mask && (init + Min(v, mask)) % (mask + 1) == Min(v, mask)
    ensures DecodePrefixed(mask, PrefixedInt(init, mask, v) + rest)
         == Ok(DecodedInt(|PrefixedInt(init, mask, v)|, v))
  {
    if v >= mask {
      assert PrefixedInt(init, mask, v) + rest == [init + mask] + Continuation(v - mask) + rest;
      ContinuationRoundTrip([init + mask], v - mask, rest, mask, 0);
    }
  }

  // ---------------------------------------------------------------- shortest form

  /** What `k` octets can add to the value. */
  lemma {:induction false} ReadContinuationReach(src: seq<Byte>, i: nat, value: nat, m: nat)
    requires ReadContinuation(src, i, value, m).Ok?
    requires m + 7 * (ReadContinuation(src, i, value, m).value.usedBytes - i) <= 35
    ensures var d := ReadContinuation(src, i, value, m).value;
            d.usedBytes > i && d.value + Scaled(1, m) <= value + Scaled(1, m + 7 * (d.usedBytes - i))
    decreases |src| - i
  {
    var p := src[i] % 128;
    ReadContinuationBounds(src, i, value, m);
    OctetReach(p, m);
    if src[i] >= 128 {
      ReadContinuationBounds(src, i + 1, value + Scaled(p, m), m + 7);
      ReadContinuationReach(src, i + 1, value + Scaled(p, m), m + 7);
    }
  }

  lemma OctetReach(p: nat, m: nat)
    requires p < 128
    ensures Scaled(p, m) + Scaled(1, m) <= Scaled(1, m + 7)
  {
    ScaledAdds(p, 1, m);
    ScaledMonotone(p + 1, 128, m, m);
    ScaledBySeven(1, m);
  }

  /** No string shorter than the one `IntBytes` writes decodes to the same value. */
  lemma IntegerShortest(init: Byte, bitlen: nat, src: seq<Byte>)
    requires Opcode(init, bitlen) && DecodeInt(bitlen, src).Ok?
    ensures |IntBytes(init, bitlen, DecodeInt(bitlen, src).value.value)| <= DecodeInt(bitlen, src).value.usedBytes
  {
    PrefixMasks();
    DecodeIntBounds(bitlen, src);
    var d := DecodeInt(bitlen, src).value;
    IntBytesLength(init, bitlen, d.value);
    var mask := PrefixMask(bitlen);
    if d.usedBytes < 5 && d.value >= mask {
      ReadContinuationReach(src, 1, mask, 0);
      ScaledIsProduct(1, 7 * (d.usedBytes - 1));
      ContinuationLength(d.value - mask, d.usedBytes - 1);
    }
  }

  // ---------------------------------------------------------------- agreement with the unbounded reading

  /** One past the octet that ends the representation, or one past the end of the source. */
  function EndOf(src: seq<Byte>, i: nat): (end: nat)
    requires i <= |src|
    ensures i < end <= |src| + 1
    decreases |src| - i
  {
    if i == |src| then |src| + 1 else if src[i] < 128 then i + 1 else EndOf(src, i + 1)
  }

  /** The unbounded sum of the octets from `i` to `j`. */
  function Sum(src: seq<Byte>, i: nat, j: nat, m: nat): nat
    requires i <= j <= |src|
    decreases j - i
  {
    if i == j then 0 else Scaled(src[i] % 128, m) + Sum(src, i + 1, j, m + 7)
  }

  /** What section 5.1 asks for, with the limit of the implementation. */
  function Limited(usedBytes: nat, value: nat): Outcome<DecodedInt> {
    if value <= MAX_HPACK_INT then Ok(DecodedInt(usedBytes, value)) else Throws(OverflowError)
  }

  lemma {:induction false} ReadsExactly(src: seq<Byte>, i: nat, value: nat, m: nat)
    requires i <= |src| && EndOf(src, i) <= |src| && value <= MAX_HPACK_INT
    requires m + 7 * (EndOf(src, i) - i) <= 63
    ensures ReadContinuation(src, i, value, m) == Limited(EndOf(src, i), value + Sum(src, i, EndOf(src, i), m))
    decreases |src| - i
  {
    var v := value + Scaled(src[i] % 128, m);
    if src[i] >= 128 && v <= MAX_HPACK_INT {
      ReadsExactly(src, i + 1, v, m + 7);
    }
  }

  lemma {:induction false} OverflowsBeforeTenth(src: seq<Byte>, i: nat, value: nat, m: nat)
    requires 1 <= i <= 10 && i <= |src| && 10 < EndOf(src, i) <= |src| && m == 7 * (i - 1)
    requires value <= MAX_HPACK_INT < value + Sum(src, i, 10, m)
    ensures ReadContinuation(src, i, value, m) == Throws(OverflowError)
    decreases 10 - i
  {
    var v := value + Scaled(src[i] % 128, m);
    if v <= MAX_HPACK_INT {
      OverflowsBeforeTenth(src, i + 1, v, m + 7);
    }
  }

  lemma {:induction false} ReachesTenth(src: seq<Byte>, i: nat, value: nat, m: nat)
    requires 1 <= i <= 10 && i <= |src| && 10 < EndOf(src, i) <= |src| && m == 7 * (i - 1)
    requires value + Sum(src, i, 10, m) <= MAX_HPACK_INT
    ensures EndOf(src, 10) == EndOf(src, i)
    ensures ReadContinuation(src, i, value, m) == ReadContinuation(src, 10, value + Sum(src, i, 10, m), 63)
    decreases 10 - i
  {
    if i < 10 {
      ReachesTenth(src, i + 1, value + Scaled(src[i] % 128, m), m + 7);
    }
  }

  lemma {:induction false} SumSplits(src: seq<Byte>, i: nat, k: nat, j: nat, m: nat)
    requires i <= k <= j <= |src|
    ensures Sum(src, i, j, m) == Sum(src, i, k, m) + Sum(src, k, j, m + 7 * (k - i))
    decreases k - i
  {
    if i < k { SumSplits(src, i + 1, k, j, m + 7); }
  }

  /**
   * A terminated representation is read as section 5.1 says if and only if it has at most nine octets
   * after the prefix, or already the first nine exceed the limit, or the tenth makes the sum exceed it
   * visibly, or the tenth is the last and adds nothing. In all other cases bits are lost (or the shift
   * is undefined) at the tenth octet.
   */
  lemma DecodeAgreesIff(bitlen: nat, src: seq<Byte>)
    requires 1 <= bitlen <= 4 && src != [] && EndOf(src, 1) <= |src|
    requires src[0] % (PrefixMask(bitlen) + 1) == PrefixMask(bitlen)
    ensures var end := EndOf(src, 1);
            DecodeInt(bitlen, src) == Limited(end, PrefixMask(bitlen) + Sum(src, 1, end, 0))
            <==> || end <= 10
                 || PrefixMask(bitlen) + Sum(src, 1, 10, 0) > MAX_HPACK_INT
                 || TenthVisible(src[10] % 128, end)
  {
    PrefixMasks();
    ReadAgreesIff(src, PrefixMask(bitlen));
  }

  lemma ReadAgreesIff(src: seq<Byte>, mask: nat)
    requires src != [] && EndOf(src, 1) <= |src| && mask <= MAX_HPACK_INT
    ensures var end := EndOf(src, 1);
            ReadContinuation(src, 1, mask, 0) == Limited(end, mask + Sum(src, 1, end, 0))
            <==> || end <= 10
                 || mask + Sum(src, 1, 10, 0) > MAX_HPACK_INT
                 || TenthVisible(src[10] % 128, end)
  {
    if EndOf(src, 1) <= 10 {
      ReadsExactly(src, 1, mask, 0);
    } else {
      LateAgreesIff(src, mask, EndOf(src, 1));
    }
  }

  lemma LateAgreesIff(src: seq<Byte>, mask: nat, end: nat)
    requires src != [] && 10 < end == EndOf(src, 1) <= |src| && mask <= MAX_HPACK_INT
    ensures ReadContinuation(src, 1, mask, 0) == Limited(end, mask + Sum(src, 1, end, 0))
            <==> mask + Sum(src, 1, 10, 0) > MAX_HPACK_INT || TenthVisible(src[10] % 128, end)
  {
    SumSplits(src, 1, 10, end, 0);
    if mask + Sum(src, 1, 10, 0) > MAX_HPACK_INT {
      OverflowsBeforeTenth(src, 1, mask, 0);
    } else {
      ReachesTenth(src, 1, mask, 0);
      AfterTenth(src, mask + Sum(src, 1, 10, 0), end);
    }
  }

  /** The tenth octet is added without loss, or its loss does not matter. */
  predicate TenthVisible(p: nat, end: nat) {
    p % 2 == 1 || (end == 11 && p == 0)
  }

  lemma AfterTenth(src: seq<Byte>, v: nat, end: nat)
    requires |src| > 10 && end == EndOf(src, 10) <= |src| && v <= MAX_HPACK_INT
    ensures ReadContinuation(src, 10, v, 63) == Limited(end, v + Sum(src, 10, end, 63))
            <==> TenthVisible(src[10] % 128, end)
  {
    var p := src[10] % 128;
    if p > 0 {
      ScaledMonotone(1, p, 28, 63);
      ScaledIsProduct(1, 28);
      Pow2OfSevens();
    } else {
      ScaledOfZero(63);
    }
    if src[10] >= 128 && p % 2 == 0 {
      assert ReadContinuation(src, 11, v, 70) == Undefined;
    }
  }

  lemma {:induction false} ScaledOfZero(m: nat)
    ensures Scaled(0, m) == 0
  {
    if m > 0 { ScaledOfZero(m - 1); }
  }

  /** Such a string exists: these eleven octets denote more than 2^64 and are read as 127. */
  lemma TenthOctetLosesBits(src: seq<Byte>)
    requires |src| == 11 && src[0] == 127 && (forall k :: 1 <= k < 10 ==> src[k] == 128) && src[10] == 2
    ensures EndOf(src, 1) == 11 && DecodeInt(1, src) != Limited(11, 127 + Sum(src, 1, 11, 0))
    ensures DecodeInt(1, src) == Ok(DecodedInt(11, 127))
  {
    PrefixMasks();
    EndsAt11(src);
    NothingAdded(src, 1, 0);
    DecodeAgreesIff(1, src);
    hide Sum, EndOf;
    ReachesTenth(src, 1, 127, 0);
    LastIsLost(src);
  }

  lemma LastIsLost(src: seq<Byte>)
    requires |src| == 11 && src[10] == 2
    ensures ReadContinuation(src, 10, 127, 63) == Ok(DecodedInt(11, 127))
  {
  }

  lemma EndsAt11(src: seq<Byte>)
    requires |src| == 11 && (forall k :: 1 <= k < 10 ==> src[k] == 128) && src[10] < 128
    ensures EndOf(src, 1) == 11
  {
    assert EndOf(src, 10) == 11;
    assert EndOf(src, 9) == 11;
    assert EndOf(src, 8) == 11;
    assert EndOf(src, 7) == 11;
    assert EndOf(src, 6) == 11;
    assert EndOf(src, 5) == 11;
    assert EndOf(src, 4) == 11;
    assert EndOf(src, 3) == 11;
    assert EndOf(src, 2) == 11;
  }

  lemma {:induction false} NothingAdded(src: seq<Byte>, i: nat, m: nat)
    requires i <= 10 <= |src| && forall k :: i <= k < 10 ==> src[k] == 128
    ensures Sum(src, i, 10, m) == 0
    decreases 10 - i
  {
    if i < 10 {
      NothingAdded(src, i + 1, m + 7);
      ScaledOfZero(m);
    }
  }

  // ---------------------------------------------------------------- the implementation

  /** The first octet: the opcode with the value, or with the full prefix. */
  method FirstOctet(init: Byte, bitlen: nat, srcValue: nat) returns (mask: nat, first: Byte)
    requires Opcode(init, bitlen)
    ensures mask == PrefixMask(bitlen) && first == init + if srcValue < mask then srcValue else mask
  {
    hide BitAnd, BitOr, Pow2;
    PrefixMasks();
    mask := MakeMask(8 - bitlen, 8);
    if srcValue < mask {
      OrPrefix(init, bitlen, srcValue);
      first := BitOr(init, BitAnd(srcValue % 256, mask));
    } else {
      OrPrefix(init, bitlen, mask);
      first := BitOr(init, mask);
    }
  }

  /** Writes the value into at most five octets. */
  method Encode(init: Byte, bitlen: nat, srcValue: nat) returns (r: Outcome<seq<Byte>>)
    requires Opcode(init, bitlen) && srcValue < TWO_32
    ensures srcValue > MAX_HPACK_INT ==> r == Throws(OverflowError)
    ensures srcValue <= MAX_HPACK_INT ==> r == Ok(IntBytes(init, bitlen, srcValue)) && |r.value| <= 5
  {
    if srcValue > MAX_HPACK_INT {
      return Throws(OverflowError);
    }
    ghost var goal := IntBytes(init, bitlen, srcValue);
    IntBytesLength(init, bitlen, srcValue);
    hide Continuation;
    var value := new Byte[5];
    var mask, first := FirstOctet(init, bitlen, srcValue);
    value[0] := first;
    assert value[..1] == [first];
    if srcValue < mask {
      return Ok(value[..1]);
    }
    r := WriteRest(value, srcValue - mask, goal);
  }

  method WriteRest(value: array<Byte>, rest: nat, ghost goal: seq<Byte>) returns (r: Outcome<seq<Byte>>)
    requires value.Length == 5 && value[..1] + Continuation(rest) == goal && |goal| <= 5
    modifies value
    ensures r == Ok(goal)
  {
    var v := rest;
    var length := 1;
    while v >= 0x80
      invariant 1 <= length <= 5 && 0 <= v
      invariant value[..length] + Continuation(v) == goal
    {
      ghost var before := value[..length];
      var low, continued := LowSeven(v);
      value[length] := continued;
      assert value[..length + 1] == before + [v % 128 + 128];
      assert before + Continuation(v) == (before + [v % 128 + 128]) + Continuation(v / 128);
      v := v / 128;
      length := length + 1;
    }
    ghost var before := value[..length];
    var low, _ := LowSeven(v);
    value[length] := low;
    length := length + 1;
    assert value[..length] == before + Continuation(v);
    r := Ok(value[..length]);
  }

  /** The next octet, as the last one and as one that is continued. */
  method LowSeven(v: nat) returns (low: Byte, continued: Byte)
    ensures low == v % 128 && continued == v % 128 + 128
  {
    Pow2Of8();
    ModMod(v, 128, 2);
    AndOnesIs(v % 256, 7, 128);
    OrBelow(128, v % 128, 1, 7);
    low := BitAnd(v % 256, 0x7f);
    continued := BitOr(low, 0x80);
  }

  lemma OrPrefix(init: Byte, bitlen: nat, v: nat)
    requires Opcode(init, bitlen) && v <= PrefixMask(bitlen)
    ensures BitAnd(v % 256, PrefixMask(bitlen)) == v && BitOr(init, v) == init + v < 256
  {
    PrefixMasks();
    PrefixValue(init, bitlen, v);
    Pow2Of8();
    match bitlen
    case 1 => OrPrefixAt(init, v, 7, 128);
    case 2 => OrPrefixAt(init, v, 6, 64);
    case 3 => OrPrefixAt(init, v, 5, 32);
    case _ => OrPrefixAt(init, v, 4, 16);
  }

  lemma OrPrefixAt(init: Byte, v: nat, k: nat, p: nat)
    requires p == Pow2(k) <= 256 && v < p && init % p == 0
    ensures BitAnd(v % 256, p - 1) == v && BitOr(init, v) == init + v
  {
    hide BitAnd, BitOr, Pow2;
    AndOnesIs(v, k, p);
    DivModUnique(0, p, v);
    DivModLaw(init, p);
    OrBelow(init, v, init / p, k);
  }

  /** Reads a value, octet by octet. */
  method Decode(bitSuffixLen: nat, initSrc: seq<Byte>) returns (r: Outcome<DecodedInt>)
    ensures r == DecodeInt(bitSuffixLen, initSrc)
  {
    if initSrc == [] || bitSuffixLen > 4 || bitSuffixLen == 0 {
      return Throws(InvalidArgument);
    }
    ghost var goal := DecodeInt(bitSuffixLen, initSrc);
    var mask := MakeMask(8 - bitSuffixLen, 8);
    PrefixMasks();
    AndPrefix(initSrc[0], bitSuffixLen);
    var value := BitAnd(initSrc[0], mask);
    if value < mask {
      return Ok(DecodedInt(1, value));
    }
    r := ReadRest(initSrc, value, goal);
  }

  method ReadRest(initSrc: seq<Byte>, prefix: nat, ghost goal: Outcome<DecodedInt>)
    returns (r: Outcome<DecodedInt>)
    requires initSrc != [] && prefix <= MAX_HPACK_INT
    requires goal == ReadContinuation(initSrc, 1, prefix, 0)
    ensures r == goal
  {
    var value := prefix;
    var src := initSrc;
    var m: nat := 0;
    var b: Byte := 0x80;
    while b >= 0x80
      invariant 0 < |src| <= |initSrc| && src == initSrc[|initSrc| - |src|..]
      invariant 0 <= value <= MAX_HPACK_INT && m % 7 == 0
      invariant b >= 0x80 ==> goal == ReadContinuation(initSrc, |initSrc| - |src| + 1, value, m)
      invariant b < 0x80 ==> goal == Ok(DecodedInt(1 + |initSrc| - |src|, value))
      decreases b >= 0x80, |src|
    {
      src := src[1..];
      if src == [] {
        return Throws(InvalidArgument);
      }
      b := src[0];
      if m >= 64 {
        return Undefined;
      }
      value := AddOctet(value, b, m);
      if value > MAX_HPACK_INT {
        return Throws(OverflowError);
      }
      m := m + 7;
    }
    r := Ok(DecodedInt(1 + |initSrc| - |src|, value));
  }

  lemma AndPrefix(b: Byte, bitlen: nat)
    requires 1 <= bitlen <= 4
    ensures BitAnd(b, PrefixMask(bitlen)) == b % (PrefixMask(bitlen) + 1)
  {
    PrefixMasks();
    Pow2Of8();
    match bitlen
    case 1 => AndOnesIs(b, 7, 128);
    case 2 => AndOnesIs(b, 6, 64);
    case 3 => AndOnesIs(b, 5, 32);
    case _ => AndOnesIs(b, 4, 16);
  }

  /** Adds the seven low bits of an octet at shift `m`, in 64-bit words. */
  method AddOctet(value: nat, b: Byte, m: nat) returns (v: nat)
    requires value <= MAX_HPACK_INT && (m <= 56 || m == 63)
    ensures v == Accumulate(value, b % 128, m)
  {
    Pow2Of8();
    AndOnesIs(b, 7, 128);
    AccumulateIsShift(value, b % 128, m);
    v := Wrap64(value + ShiftLeft(BitAnd(b, 0x7f), m, 64));
  }
}
