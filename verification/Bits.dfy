/** Bit strings, most significant bit first, and their relation to numbers and octets. */
module Bits {
  import opened Words

  /** The `n` low bits of `v`. */
  function BitsOf(v: nat, n: nat): (bs: seq<bool>)
    ensures |bs| == n
  {
    if n == 0 then [] else BitsOf(v / 2, n - 1) + [v % 2 == 1]
  }

  function Ones(n: nat): (bs: seq<bool>)
    ensures |bs| == n
    ensures forall i :: 0 <= i < n ==> bs[i]
  {
    seq(n, _ => true)
  }

  function Zeros(n: nat): (bs: seq<bool>)
    ensures |bs| == n
    ensures forall i :: 0 <= i < n ==> !bs[i]
  {
    seq(n, _ => false)
  }

  /** The bits of a sequence of octets. */
  function BytesToBits(s: seq<Byte>): (bs: seq<bool>)
    ensures |bs| == 8 * |s|
  {
    if s == [] then [] else BitsOf(s[0], 8) + BytesToBits(s[1..])
  }

  /** The `n` octets of a big-endian word. */
  function BigEndian(v: nat, n: nat): (s: seq<Byte>)
    ensures |s| == n
  {
    if n == 0 then [] else BigEndian(v / 256, n - 1) + [v % 256]
  }

  /** The big-endian reading of a sequence of octets. */
  function FromBigEndian(s: seq<Byte>): nat {
    if s == [] then 0 else FromBigEndian(s[..|s| - 1]) * 256 + s[|s| - 1]
  }

  /** The number that a bit string denotes. */
  function ValueOf(bs: seq<bool>): nat {
    if bs == [] then 0 else 2 * ValueOf(bs[..|bs| - 1]) + if bs[|bs| - 1] then 1 else 0
  }

  /** A bit string cut into octets. */
  function BitsToBytes(bs: seq<bool>): (s: seq<Byte>)
    requires |bs| % 8 == 0
    ensures 8 * |s| == |bs|
  {
    if bs == [] then []
    else
      ValueOfBits(bs[..8]);
      Pow2Of8();
      [ValueOf(bs[..8])] + BitsToBytes(bs[8..])
  }

  // ---------------------------------------------------------------- numbers and bits

  lemma {:induction false} ValueOfBits(bs: seq<bool>)
    ensures ValueOf(bs) < Pow2(|bs|) && BitsOf(ValueOf(bs), |bs|) == bs
  {
    if bs != [] { ValueOfBits(bs[..|bs| - 1]); }
  }

  lemma ValueOfBitsOf(v: nat, n: nat)
    requires v < Pow2(n)
    ensures ValueOf(BitsOf(v, n)) == v
  {
    ValueOfBits(BitsOf(v, n));
    BitsOfInjective(v, ValueOf(BitsOf(v, n)), n);
  }

  /** Appending `k` bits is shifting by `k` and adding. */
  lemma {:induction false} BitsOfAppend(v: nat, c: nat, n: nat, k: nat)
    requires c < Pow2(k)
    ensures BitsOf(v * Pow2(k) + c, n + k) == BitsOf(v, n) + BitsOf(c, k)
  {
    if k == 0 {
      assert v * Pow2(0) + c == v;
    } else {
      var u := v * Pow2(k - 1);
      assert v * Pow2(k) == 2 * u;
      assert (2 * u + c) / 2 == u + c / 2 && (2 * u + c) % 2 == c % 2;
      BitsOfAppend(v, c / 2, n, k - 1);
      assert BitsOf(v * Pow2(k) + c, n + k) == BitsOf(u + c / 2, n + k - 1) + [c % 2 == 1];
    }
  }

  /** The last `m` of the `n` low bits are the `m` low bits. */
  lemma {:induction false} BitsOfLow(v: nat, n: nat, m: nat)
    requires m <= n
    ensures BitsOf(v, n)[n - m..] == BitsOf(v, m)
  {
    if m > 0 {
      BitsOfLow(v / 2, n - 1, m - 1);
    }
  }

  /** The first bits of the `n` low bits are the low bits of the quotient. */
  lemma {:induction false} BitsOfHigh(v: nat, n: nat, m: nat)
    requires m <= n
    ensures BitsOf(v, n)[..n - m] == BitsOf(v / Pow2(m), n - m)
  {
    if m > 0 {
      BitsOfHigh(v / 2, n - 1, m - 1);
      DivDiv(v, 2, Pow2(m - 1));
    }
  }

  /** Reducing modulo a power not below the length keeps the bits. */
  lemma {:induction false} BitsOfMod(v: nat, n: nat, w: nat)
    requires n <= w
    ensures BitsOf(v % Pow2(w), n) == BitsOf(v, n)
  {
    if n > 0 {
      DivDiv(v, 2, Pow2(w - 1));
      var h := v / 2 % Pow2(w - 1);
      assert v % Pow2(w) == h * 2 + v % 2;
      DivModUnique(h, 2, v % 2);
      BitsOfMod(v / 2, n - 1, w - 1);
    }
  }

  lemma {:induction false} BitsOfZero(n: nat)
    ensures BitsOf(0, n) == Zeros(n)
  {
    if n > 0 { BitsOfZero(n - 1); }
  }

  lemma {:induction false} BitsOfOnes(n: nat)
    ensures BitsOf(Pow2(n) - 1, n) == Ones(n)
  {
    if n > 0 {
      assert (2 * Pow2(n - 1) - 1) / 2 == Pow2(n - 1) - 1;
      assert (2 * Pow2(n - 1) - 1) % 2 == 1;
      BitsOfOnes(n - 1);
    }
  }

  /** A left shift drops the high bits and appends zeros. */
  lemma BitsOfShiftLeft(v: nat, k: nat, w: nat)
    requires k <= w
    ensures BitsOf(ShiftLeft(v, k, w), w) == BitsOf(v, w - k) + Zeros(k)
  {
    BitsOfMod(v * Pow2(k), w, w);
    BitsOfAppend(v, 0, w - k, k);
    BitsOfZero(k);
  }

  /** Numbers below 2^n are determined by their `n` bits. */
  lemma {:induction false} BitsOfInjective(a: nat, b: nat, n: nat)
    requires a < Pow2(n) && b < Pow2(n)
    requires BitsOf(a, n) == BitsOf(b, n)
    ensures a == b
  {
    if n > 0 {
      var x, y := BitsOf(a / 2, n - 1), BitsOf(b / 2, n - 1);
      assert BitsOf(a, n)[..n - 1] == x && BitsOf(b, n)[..n - 1] == y;
      assert BitsOf(a, n)[n - 1] == (a % 2 == 1) && BitsOf(b, n)[n - 1] == (b % 2 == 1);
      BitsOfInjective(a / 2, b / 2, n - 1);
    }
  }

  // ---------------------------------------------------------------- octets and bits

  lemma {:induction false} BytesToBitsConcat(a: seq<Byte>, b: seq<Byte>)
    ensures BytesToBits(a + b) == BytesToBits(a) + BytesToBits(b)
  {
    if a == [] {
      assert a + b == b;
    } else {
      assert (a + b)[1..] == a[1..] + b;
      BytesToBitsConcat(a[1..], b);
    }
  }

  lemma BytesToBitsSlice(s: seq<Byte>, i: nat, j: nat)
    requires i <= j <= |s|
    ensures BytesToBits(s)[8 * i..8 * j] == BytesToBits(s[i..j])
  {
    hide BytesToBits;
    ThreeParts(s, i, j);
    SliceOfParts(s, s[..i], s[i..j], s[j..]);
  }

  lemma ThreeParts<T>(s: seq<T>, i: nat, j: nat)
    requires i <= j <= |s|
    ensures s == s[..i] + s[i..j] + s[j..]
  {
  }

  lemma SliceOfParts(s: seq<Byte>, a: seq<Byte>, b: seq<Byte>, c: seq<Byte>)
    requires s == a + b + c
    ensures BytesToBits(s)[8 * |a|..8 * (|a| + |b|)] == BytesToBits(b)
  {
    hide BytesToBits;
    BytesToBitsConcat(a + b, c);
    BytesToBitsConcat(a, b);
    MiddlePart(BytesToBits(a), BytesToBits(b), BytesToBits(c));
  }

  lemma MiddlePart<T>(a: seq<T>, b: seq<T>, c: seq<T>)
    ensures (a + b + c)[|a|..|a| + |b|] == b
  {
  }

  lemma {:induction false} BytesToBitsInjective(a: seq<Byte>, b: seq<Byte>)
    requires BytesToBits(a) == BytesToBits(b)
    ensures a == b
  {
    assert |a| == |b|;
    if a != [] {
      Pow2Of8();
      assert BytesToBits(a)[..8] == BitsOf(a[0], 8) && BytesToBits(b)[..8] == BitsOf(b[0], 8);
      BitsOfInjective(a[0], b[0], 8);
      assert BytesToBits(a)[8..] == BytesToBits(a[1..]) && BytesToBits(b)[8..] == BytesToBits(b[1..]);
      BytesToBitsInjective(a[1..], b[1..]);
    }
  }

  lemma ByteBits(b: Byte)
    ensures BytesToBits([b]) == BitsOf(b, 8)
  {
    assert [b][1..] == [];
    assert BytesToBits([b]) == BitsOf(b, 8) + BytesToBits([]);
  }

  /** The octets of a big-endian word carry its bits in order. */
  lemma {:induction false} BigEndianBits(v: nat, n: nat)
    ensures BytesToBits(BigEndian(v, n)) == BitsOf(v, 8 * n)
  {
    if n > 0 {
      Pow2Of8();
      BigEndianBits(v / 256, n - 1);
      BytesToBitsConcat(BigEndian(v / 256, n - 1), [v % 256]);
      ByteBits(v % 256);
      BitsOfAppend(v / 256, v % 256, 8 * (n - 1), 8);
    }
  }

  lemma {:induction false} FromBigEndianBits(s: seq<Byte>)
    ensures FromBigEndian(s) < Pow2(8 * |s|)
    ensures BitsOf(FromBigEndian(s), 8 * |s|) == BytesToBits(s)
  {
    if s != [] {
      var h, b := s[..|s| - 1], s[|s| - 1];
      Pow2Of8();
      FromBigEndianBits(h);
      Pow2Add(8 * |h|, 8);
      assert s == h + [b];
      BytesToBitsConcat(h, [b]);
      ByteBits(b);
      BitsOfAppend(FromBigEndian(h), b, 8 * |h|, 8);
    }
  }

  lemma {:induction false} BitsToBytesInverse(bs: seq<bool>)
    requires |bs| % 8 == 0
    ensures BytesToBits(BitsToBytes(bs)) == bs
  {
    if bs != [] {
      ValueOfBits(bs[..8]);
      BitsToBytesInverse(bs[8..]);
    }
  }
}
