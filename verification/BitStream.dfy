/** The bit stream that reads up to 32 bits through an eight-byte window. */
module BitStreams {
  import opened Words
  import opened Bits
  import opened Outcomes

  /** A bit string of at most 32 bits, left-aligned in a 32-bit word. */
  function LeftAligned(bs: seq<bool>): nat
    requires |bs| <= 32
  {
    ValueOf(bs) * Pow2(32 - |bs|)
  }

  /** The bits in the window are those of the data, whatever surrounds the data. */
  lemma WindowBits(memory: seq<Byte>, data: seq<Byte>, window: seq<Byte>, last: nat, i: nat, j: nat, lo: nat, hi: nat)
    requires |memory| == |data| + 8 && data == memory[7..7 + |data|]
    requires last <= |data| && window == memory[last..last + 8]
    requires i <= j <= 64 && lo <= hi <= 8 * |data| && 8 * last + i == 56 + lo && 8 * last + j == 56 + hi
    ensures BytesToBits(window)[i..j] == BytesToBits(data)[lo..hi]
  {
    BitsOfPart(memory, last, last + 8, i, j, 56 + lo, 56 + hi);
    BitsOfPart(memory, 7, 7 + |data|, lo, hi, 56 + lo, 56 + hi);
  }

  /** Bits of a part of a byte string are bits of the string. */
  lemma BitsOfPart(s: seq<Byte>, a: nat, b: nat, i: nat, j: nat, lo: nat, hi: nat)
    requires a <= b <= |s| && i <= j <= 8 * (b - a) && lo == 8 * a + i && hi == 8 * a + j
    ensures BytesToBits(s[a..b])[i..j] == BytesToBits(s)[lo..hi]
  {
    BytesToBitsSlice(s, a, b);
    PartOf(BytesToBits(s[a..b]), BytesToBits(s), 8 * a, 8 * b, i, j, lo, hi);
  }

  lemma PartOf<T>(part: seq<T>, all: seq<T>, a: nat, b: nat, i: nat, j: nat, lo: nat, hi: nat)
    requires a <= b <= |all| && part == all[a..b] && i <= j <= b - a && lo == a + i && hi == a + j
    ensures part[i..j] == all[lo..hi]
  {
    var t, u := part[i..j], all[lo..hi];
    assert |t| == |u|;
    forall k | 0 <= k < |t|
      ensures t[k] == u[k]
    {
      assert t[k] == part[i + k] == all[a + (i + k)];
    }
  }

  /** How the window, the gaps and the last shift fit together. */
  lemma Geometry(offset: nat, len: nat)
    ensures var last, gap, first := (offset + len) / 8, 8 - (offset + len) % 8, offset % 8;
            var shift := 32 - (last - offset / 8 + 1) * 8 + first;
            && 8 * last + 8 - gap == offset + len && 1 <= gap <= 8 && last >= offset / 8
            && gap + shift + len == 32 && shift < 32
            && (shift >= 0 <==> first + len < 32)
  {
  }

  /** Selecting `len` bits of a 64-bit word above a gap. */
  lemma SelectedBits(word: nat, gap: nat, len: nat, bits: seq<bool>, lo: nat, hi: nat)
    requires gap + len <= 64 && bits == BitsOf(word, 64) && hi == 64 - gap && lo == hi - len
    ensures word / Pow2(gap) % Pow2(len) == ValueOf(bits[lo..hi])
  {
    DivModLaw(word, Pow2(gap));
    BitsOfHigh(word, 64, gap);
    LowBitsValue(word / Pow2(gap), hi, len, bits[..hi], lo);
    TailOfPrefix(bits, hi, lo);
  }

  lemma LowBitsValue(q: nat, n: nat, len: nat, bits: seq<bool>, lo: nat)
    requires len <= n && lo == n - len && bits == BitsOf(q, n)
    ensures q % Pow2(len) == ValueOf(bits[lo..])
  {
    BitsOfLow(q, n, len);
    BitsOfMod(q, len, len);
    ValueOfBitsOf(q % Pow2(len), len);
  }

  lemma TailOfPrefix<T>(s: seq<T>, n: nat, k: nat)
    requires k <= n <= |s|
    ensures s[..n][k..] == s[k..n]
  {
  }

  /** The masked word, shifted to the left edge of 32 bits. */
  lemma ShiftedToLeft(x: nat, gap: nat, shift: nat, len: nat)
    requires x < Pow2(len) && gap + shift + len == 32
    ensures x * Pow2(gap) >= 0
    ensures ShiftLeft(x * Pow2(gap), shift, 64) % TWO_32 == x * Pow2(32 - len)
  {
    Pow2Add(gap, shift);
    MulAssoc(x, Pow2(gap), Pow2(shift));
    MulNonNegative(x, Pow2(gap));
    Pow2Add(len, 32 - len);
    Pow2Of32();
    Pow2Of64();
    MulNonNegative(x, Pow2(32 - len));
    MulMonotone(x, Pow2(len) - 1, Pow2(32 - len));
    MulLess(Pow2(len), Pow2(32 - len));
    DivModUnique(0, Pow2(64), x * Pow2(32 - len));
    DivModUnique(0, TWO_32, x * Pow2(32 - len));
  }

  class IBitStream {
    const data: seq<Byte>
    /** The memory around the data, which the window may touch. */
    const before: seq<Byte>
    const after: Byte
    var offset: nat

    ghost predicate Valid()
      reads this
    {
      |before| == 7 && offset <= 8 * |data|
    }

    constructor (before: seq<Byte>, data: seq<Byte>, after: Byte)
      requires |before| == 7
      ensures Valid() && offset == 0
      ensures this.data == data
    {
      this.before := before;
      this.data := data;
      this.after := after;
      offset := 0;
    }

    predicate Empty()
      reads this
    {
      offset == 8 * |data|
    }

    /**
     * The next bits, left-aligned, without consuming them. The last shift is defined exactly when the
     * bits and the gap before them are fewer than 32.
     */
    method TakeBits(len: nat) returns (r: Outcome<nat>)
      requires Valid() && offset + len <= 8 * |data| && len <= 32
      ensures offset % 8 + len < 32 ==> r == Ok(LeftAligned(BytesToBits(data)[offset..offset + len]))
      ensures offset % 8 + len >= 32 ==> r == Undefined
    {
      Geometry(offset, len);
      var lastInd := (offset + len) / 8;
      var lastGap := 8 - (offset + len) % 8;
      var bytesLen := lastInd - offset / 8 + 1;
      var firstGap := offset % 8;
      var shift := Wrap64(32 - bytesLen * 8 + firstGap);
      if shift >= 64 {
        return Undefined;
      }
      var memory := before + data + [after];
      assert data == memory[7..7 + |data|];
      var window := memory[lastInd..lastInd + 8];
      WindowBits(memory, data, window, lastInd, 64 - lastGap - len, 64 - lastGap, offset, offset + len);
      r := Aligned(window, lastGap, shift, len);
    }

    static method Aligned(window: seq<Byte>, gap: nat, shift: nat, len: nat) returns (r: Outcome<nat>)
      requires |window| == 8 && gap + shift + len == 32
      ensures r == Ok(LeftAligned(BytesToBits(window)[64 - gap - len..64 - gap]))
    {
      var x := Select(window, gap, len);
      ShiftedToLeft(ValueOf(BytesToBits(window)[64 - gap - len..64 - gap]), gap, shift, len);
      r := Ok(ShiftLeft(x, shift, 64) % TWO_32);
    }

    /** The masked window. */
    static method Select(window: seq<Byte>, gap: nat, len: nat) returns (bits: nat)
      requires |window| == 8 && gap + len <= 64
      ensures var x := ValueOf(BytesToBits(window)[64 - gap - len..64 - gap]);
              x < Pow2(len) && bits == x * Pow2(gap)
    {
      FromBigEndianBits(window);
      bits := FromBigEndian(window);
      SelectedBits(bits, gap, len, BytesToBits(window), 64 - gap - len, 64 - gap);
      ValueOfBits(BytesToBits(window)[64 - gap - len..64 - gap]);
      AndWindow(bits, len, gap);
      MaskShift(len, gap);
      bits := BitAnd(bits, ShiftLeft(MakeMask(len, 64), gap, 64));
    }

    method CommitBits(bitLen: nat)
      requires Valid()
      modifies this
      ensures Valid() && offset == Min(old(offset) + bitLen, 8 * |data|)
    {
      offset := Min(offset + bitLen, |data| * 8);
    }
  }

  lemma MaskShift(len: nat, gap: nat)
    requires gap + len <= 64
    ensures ShiftLeft(MakeMask(len, 64), gap, 64) == (Pow2(len) - 1) * Pow2(gap)
  {
    SmallRemainder(Pow2(len) - 1, Pow2(64 - gap)) by { Pow2Monotone(len, 64 - gap); }
    ShiftLeftIsMultiple(Pow2(len) - 1, gap, 64);
  }

  lemma SmallRemainder(v: nat, m: nat)
    requires v < m
    ensures v % m == v
  {
    DivModUnique(0, m, v);
  }
}
