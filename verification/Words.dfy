/** Machine words as natural numbers: powers of two, shifts, masks and the bitwise operators. */
module Words {

  type Byte = b: int | 0 <= b < 256

  const TWO_32 := 0x1_0000_0000
  const TWO_64 := 0x1_0000_0000_0000_0000

  /** Unsigned 64-bit wrap-around. */
  function Wrap64(v: int): (r: nat)
    ensures r < TWO_64
    ensures 0 <= v < TWO_64 ==> r == v
    ensures -TWO_64 <= v < 0 ==> r == v + TWO_64
    ensures TWO_64 <= v < 2 * TWO_64 ==> r == v - TWO_64
    decreases if v < 0 then TWO_64 - v else v
  {
    if v < 0 then Wrap64(v + TWO_64)
    else if v >= TWO_64 then Wrap64(v - TWO_64)
    else v
  }

  /** Unsigned 32-bit wrap-around. */
  function Wrap32(v: int): (r: nat)
    ensures r < TWO_32
    ensures 0 <= v < TWO_32 ==> r == v
    ensures -TWO_32 <= v < 0 ==> r == v + TWO_32
    ensures TWO_32 <= v < 2 * TWO_32 ==> r == v - TWO_32
    decreases if v < 0 then TWO_32 - v else v
  {
    if v < 0 then Wrap32(v + TWO_32)
    else if v >= TWO_32 then Wrap32(v - TWO_32)
    else v
  }

  function Min(a: nat, b: nat): (r: nat)
    ensures r <= a && r <= b && (r == a || r == b)
  {
    if a < b then a else b
  }

  function Max(a: nat, b: nat): (r: nat)
    ensures r >= a && r >= b && (r == a || r == b)
  {
    if a < b then b else a
  }

  function Pow2(n: nat): (p: nat)
    ensures p > 0
  {
    if n == 0 then 1 else 2 * Pow2(n - 1)
  }

  /** The left shift of a word of `width` bits: high bits are lost. */
  function ShiftLeft(v: nat, k: nat, width: nat): nat {
    v * Pow2(k) % Pow2(width)
  }

  function ShiftRight(v: nat, k: nat): nat {
    DivModLaw(v, Pow2(k));
    v / Pow2(k)
  }

  function BitAnd(a: nat, b: nat): nat {
    if a == 0 || b == 0 then 0
    else 2 * BitAnd(a / 2, b / 2) + if a % 2 == 1 && b % 2 == 1 then 1 else 0
  }

  function BitOr(a: nat, b: nat): nat
    decreases a + b
  {
    if a == 0 then b
    else if b == 0 then a
    else 2 * BitOr(a / 2, b / 2) + if a % 2 == 1 || b % 2 == 1 then 1 else 0
  }

  /** `n` ones, or a full word of ones when `n` is not less than the width. */
  function MakeMask(n: nat, width: nat): nat {
    if n >= width then Pow2(width) - 1 else Pow2(n) - 1
  }

  /** The bitwise complement of a 64-bit word. */
  function Not64(v: nat): nat
    requires v < TWO_64
  {
    TWO_64 - 1 - v
  }

  /** The rounding of the library: add the low mask, then clear the low bits. */
  function CeilOrder2(value: nat, order: nat): nat
    requires order < 64
  {
    Pow2Monotone(order, 64);
    Pow2Of64();
    BitAnd(Wrap64(value + MakeMask(order, 64)), Not64(MakeMask(order, 64)))
  }

  // ---------------------------------------------------------------- powers

  lemma Pow2Of8()
    ensures Pow2(3) == 8 && Pow2(4) == 16 && Pow2(5) == 32 && Pow2(6) == 64 && Pow2(7) == 128 && Pow2(8) == 256
  {
  }

  lemma Pow2Of32()
    ensures Pow2(32) == TWO_32
  {
    Pow2Of8();
    Pow2Add(8, 8);
    Pow2Add(16, 16);
  }

  lemma Pow2Of64()
    ensures Pow2(64) == TWO_64
  {
    Pow2Of32();
    Pow2Add(32, 32);
  }

  lemma Pow2OfSevens()
    ensures Pow2(14) == 0x4000 && Pow2(21) == 0x20_0000 && Pow2(28) == 0x1000_0000 && Pow2(35) == 0x8_0000_0000
    ensures Pow2(22) == 0x40_0000
  {
    Pow2Of8();
    Pow2Add(7, 7);
    Pow2Add(14, 7);
    Pow2Add(14, 14);
    Pow2Add(28, 7);
    Pow2Add(14, 8);
  }

  lemma {:induction false} Pow2Add(a: nat, b: nat)
    ensures Pow2(a + b) == Pow2(a) * Pow2(b)
  {
    if a > 0 {
      Pow2Add(a - 1, b);
      assert Pow2(a + b) == 2 * (Pow2(a - 1) * Pow2(b));
      MulAssoc(2, Pow2(a - 1), Pow2(b));
    }
  }

  lemma {:induction false} Pow2Monotone(a: nat, b: nat)
    requires a <= b
    ensures Pow2(a) <= Pow2(b)
  {
    if a < b { Pow2Monotone(a, b - 1); }
  }

  // ---------------------------------------------------------------- nonlinear arithmetic

  lemma MulAssoc(a: int, b: int, c: int)
    ensures a * (b * c) == (a * b) * c
  {
  }

  lemma MulAdd(a: int, b: int, c: int)
    ensures (a + b) * c == a * c + b * c
  {
  }

  lemma MulMonotone(a: int, b: int, c: int)
    requires a <= b && 0 <= c
    ensures a * c <= b * c
  {
  }

  lemma MulTwice(a: int, b: int)
    ensures a * (2 * b) == 2 * (a * b)
  {
  }

  lemma MulNonNegative(a: int, b: int)
    requires a >= 0 && b >= 0
    ensures a * b >= 0
  {
  }

  lemma MulLess(q: int, p: int)
    ensures (q - 1) * p == q * p - p
  {
  }

  lemma DivModLaw(v: int, m: int)
    requires m > 0
    ensures v == v / m * m + v % m && 0 <= v % m < m
    ensures v >= 0 ==> v / m >= 0
  {
  }

  /** Quotient and remainder are unique. */
  lemma DivModUnique(q: int, m: int, r: int)
    requires 0 <= r < m
    ensures (q * m + r) / m == q && (q * m + r) % m == r
  {
    var v := q * m + r;
    var d := v / m - q;
    DivModLaw(v, m);
    MulAdd(d, q, m);
    assert d * m == r - v % m;
    if d >= 1 {
      MulMonotone(1, d, m);
    } else if d <= -1 {
      MulMonotone(d, -1, m);
    }
  }

  /** Dividing by a product is dividing twice. */
  lemma DivDiv(v: nat, a: nat, b: nat)
    requires a > 0 && b > 0
    ensures a * b > 0
    ensures v / (a * b) == v / a / b
    ensures v % (a * b) == (v / a % b) * a + v % a
  {
    var q, r := v / a, v % a;
    DivModLaw(v, a);
    DivModLaw(q, b);
    MulMonotone(1, b, a);
    TwoDigits(q / b, q % b, r, a, b);
    DivModUnique(q / b, a * b, q % b * a + r);
  }

  lemma TwoDigits(h: nat, l: nat, r: nat, a: nat, b: nat)
    requires l < b && r < a
    ensures (h * b + l) * a + r == h * (a * b) + (l * a + r)
    ensures 0 <= l * a + r < a * b
  {
    MulAdd(h * b, l, a);
    assert h * b * a == h * (a * b) by { MulAssoc(h, b, a); }
    MulMonotone(l, b - 1, a);
    MulLess(b, a);
    MulNonNegative(l, a);
  }

  /** The remainder modulo a multiple keeps the smaller remainder. */
  lemma ModMod(v: nat, a: nat, b: nat)
    requires a > 0 && b > 0
    ensures a * b > 0 && v % (a * b) % a == v % a
  {
    DivDiv(v, a, b);
    DivModUnique(v / a % b, a, v % a);
  }

  // ---------------------------------------------------------------- bitwise operators

  /** Or with a value below the lowest set bit is addition. */
  lemma {:induction false} OrDisjoint(a: nat, c: nat, k: nat)
    requires c < Pow2(k)
    ensures a * Pow2(k) >= 0 && BitOr(a * Pow2(k), c) == a * Pow2(k) + c
  {
    MulNonNegative(a, Pow2(k));
    if k > 0 {
      var h := a * Pow2(k - 1);
      MulNonNegative(a, Pow2(k - 1));
      MulTwice(a, Pow2(k - 1));
      OrDisjoint(a, c / 2, k - 1);
      OrDouble(h, c);
    }
  }

  lemma {:induction false} OrCommutes(a: nat, b: nat)
    ensures BitOr(a, b) == BitOr(b, a)
    decreases a + b
  {
    if a != 0 && b != 0 { OrCommutes(a / 2, b / 2); }
  }

  lemma OrDouble(h: nat, c: nat)
    ensures BitOr(2 * h, c) == 2 * BitOr(h, c / 2) + c % 2
  {
  }

  /** And with a run of `n` ones keeps the low `n` bits. */
  lemma {:induction false} AndOnes(a: nat, n: nat)
    ensures BitAnd(a, Pow2(n) - 1) == a % Pow2(n)
  {
    if n > 0 {
      var p := Pow2(n - 1);
      assert (2 * p - 1) / 2 == p - 1;
      AndOnes(a / 2, n - 1);
      DivDiv(a, 2, p);
      if a == 0 {
        DivModUnique(0, 2 * p, 0);
      } else {
        assert (2 * p - 1) % 2 == 1;
        assert BitAnd(a, 2 * p - 1) == 2 * (a / 2 % p) + a % 2;
      }
    }
  }

  lemma AndOnesIs(a: nat, n: nat, p: nat)
    requires p == Pow2(n)
    ensures BitAnd(a, p - 1) == a % p
  {
    AndOnes(a, n);
  }

  lemma OrBelow(a: nat, c: nat, q: nat, k: nat)
    requires a == q * Pow2(k) && c < Pow2(k)
    ensures BitOr(a, c) == a + c == BitOr(c, a)
  {
    OrDisjoint(q, c, k);
    OrCommutes(c, a);
  }

  /** And of two even-shifted words shifts out. */
  lemma AndDouble(a: nat, m: nat)
    ensures BitAnd(a, 2 * m) == 2 * BitAnd(a / 2, m)
  {
    if a != 0 && m != 0 {
      assert 2 * m / 2 == m && 2 * m % 2 == 0;
    }
  }

  /** And with `n` ones placed above `gap` zeros selects that window of bits. */
  lemma {:induction false} AndWindow(a: nat, n: nat, gap: nat)
    ensures (Pow2(n) - 1) * Pow2(gap) >= 0
    ensures BitAnd(a, (Pow2(n) - 1) * Pow2(gap)) == a / Pow2(gap) % Pow2(n) * Pow2(gap)
  {
    MulNonNegative(Pow2(n) - 1, Pow2(gap));
    if gap == 0 {
      AndOnes(a, n);
    } else {
      MulNonNegative(Pow2(n) - 1, Pow2(gap - 1));
      MulTwice(Pow2(n) - 1, Pow2(gap - 1));
      AndDouble(a, (Pow2(n) - 1) * Pow2(gap - 1));
      AndWindow(a / 2, n, gap - 1);
      WindowDouble(a, Pow2(n), Pow2(gap - 1));
    }
  }

  lemma WindowDouble(a: nat, p: nat, q: nat)
    requires p > 0 && q > 0
    ensures a / (2 * q) % p * (2 * q) == 2 * (a / 2 / q % p * q)
  {
    DivDiv(a, 2, q);
    MulTwice(a / 2 / q % p, q);
  }

  /** What the rounding computes: the least multiple of 2^order that is not less. */
  lemma CeilOrder2Rounds(value: nat, order: nat)
    requires order < 64 && value + Pow2(order) <= TWO_64
    ensures CeilOrder2(value, order) % Pow2(order) == 0
    ensures value <= CeilOrder2(value, order) < value + Pow2(order)
    ensures CeilOrder2(value, order) == (value + Pow2(order) - 1) / Pow2(order) * Pow2(order)
  {
    var p := Pow2(order);
    var c := RoundUp(value, order);
    assert MakeMask(order, 64) == p - 1;
    assert Not64(p - 1) == TWO_64 - p;
    assert CeilOrder2(value, order) == c;
  }

  lemma ClearLow(s: nat, order: nat)
    requires order < 64
    ensures TWO_64 - Pow2(order) >= 0
    ensures BitAnd(s, TWO_64 - Pow2(order)) == s / Pow2(order) % Pow2(64 - order) * Pow2(order)
  {
    Pow2Of64();
    Pow2Add(64 - order, order);
    MulLess(Pow2(64 - order), Pow2(order));
    AndWindow(s, 64 - order, order);
  }

  lemma RoundUp(value: nat, order: nat) returns (c: nat)
    requires order < 64 && value + Pow2(order) <= TWO_64
    ensures c == BitAnd(value + Pow2(order) - 1, TWO_64 - Pow2(order))
    ensures c % Pow2(order) == 0 && value <= c < value + Pow2(order)
    ensures c == (value + Pow2(order) - 1) / Pow2(order) * Pow2(order)
  {
    Pow2Of64();
    Pow2Add(64 - order, order);
    ClearLow(value + Pow2(order) - 1, order);
    c := Multiple(value, Pow2(order), Pow2(64 - order));
  }

  lemma Multiple(value: nat, p: nat, q: nat) returns (c: nat)
    requires p > 0 && q > 0 && value + p <= q * p
    ensures c == (value + p - 1) / p % q * p
    ensures c % p == 0 && value <= c < value + p
    ensures c == (value + p - 1) / p * p
  {
    var s := value + p - 1;
    QuotientBelow(s, p, q);
    DivModUnique(0, q, s / p);
    DivModUnique(s / p, p, 0);
    DivModLaw(s, p);
    c := s / p * p;
  }

  lemma QuotientBelow(s: nat, p: nat, q: nat)
    requires p > 0 && s < q * p
    ensures s / p < q
  {
    DivModLaw(s, p);
    var d := s / p - q;
    assert d * p == s / p * p - q * p;
    assert d >= 0 ==> d * p >= 0;
  }

  lemma Pow2Quotient(x: nat, n: nat, k: nat)
    requires x < Pow2(n + k)
    ensures x / Pow2(k) < Pow2(n)
  {
    Pow2Add(n, k);
    QuotientBelow(x, Pow2(k), Pow2(n));
  }

  /** A left shift keeps the low bits, as a multiple. */
  lemma ShiftLeftIsMultiple(v: nat, k: nat, w: nat)
    requires k <= w
    ensures v % Pow2(w - k) * Pow2(k) >= 0
    ensures ShiftLeft(v, k, w) == v % Pow2(w - k) * Pow2(k)
  {
    Pow2Add(w - k, k);
    ScaledRemainder(v, Pow2(w - k), Pow2(k));
  }

  lemma ScaledRemainder(v: nat, a: nat, b: nat)
    requires a > 0 && b > 0
    ensures a * b > 0 && v % a * b >= 0 && v * b % (a * b) == v % a * b
  {
    DivModLaw(v, a);
    MulNonNegative(v % a, b);
    MulAdd(v / a * a, v % a, b);
    MulAssoc(v / a, a, b);
    MulMonotone(v % a, a - 1, b);
    MulLess(a, b);
    MulMonotone(1, a, b);
    DivModUnique(v / a, a * b, v % a * b);
  }

  // ---------------------------------------------------------------- sequences

  /** Pieces put together. */
  function Concat<T>(pieces: seq<seq<T>>): seq<T> {
    if pieces == [] then [] else Concat(pieces[..|pieces| - 1]) + pieces[|pieces| - 1]
  }

  lemma ConcatAssoc<T>(a: seq<T>, b: seq<T>, c: seq<T>)
    ensures (a + b) + c == a + (b + c)
  {
  }

  lemma TakeMore<T>(s: seq<T>, i: nat, n: nat)
    requires i + n <= |s|
    ensures s[..i] + s[i..][..n] == s[..i + n]
  {
  }

  lemma Regroup<T>(a: seq<T>, b: seq<T>, c: seq<T>, d: seq<T>, e: seq<T>)
    requires b + c == d + e
    ensures (a + b) + c == (a + d) + e
  {
    assert (a + b) + c == a + (b + c);
    assert (a + d) + e == a + (d + e);
  }

}
