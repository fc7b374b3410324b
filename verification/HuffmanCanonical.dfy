/** The Huffman table is the canonical complete code of its code lengths. */
module HuffmanCanonical {
  import opened Words
  import opened Huffman
  import opened HuffmanTable

  /** The canonical order of symbols: by code length, then by number. */
  predicate Precedes(c: Code, i: nat, d: Code, j: nat) {
    c.len < d.len || (c.len == d.len && i < j)
  }

  /** The codes of one length begin the words of one stretch. */
  predicate InStretch(c: Code) {
    match c.len
    case 5 => c.bits < 0x50000000
    case 6 => 0x50000000 <= c.bits < 0xb8000000
    case 7 => 0xb8000000 <= c.bits < 0xf8000000
    case 8 => 0xf8000000 <= c.bits < 0xfe000000
    case 10 => 0xfe000000 <= c.bits < 0xff400000
    case 11 => 0xff400000 <= c.bits < 0xffa00000
    case 12 => 0xffa00000 <= c.bits < 0xffc00000
    case 13 => 0xffc00000 <= c.bits < 0xfff00000
    case 14 => 0xfff00000 <= c.bits < 0xfff80000
    case 15 => 0xfff80000 <= c.bits < 0xfffe0000
    case 19 => 0xfffe0000 <= c.bits < 0xfffe6000
    case 20 => 0xfffe6000 <= c.bits < 0xfffee000
    case 21 => 0xfffee000 <= c.bits < 0xffff4800
    case 22 => 0xffff4800 <= c.bits < 0xffffb000
    case 23 => 0xffffb000 <= c.bits < 0xffffea00
    case 24 => 0xffffea00 <= c.bits < 0xfffff600
    case 25 => 0xfffff600 <= c.bits < 0xfffff800
    case 26 => 0xfffff800 <= c.bits < 0xfffffbc0
    case 27 => 0xfffffbc0 <= c.bits < 0xfffffe20
    case 28 => 0xfffffe20 <= c.bits < 0xfffffff0
    case 30 => 0xfffffff0 <= c.bits
    case _ => false
  }

  // Each row is checked on its own.

  lemma Stretch0(k: nat) requires k < 16 ensures InStretch(LowRow(0)[k]) {}
  lemma Stretch1(k: nat) requires k < 16 ensures InStretch(LowRow(1)[k]) {}
  lemma Stretch2(k: nat) requires k < 16 ensures InStretch(LowRow(2)[k]) {}
  lemma Stretch3(k: nat) requires k < 16 ensures InStretch(LowRow(3)[k]) {}
  lemma Stretch4(k: nat) requires k < 16 ensures InStretch(LowRow(4)[k]) {}
  lemma Stretch5(k: nat) requires k < 16 ensures InStretch(LowRow(5)[k]) {}
  lemma Stretch6(k: nat) requires k < 16 ensures InStretch(LowRow(6)[k]) {}
  lemma Stretch7(k: nat) requires k < 16 ensures InStretch(LowRow(7)[k]) {}
  lemma Stretch8(k: nat) requires k < 16 ensures InStretch(HighRow(0)[k]) {}
  lemma Stretch9(k: nat) requires k < 16 ensures InStretch(HighRow(1)[k]) {}
  lemma Stretch10(k: nat) requires k < 16 ensures InStretch(HighRow(2)[k]) {}
  lemma Stretch11(k: nat) requires k < 16 ensures InStretch(HighRow(3)[k]) {}
  lemma Stretch12(k: nat) requires k < 16 ensures InStretch(HighRow(4)[k]) {}
  lemma Stretch13(k: nat) requires k < 16 ensures InStretch(HighRow(5)[k]) {}
  lemma Stretch14(k: nat) requires k < 16 ensures InStretch(HighRow(6)[k]) {}
  lemma Stretch15(k: nat) requires k < 16 ensures InStretch(HighRow(7)[k]) {}

  lemma EveryStretch(s: nat)
    requires s < 257
    ensures InStretch(CodeOf(s))
  {
    var k := s % 16;
    match s / 16
    case 0 => Stretch0(k);
    case 1 => Stretch1(k);
    case 2 => Stretch2(k);
    case 3 => Stretch3(k);
    case 4 => Stretch4(k);
    case 5 => Stretch5(k);
    case 6 => Stretch6(k);
    case 7 => Stretch7(k);
    case 8 => Stretch8(k);
    case 9 => Stretch9(k);
    case 10 => Stretch10(k);
    case 11 => Stretch11(k);
    case 12 => Stretch12(k);
    case 13 => Stretch13(k);
    case 14 => Stretch14(k);
    case 15 => Stretch15(k);
    case _ =>
  }

  // In each stretch the symbols rise.

  lemma Rise5(u: nat, v: nat) requires u <= v ensures Locate5(u) <= Locate5(v) {}
  lemma Rise6(u: nat, v: nat) requires u <= v ensures Locate6(u) <= Locate6(v) {}
  lemma Rise7(u: nat, v: nat) requires u <= v ensures Locate7(u) <= Locate7(v) {}
  lemma Rise8(u: nat, v: nat) requires u <= v ensures Locate8(u) <= Locate8(v) {}
  lemma Rise10(u: nat, v: nat) requires u <= v ensures Locate10(u) <= Locate10(v) {}
  lemma Rise11(u: nat, v: nat) requires u <= v ensures Locate11(u) <= Locate11(v) {}
  lemma Rise12(u: nat, v: nat) requires u <= v ensures Locate12(u) <= Locate12(v) {}
  lemma Rise13(u: nat, v: nat) requires u <= v ensures Locate13(u) <= Locate13(v) {}
  lemma Rise14(u: nat, v: nat) requires u <= v ensures Locate14(u) <= Locate14(v) {}
  lemma Rise15(u: nat, v: nat) requires u <= v ensures Locate15(u) <= Locate15(v) {}
  lemma Rise19(u: nat, v: nat) requires u <= v ensures Locate19(u) <= Locate19(v) {}
  lemma Rise20(u: nat, v: nat) requires u <= v ensures Locate20(u) <= Locate20(v) {}
  lemma Rise21(u: nat, v: nat) requires u <= v ensures Locate21(u) <= Locate21(v) {}
  lemma Rise22(u: nat, v: nat) requires u <= v ensures Locate22(u) <= Locate22(v) {}
  lemma Rise23(u: nat, v: nat) requires u <= v ensures Locate23(u) <= Locate23(v) {}
  lemma Rise24(u: nat, v: nat) requires u <= v ensures Locate24(u) <= Locate24(v) {}
  lemma Rise25(u: nat, v: nat) requires u <= v ensures Locate25(u) <= Locate25(v) {}
  lemma Rise26(u: nat, v: nat) requires u <= v ensures Locate26(u) <= Locate26(v) {}
  lemma Rise27(u: nat, v: nat) requires u <= v ensures Locate27(u) <= Locate27(v) {}
  lemma Rise28(u: nat, v: nat) requires u <= v ensures Locate28(u) <= Locate28(v) {}
  lemma Rise30(u: nat, v: nat) requires u <= v ensures Locate30(u) <= Locate30(v) {}

  // Each word of a stretch begins with the code of the symbol that is located there.

  ghost predicate Begins(s: nat, word: nat) {
    s < 257 && Owns(CodeOf(s), word)
  }

  lemma Owner5(word: nat) requires word < 0x50000000 ensures Begins(Locate5(word), word) {}
  lemma Owner6(word: nat) requires 0x50000000 <= word < 0xb8000000 ensures Begins(Locate6(word), word) {}
  lemma Owner7(word: nat) requires 0xb8000000 <= word < 0xf8000000 ensures Begins(Locate7(word), word) {}
  lemma Owner8(word: nat) requires 0xf8000000 <= word < 0xfe000000 ensures Begins(Locate8(word), word) {}
  lemma Owner10(word: nat) requires 0xfe000000 <= word < 0xff400000 ensures Begins(Locate10(word), word) {}
  lemma Owner11(word: nat) requires 0xff400000 <= word < 0xffa00000 ensures Begins(Locate11(word), word) {}
  lemma Owner12(word: nat) requires 0xffa00000 <= word < 0xffc00000 ensures Begins(Locate12(word), word) {}
  lemma Owner13(word: nat) requires 0xffc00000 <= word < 0xfff00000 ensures Begins(Locate13(word), word) {}
  lemma Owner14(word: nat) requires 0xfff00000 <= word < 0xfff80000 ensures Begins(Locate14(word), word) {}
  lemma Owner15(word: nat) requires 0xfff80000 <= word < 0xfffe0000 ensures Begins(Locate15(word), word) {}
  lemma Owner19(word: nat) requires 0xfffe0000 <= word < 0xfffe6000 ensures Begins(Locate19(word), word) {}
  lemma Owner20(word: nat) requires 0xfffe6000 <= word < 0xfffee000 ensures Begins(Locate20(word), word) {}
  lemma Owner21(word: nat) requires 0xfffee000 <= word < 0xffff4800 ensures Begins(Locate21(word), word) {}
  lemma Owner22(word: nat) requires 0xffff4800 <= word < 0xffffb000 ensures Begins(Locate22(word), word) {}
  lemma Owner23(word: nat) requires 0xffffb000 <= word < 0xffffea00 ensures Begins(Locate23(word), word) {}
  lemma Owner24(word: nat) requires 0xffffea00 <= word < 0xfffff600 ensures Begins(Locate24(word), word) {}
  lemma Owner25(word: nat) requires 0xfffff600 <= word < 0xfffff800 ensures Begins(Locate25(word), word) {}
  lemma Owner26(word: nat) requires 0xfffff800 <= word < 0xfffffbc0 ensures Begins(Locate26(word), word) {}
  lemma Owner27(word: nat) requires 0xfffffbc0 <= word < 0xfffffe20 ensures Begins(Locate27(word), word) {}
  lemma Owner28(word: nat) requires 0xfffffe20 <= word < 0xfffffff0 ensures Begins(Locate28(word), word) {}
  lemma Owner30(word: nat) requires 0xfffffff0 <= word < TWO_32 ensures Begins(Locate30(word), word) {}

  lemma EveryOwner(word: nat)
    requires word < TWO_32
    ensures Begins(Locate(word), word)
  {
    hide Begins;
    if word < 0x50000000 { Owner5(word); } else if word < 0xb8000000 { Owner6(word); } else
    if word < 0xf8000000 { Owner7(word); } else if word < 0xfe000000 { Owner8(word); } else
    if word < 0xff400000 { Owner10(word); } else if word < 0xffa00000 { Owner11(word); } else
    if word < 0xffc00000 { Owner12(word); } else if word < 0xfff00000 { Owner13(word); } else
    if word < 0xfff80000 { Owner14(word); } else if word < 0xfffe0000 { Owner15(word); } else
    if word < 0xfffe6000 { Owner19(word); } else if word < 0xfffee000 { Owner20(word); } else
    if word < 0xffff4800 { Owner21(word); } else if word < 0xffffb000 { Owner22(word); } else
    if word < 0xffffea00 { Owner23(word); } else if word < 0xfffff600 { Owner24(word); } else
    if word < 0xfffff800 { Owner25(word); } else if word < 0xfffffbc0 { Owner26(word); } else
    if word < 0xfffffe20 { Owner27(word); } else if word < 0xfffffff0 { Owner28(word); } else { Owner30(word); }
  }

  /** Symbols of one code length rise with their codes. */
  lemma SameLength(i: nat, j: nat)
    requires i < 257 && j < 257 && CodeOf(i).len == CodeOf(j).len && CodeOf(i).bits <= CodeOf(j).bits
    ensures i <= j
  {
    var c, d := CodeOf(i), CodeOf(j);
    EveryShape(i);
    EveryStretch(i);
    EveryStretch(j);
    EveryPlace(i, c.bits);
    EveryPlace(j, d.bits);
    hide CodeOf, Shaped;
    RiseAll(c.len, c.bits, d.bits, c, d);
  }

  lemma RiseAll(len: nat, u: nat, v: nat, c: Code, d: Code)
    requires c == Code(u, len) && d == Code(v, len) && InStretch(c) && InStretch(d) && u <= v
    ensures Locate(u) <= Locate(v)
  {
    hide Locate5, Locate6, Locate7, Locate8, Locate10, Locate11, Locate12, Locate13, Locate14, Locate15, Locate19;
    hide Locate20, Locate21, Locate22, Locate23, Locate24, Locate25, Locate26, Locate27, Locate28, Locate30;
    match len
    case 5 => Rise5(u, v);
    case 6 => Rise6(u, v);
    case 7 => Rise7(u, v);
    case 8 => Rise8(u, v);
    case 10 => Rise10(u, v);
    case 11 => Rise11(u, v);
    case 12 => Rise12(u, v);
    case 13 => Rise13(u, v);
    case 14 => Rise14(u, v);
    case 15 => Rise15(u, v);
    case 19 => Rise19(u, v);
    case 20 => Rise20(u, v);
    case 21 => Rise21(u, v);
    case 22 => Rise22(u, v);
    case 23 => Rise23(u, v);
    case 24 => Rise24(u, v);
    case 25 => Rise25(u, v);
    case 26 => Rise26(u, v);
    case 27 => Rise27(u, v);
    case 28 => Rise28(u, v);
    case 30 => Rise30(u, v);
  }

  lemma ByLength(c: Code, d: Code)
    requires InStretch(c) && InStretch(d) && c.len < d.len
    ensures c.bits < d.bits
  {
  }

  /** The order of the codes is the canonical one: by length, then by symbol. */
  lemma CanonicalOrder(i: nat, j: nat)
    requires i < 257 && j < 257 && i != j
    ensures var t := HUFFMAN_TABLE;
      t[i].bits < t[j].bits <==> t[i].len < t[j].len || (t[i].len == t[j].len && i < j)
  {
    EveryStretch(i);
    EveryStretch(j);
    hide CodeOf, InStretch;
    if CodeOf(i).len < CodeOf(j).len {
      ByLength(CodeOf(i), CodeOf(j));
    } else if CodeOf(j).len < CodeOf(i).len {
      ByLength(CodeOf(j), CodeOf(i));
    } else if CodeOf(i).bits <= CodeOf(j).bits {
      SameLength(i, j);
      SameWord(i, j);
    } else {
      SameLength(j, i);
    }
  }

  /** No two symbols have the same code. */
  lemma SameWord(i: nat, j: nat)
    requires i < 257 && j < 257 && i != j
    ensures CodeOf(i).bits != CodeOf(j).bits
  {
    EveryShape(i);
    NoOverlap(i, j);
  }

  /** Every 32-bit word begins with exactly one code. */
  lemma CompleteCode(word: nat) returns (s: nat)
    requires word < TWO_32
    ensures s < 257
    ensures var t := HUFFMAN_TABLE;
      forall r :: 0 <= r < 257 ==> (r == s <==> t[r].bits <= word < t[r].bits + Pow2(32 - t[r].len))
  {
    hide Locate, CodeOf, Width;
    EveryOwner(word);
    s := Locate(word);
    forall r | 0 <= r < 257
      ensures r == s <==> CodeOf(r).bits <= word < CodeOf(r).bits + Pow2(32 - CodeOf(r).len)
    {
      WidthOf(r);
      if Owns(CodeOf(r), word) { EveryPlace(r, word); }
    }
  }

  lemma WidthOf(s: nat)
    requires s < 257
    ensures Width(CodeOf(s).len) == Pow2(32 - CodeOf(s).len) > 0
  {
    EveryShape(s);
    hide CodeOf;
    ShapedIsWellFormed(CodeOf(s));
    WidthIsPow2(CodeOf(s).len);
  }

  /**
   * In the canonical order each code is the one before it plus the number of words that begin with that one;
   * the first is zero, and behind the last the words are used up.
   */
  lemma CanonicalCode(s: nat)
    requires s < 257
    ensures var t := HUFFMAN_TABLE;
      var end := t[s].bits + Pow2(32 - t[s].len);
      && (end == TWO_32 || exists next: nat :: Succeeds(t, s, next) && t[next].bits == end)
      && ((forall r :: 0 <= r < 257 && r != s ==> Precedes(t[s], s, t[r], r)) ==> t[s].bits == 0)
  {
    EveryShape(s);
    hide CodeOf, Shaped;
    var t := HUFFMAN_TABLE;
    WidthOf(s);
    var end := t[s].bits + Pow2(32 - t[s].len);
    ShapedFits(t[s]);
    if end < TWO_32 {
      var last := CompleteCode(end - 1);
      var next := CompleteCode(end);
      assert last == s;
      assert t[next].bits == end;
      SucceedsAt(s, next);
      assert Succeeds(t, s, next);
    }
    if forall r :: 0 <= r < 257 && r != s ==> Precedes(t[s], s, t[r], r) {
      var first := CompleteCode(0);
      if first != s { CanonicalOrder(s, first); }
    }
  }

  /** The symbol comes next in the canonical order. */
  ghost predicate Succeeds(t: seq<Code>, s: nat, next: nat)
    requires |t| == 257 && s < 257
  {
    && next < 257 && Precedes(t[s], s, t[next], next)
    && forall r :: 0 <= r < 257 ==> !(Precedes(t[s], s, t[r], r) && Precedes(t[r], r, t[next], next))
  }

  lemma ShapedFits(c: Code)
    requires Shaped(c)
    ensures c.bits + Pow2(32 - c.len) <= TWO_32
  {
    ShapedIsWellFormed(c);
    WidthIsPow2(c.len);
  }

  lemma SucceedsAt(s: nat, next: nat)
    requires s < 257 && next < 257
    requires HUFFMAN_TABLE[next].bits == HUFFMAN_TABLE[s].bits + Pow2(32 - HUFFMAN_TABLE[s].len)
    ensures Succeeds(HUFFMAN_TABLE, s, next)
  {
    hide CodeOf;
    var t := HUFFMAN_TABLE;
    WidthOf(s);
    CanonicalOrder(s, next);
    forall r | 0 <= r < 257 && Precedes(t[s], s, t[r], r)
      ensures !Precedes(t[r], r, t[next], next)
    {
      CanonicalOrder(s, r);
      NoOverlap(s, r);
      if r != next { CanonicalOrder(r, next); }
    }
  }

  /** The symbols with short codes. */
  predicate Among(b: nat, symbols: string) {
    b < 256 && b as char in symbols
  }

  const FIVE_BITS := "012aceiost"
  const SIX_BITS := " %-./3456789=A_bdfghlmnpru"
  const SEVEN_BITS := ":BCDEFGHIJKLMNOPQRSTUVWYjkqvwxyz"
  const EIGHT_BITS := "&*,;XZ"

  lemma Located5(word: nat) ensures Among(Locate5(word), FIVE_BITS) {}
  lemma Located6(word: nat) ensures Among(Locate6(word), SIX_BITS) {}
  lemma Located7(word: nat) ensures Among(Locate7(word), SEVEN_BITS) {}
  lemma Located8(word: nat) ensures Among(Locate8(word), EIGHT_BITS) {}
  lemma Listed5(b: nat) requires Among(b, FIVE_BITS) ensures CodeOf(b).len == 5 {}

  lemma Listed6(b: nat)
    requires Among(b, SIX_BITS)
    ensures CodeOf(b).len == 6
  {
    var i :| 0 <= i < |SIX_BITS| && SIX_BITS[i] == b as char;
    if i < 8 { Listed6To8(i); } else if i < 16 { Listed6To16(i); } else
    if i < 24 { Listed6To24(i); } else { Listed6To32(i); }
  }

  lemma Listed6To8(i: nat) requires 0 <= i < 8 ensures CodeOf(SIX_BITS[i] as nat).len == 6 {}
  lemma Listed6To16(i: nat) requires 8 <= i < 16 ensures CodeOf(SIX_BITS[i] as nat).len == 6 {}
  lemma Listed6To24(i: nat) requires 16 <= i < 24 ensures CodeOf(SIX_BITS[i] as nat).len == 6 {}
  lemma Listed6To32(i: nat) requires 24 <= i < 26 ensures CodeOf(SIX_BITS[i] as nat).len == 6 {}

  lemma Listed7(b: nat)
    requires Among(b, SEVEN_BITS)
    ensures CodeOf(b).len == 7
  {
    var i :| 0 <= i < |SEVEN_BITS| && SEVEN_BITS[i] == b as char;
    if i < 8 { Listed7To8(i); } else if i < 16 { Listed7To16(i); } else
    if i < 24 { Listed7To24(i); } else { Listed7To32(i); }
  }

  lemma Listed7To8(i: nat) requires 0 <= i < 8 ensures CodeOf(SEVEN_BITS[i] as nat).len == 7 {}
  lemma Listed7To16(i: nat) requires 8 <= i < 16 ensures CodeOf(SEVEN_BITS[i] as nat).len == 7 {}
  lemma Listed7To24(i: nat) requires 16 <= i < 24 ensures CodeOf(SEVEN_BITS[i] as nat).len == 7 {}
  lemma Listed7To32(i: nat) requires 24 <= i < 32 ensures CodeOf(SEVEN_BITS[i] as nat).len == 7 {}
  lemma Listed8(b: nat) requires Among(b, EIGHT_BITS) ensures CodeOf(b).len == 8 {}

  /** The symbols that have codes of up to eight bits. */
  lemma ShortCodes(b: nat)
    requires b < 257
    ensures var len := HUFFMAN_TABLE[b].len;
      && (len == 5 <==> Among(b, FIVE_BITS)) && (len == 6 <==> Among(b, SIX_BITS))
      && (len == 7 <==> Among(b, SEVEN_BITS)) && (len == 8 <==> Among(b, EIGHT_BITS))
  {
    var c := CodeOf(b);
    EveryShape(b);
    EveryStretch(b);
    EveryPlace(b, c.bits);
    hide CodeOf, Among, Locate5, Locate6, Locate7, Locate8, Shaped;
    if Among(b, FIVE_BITS) { Listed5(b); }
    if Among(b, SIX_BITS) { Listed6(b); }
    if Among(b, SEVEN_BITS) { Listed7(b); }
    if Among(b, EIGHT_BITS) { Listed8(b); }
    if c.len == 5 { Located5(c.bits); }
    if c.len == 6 { Located6(c.bits); }
    if c.len == 7 { Located7(c.bits); }
    if c.len == 8 { Located8(c.bits); }
  }
}
