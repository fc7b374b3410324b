/** What the decoder refuses: indices of no entry, and representations that are cut off. */
module WireErrors {
  import opened Words
  import opened Huffman
  import opened HuffmanWriter
  import opened HuffmanReader
  import opened Integers
  import opened StringCodec
  import opened DynamicTables
  import opened Wire
  import opened Outcomes

  // ---------------------------------------------------------------- indices

  /**
   * Every index: it stands for the entry at that place of the static entries followed by the dynamic ones,
   * newest first, and any other one is refused.
   */
  lemma IndexOnWire(t: seq<Code>, st: seq<Entry>, d: State, i: nat, rest: seq<Byte>)
    requires |t| == 257 && i <= MAX_HPACK_INT
    ensures Opcode(0x80, 1)
    ensures var all := st + d.dyn;
      DecodeOne(t, st, d, IntBytes(0x80, 1, i) + rest) ==
        if i == 0 || i > |all| then Throws(RuntimeError)
        else if !FieldFits(all[i - 1].name, all[i - 1].value) then Throws(OverflowError)
        else Ok(Step([HeaderField(all[i - 1].name, all[i - 1].value, Default)], rest, d))
  {
    PrefixMasks();
    var bytes := IntBytes(0x80, 1, i);
    IntegerRoundTrip(0x80, 1, i, rest);
    CommandRoundTrip(IndexCmd, i);
    assert (bytes + rest)[0] == bytes[0] && (bytes + rest)[|bytes|..] == rest;
  }

  /** A literal whose name has an index of no entry is refused, whatever its kind. */
  lemma NameOnWire(t: seq<Code>, st: seq<Entry>, d: State, kind: IndexType, i: nat, rest: seq<Byte>)
    requires |t| == 257 && |st| + |d.dyn| < i <= MAX_HPACK_INT
    ensures var cmd := LiteralCommand(kind);
      DecodeOne(t, st, d, IntBytes(OpValue(cmd), OpBits(cmd), i) + rest) == Throws(RuntimeError)
  {
    var cmd := LiteralCommand(kind);
    var bytes := IntBytes(OpValue(cmd), OpBits(cmd), i);
    IntegerRoundTrip(OpValue(cmd), OpBits(cmd), i, rest);
    CommandRoundTrip(cmd, i);
    assert (bytes + rest)[0] == bytes[0];
    LiteralStep(t, st, d, kind, bytes + rest);
  }

  // ---------------------------------------------------------------- cut off

  /** Only the lack of an octet is mended by more octets. */
  lemma {:induction false} MoreOctets(a: seq<Byte>, b: seq<Byte>, i: nat, value: nat, m: nat)
    requires ReadContinuation(a, i, value, m) != Throws(InvalidArgument)
    ensures ReadContinuation(a + b, i, value, m) == ReadContinuation(a, i, value, m)
    decreases |a| - i
  {
    if i < |a| && m < 64 && a[i] >= 128 {
      var v := Accumulate(value, a[i] % 128, m);
      if v <= MAX_HPACK_INT { MoreOctets(a, b, i + 1, v, m + 7); }
    }
  }

  /** An integer that is cut off is refused. */
  lemma CutInteger(init: Byte, bitlen: nat, v: nat, k: nat)
    requires Opcode(init, bitlen) && v <= MAX_HPACK_INT && k < |IntBytes(init, bitlen, v)|
    ensures DecodeInt(bitlen, IntBytes(init, bitlen, v)[..k]) == Throws(InvalidArgument)
  {
    var bytes := IntBytes(init, bitlen, v);
    var part, rest := bytes[..k], bytes[k..];
    IntegerRoundTrip(init, bitlen, v, []);
    assert bytes + [] == bytes == part + rest;
    hide IntBytes, ReadContinuation;
    DecodeIntBounds(bitlen, part);
    if part != [] {
      var value := part[0] % (PrefixMask(bitlen) + 1);
      assert bytes[0] == part[0];
      if ReadContinuation(part, 1, value, 0) != Throws(InvalidArgument) { MoreOctets(part, rest, 1, value, 0); }
    }
  }

  /** A string that is cut off is refused. */
  lemma CutString(t: seq<Code>, encoded: bool, s: seq<Byte>, k: nat)
    requires Sized(t) && Sendable(t, encoded, s) && k < |StringBytes(t, encoded, s)|
    ensures DecodeString(t, StringBytes(t, encoded, s)[..k]) == Throws(InvalidArgument)
  {
    hide PackedBytes, IntBytes, DecodeInt, ReadHuffman;
    var payload := Payload(t, encoded, s);
    var prefix := IntBytes(StringFlag(encoded), 1, |payload|);
    var part := (prefix + payload)[..k];
    if k < |prefix| {
      CutInteger(StringFlag(encoded), 1, |payload|, k);
      assert part == prefix[..k];
    } else {
      var rest := payload[..k - |prefix|];
      assert part == prefix + rest;
      IntegerRoundTrip(StringFlag(encoded), 1, |payload|, rest);
      assert part[|prefix|..] == rest;
    }
  }

  /**
   * A representation that is cut off anywhere is refused, so that the decoder returns nothing of a field
   * whose octets are not all there.
   */
  lemma CutRepresentation(t: seq<Code>, st: seq<Entry>, d: State, f: HeaderField, rep: Rep, k: nat)
    requires ValidTable(t) && Refers(st, d.dyn, f, rep) && RepSendable(t, f, rep) && RepLegible(t, f, rep)
    requires 0 < k < |RepBytes(t, f, rep)|
    ensures DecodeOne(t, st, d, RepBytes(t, f, rep)[..k]) == Throws(InvalidArgument)
  {
    var part := RepBytes(t, f, rep)[..k];
    match rep
    case Indexed(i) =>
      CommandRoundTrip(IndexCmd, i);
      CutInteger(OpValue(IndexCmd), OpBits(IndexCmd), i, k);
    case Literal(_, _, _) =>
      LiteralFirstByte(t, f, rep);
      CutLiteral(t, st, d.dyn, f, rep, k);
      hide RepBytes, DecodeOne, DecodeLiteral, CommandOf;
      LiteralStep(t, st, d, f.kind, part);
  }

  lemma CutLiteral(t: seq<Code>, st: seq<Entry>, dyn: seq<Entry>, f: HeaderField, rep: Rep, k: nat)
    requires ValidTable(t) && rep.Literal? && 0 < k < |RepBytes(t, f, rep)|
    requires Refers(st, dyn, f, rep) && RepSendable(t, f, rep) && RepLegible(t, f, rep)
    ensures DecodeLiteral(t, st, dyn, f.kind, RepBytes(t, f, rep)[..k]) == Throws(InvalidArgument)
  {
    hide StringBytes, IntBytes, DecodeLiteral, PrefixFree, OpBits, OpValue, Sendable, Legible, TableAt;
    var cmd := LiteralCommand(f.kind);
    if rep.nameIndex == 0 {
      var strings := StringBytes(t, rep.nameEncoded, f.name) + StringBytes(t, rep.valueEncoded, f.value);
      CommandFirst(OpValue(cmd), StringBytes(t, rep.nameEncoded, f.name), StringBytes(t, rep.valueEncoded, f.value), k);
      CutNewName(t, st, dyn, f, rep, k - 1);
    } else {
      CutIndexedName(t, st, dyn, f.kind, rep.nameIndex, rep.valueEncoded, f.value, k);
    }
  }

  lemma CommandFirst(op: Byte, a: seq<Byte>, b: seq<Byte>, k: nat)
    requires 0 < k <= 1 + |a| + |b|
    ensures ([op] + a + b)[..k] == [op] + (a + b)[..k - 1]
  {
  }

  lemma CutNewName(t: seq<Code>, st: seq<Entry>, dyn: seq<Entry>, f: HeaderField, rep: Rep, k: nat)
    requires ValidTable(t) && rep.Literal? && rep.nameIndex == 0 && RepSendable(t, f, rep) && RepLegible(t, f, rep)
    requires k < |StringBytes(t, rep.nameEncoded, f.name)| + |StringBytes(t, rep.valueEncoded, f.value)|
    ensures var strings := StringBytes(t, rep.nameEncoded, f.name) + StringBytes(t, rep.valueEncoded, f.value);
      DecodeLiteral(t, st, dyn, f.kind, [OpValue(LiteralCommand(f.kind))] + strings[..k]) == Throws(InvalidArgument)
  {
    hide StringBytes, DecodeString, IntBytes, DecodeInt, PrefixFree, OpBits, OpValue, RepSendable, RepLegible;
    var strings := StringBytes(t, rep.nameEncoded, f.name) + StringBytes(t, rep.valueEncoded, f.value);
    NewNamePrefix(LiteralCommand(f.kind), strings[..k]);
    CutStrings(t, rep, f, k);
  }

  lemma CutIndexedName(t: seq<Code>, st: seq<Entry>, dyn: seq<Entry>, kind: IndexType, i: nat, encoded: bool,
      s: seq<Byte>, k: nat)
    requires Sized(t) && 0 < i <= MAX_HPACK_INT && TableAt(st, dyn, i).Ok? && Sendable(t, encoded, s)
    requires var cmd := LiteralCommand(kind);
      k < |IntBytes(OpValue(cmd), OpBits(cmd), i)| + |StringBytes(t, encoded, s)|
    ensures var cmd := LiteralCommand(kind);
      var part := (IntBytes(OpValue(cmd), OpBits(cmd), i) + StringBytes(t, encoded, s))[..k];
      DecodeLiteral(t, st, dyn, kind, part) == Throws(InvalidArgument)
  {
    hide StringBytes, DecodeString, IntBytes, DecodeInt, OpBits, OpValue, Sendable, TableAt;
    var cmd := LiteralCommand(kind);
    var prefix, value := IntBytes(OpValue(cmd), OpBits(cmd), i), StringBytes(t, encoded, s);
    var part := (prefix + value)[..k];
    if k < |prefix| {
      CutInteger(OpValue(cmd), OpBits(cmd), i, k);
      assert part == prefix[..k];
    } else {
      var rest := value[..k - |prefix|];
      assert part == prefix + rest;
      IntegerRoundTrip(OpValue(cmd), OpBits(cmd), i, rest);
      assert part[|prefix|..] == rest && rest[0..] == rest;
      CutString(t, encoded, s, |rest|);
    }
  }

  /** Of the two strings of a new name the first one that is not whole is refused. */
  lemma CutStrings(t: seq<Code>, rep: Rep, f: HeaderField, k: nat)
    requires ValidTable(t) && rep.Literal? && rep.nameIndex == 0 && RepSendable(t, f, rep) && RepLegible(t, f, rep)
    requires k < |StringBytes(t, rep.nameEncoded, f.name)| + |StringBytes(t, rep.valueEncoded, f.value)|
    ensures var part := (StringBytes(t, rep.nameEncoded, f.name) + StringBytes(t, rep.valueEncoded, f.value))[..k];
      var name := DecodeString(t, part);
      if name.Ok? then DecodeString(t, part[name.value.usedBytes..]) == Throws(InvalidArgument)
      else name == Throws(InvalidArgument)
  {
    hide StringBytes, DecodeString, PrefixFree;
    var name, value := StringBytes(t, rep.nameEncoded, f.name), StringBytes(t, rep.valueEncoded, f.value);
    var part := (name + value)[..k];
    if k < |name| {
      CutString(t, rep.nameEncoded, f.name, k);
      assert part == name[..k];
    } else {
      var rest := value[..k - |name|];
      assert part == name + rest;
      StringRoundTrip(t, rep.nameEncoded, f.name, rest);
      assert part[|name|..] == rest;
      CutString(t, rep.valueEncoded, f.value, |rest|);
    }
  }
}
