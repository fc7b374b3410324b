/** The encoder's output stream: byte accounting on top of the buffer chain, and string output. */
module EncoderStreams {
  import opened Words
  import opened Bits
  import opened Huffman
  import opened HuffmanWriter
  import opened Buffers
  import opened StreamBuffers

  class EncoderStream {
    const huffman: seq<Code>
    const stream: StreamBuf
    const maxSize: nat
    var left: nat

    ghost predicate Valid()
      reads this, stream, stream.Repr
    {
      stream.Valid() && this !in stream.Repr && left <= maxSize && Writable(huffman)
    }

    ghost function Contents(): seq<Byte>
      requires Valid()
      reads this, stream, stream.Repr
    {
      stream.Contents()
    }

    constructor (huffman: seq<Code>, max: nat)
      requires Writable(huffman)
      ensures Valid() && fresh(stream) && fresh(stream.Repr) && this.huffman == huffman
      ensures maxSize == max && left == max && Contents() == []
    {
      this.huffman := huffman;
      stream := new StreamBuf();
      maxSize := max;
      left := max;
    }

    /** Drops the bytes when they exceed what is left of the budget. */
    method PushBack(src: seq<Byte>) returns (ok: bool)
      requires Valid() && |src| + MAX_BUFFER_SIZE <= TWO_64
      modifies this, stream.Repr
      ensures Valid() && fresh(stream.Repr - old(stream.Repr))
      ensures ok == (|src| <= old(left))
      ensures ok ==> left == old(left) - |src| && Contents() == old(Contents()) + src
      ensures !ok ==> left == old(left) && Contents() == old(Contents())
    {
      if |src| <= left {
        left := left - |src|;
        stream.PushBack(src);
        return true;
      }
      return false;
    }

    /** Takes one code into the accumulator, after flushing whole octets when it does not fit. */
    method PutCode(val: nat, len: nat, code: Code) returns (val': nat, len': nat, ghost ready: seq<Byte>)
      requires Valid() && len <= 64 && WellFormed(code)
      modifies stream.Repr
      ensures Valid() && fresh(stream.Repr - old(stream.Repr)) && left == old(left)
      ensures len' <= 64 && Contents() == old(Contents()) + ready
      ensures BytesToBits(ready) + BitsOf(val', len') == BitsOf(val, len) + CodeBits(code)
    {
      var bytes;
      bytes, val', len' := Accept(val, len, code);
      if bytes != [] {
        stream.PushBack(bytes);
      }
      ready := bytes;
    }

    /** Writes what is left of the accumulator, filled up with ones. */
    method PutTail(val: nat, len: nat) returns (ghost tail: seq<Byte>, ghost pad: nat)
      requires Valid() && len <= 64
      modifies stream.Repr
      ensures Valid() && fresh(stream.Repr - old(stream.Repr)) && left == old(left)
      ensures Contents() == old(Contents()) + tail
      ensures pad < 8 && BytesToBits(tail) == BitsOf(val, len) + Ones(pad)
    {
      tail, pad := [], 0;
      if len > 0 {
        var bytes := TailBytes(val, len);
        stream.PushBack(bytes);
        tail, pad := bytes, 8 * |bytes| - len;
      }
    }

    /** Writes the Huffman code of the string through a 64-bit accumulator. */
    method EncodeString(src: seq<Byte>)
      requires Valid()
      modifies stream.Repr
      ensures Valid() && fresh(stream.Repr - old(stream.Repr)) && left == old(left)
      ensures Contents() == old(Contents()) + PackedBytes(huffman, src)
    {
      var val: nat := 0;
      var len: nat := 0;
      ghost var out: seq<Byte> := [];
      var i := 0;
      while i < |src|
        invariant 0 <= i <= |src| && len <= 64
        invariant Valid() && fresh(stream.Repr - old(stream.Repr)) && left == old(left)
        invariant Contents() == old(Contents()) + out
        invariant BytesToBits(out) + BitsOf(val, len) == EncodedBits(huffman, src[..i])
      {
        ghost var ready;
        ghost var kept := BitsOf(val, len);
        val, len, ready := PutCode(val, len, huffman[src[i]]);
        Extend(huffman, src, i, out, ready, kept, BitsOf(val, len));
        ConcatAssoc(old(Contents()), out, ready);
        out := out + ready;
        i := i + 1;
      }
      ghost var tail, pad := PutTail(val, len);
      ConcatAssoc(old(Contents()), out, tail);
      Finish(huffman, src, out, tail, BitsOf(val, len), pad);
    }

    /** Writes the length and the string, past the byte accounting. */
    method WriteString(encoded: bool, encodedSize: seq<Byte>, src: seq<Byte>)
      requires Valid() && |encodedSize| + MAX_BUFFER_SIZE <= TWO_64 && |src| + MAX_BUFFER_SIZE <= TWO_64
      modifies stream.Repr
      ensures Valid() && fresh(stream.Repr - old(stream.Repr)) && left == old(left)
      ensures Contents() == old(Contents()) + (encodedSize + if encoded then PackedBytes(huffman, src) else src)
    {
      ConcatAssoc(Contents(), encodedSize, if encoded then PackedBytes(huffman, src) else src);
      stream.PushBack(encodedSize);
      if encoded {
        EncodeString(src);
      } else {
        stream.PushBack(src);
      }
    }

    /** Hands the buffers over and restores the budget. */
    method Flush() returns (flushed: seq<Buffer>)
      requires Valid()
      modifies this, stream
      ensures Valid() && left == maxSize && Contents() == [] && stream.Repr == {stream}
      ensures Chained(flushed) && Separate(flushed)
      ensures forall b :: b in flushed ==> b in old(stream.Repr) && b.memory in old(stream.Repr)
      ensures Joined(flushed) == old(Contents())
    {
      left := maxSize;
      flushed := stream.Flush();
    }
  }

  lemma Finish(t: seq<Code>, src: seq<Byte>, out: seq<Byte>, tail: seq<Byte>, kept: seq<bool>, pad: nat)
    requires Sized(t) && pad < 8
    requires BytesToBits(out) + kept == EncodedBits(t, src[..|src|])
    requires BytesToBits(tail) == kept + Ones(pad)
    ensures out + tail == PackedBytes(t, src)
  {
    assert src[..|src|] == src;
    BytesToBitsConcat(out, tail);
    ConcatAssoc(BytesToBits(out), kept, Ones(pad));
    PackedUnique(t, src, out + tail, pad);
  }

  /** One more octet of the source: written octets and accumulated bits still spell its codes. */
  lemma Extend(t: seq<Code>, src: seq<Byte>, i: nat, out: seq<Byte>, ready: seq<Byte>, kept: seq<bool>, now: seq<bool>)
    requires Sized(t) && i < |src|
    requires BytesToBits(out) + kept == EncodedBits(t, src[..i])
    requires BytesToBits(ready) + now == kept + CodeBits(t[src[i]])
    ensures BytesToBits(out + ready) + now == EncodedBits(t, src[..i + 1])
  {
    assert src[..i + 1][..i] == src[..i];
    BytesToBitsConcat(out, ready);
    Regroup(BytesToBits(out), BytesToBits(ready), now, kept, CodeBits(t[src[i]]));
  }
}
