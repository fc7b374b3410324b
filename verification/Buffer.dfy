/** The fixed-size memory slice that carries bytes in and out of the library. */
module Buffers {
  import opened Words

  class Buffer {
    var offset: nat
    var maxsize: nat
    var memory: array<Byte>

    ghost predicate Valid()
      reads this
    {
      offset <= maxsize == memory.Length
    }

    constructor (size: nat)
      ensures Valid() && fresh(memory)
      ensures maxsize == size && DataView() == []
    {
      offset := 0;
      maxsize := size;
      memory := new Byte[size];
    }

    /** The move constructor: the source is left empty, with no memory. */
    constructor Move(rhs: Buffer)
      requires rhs.Valid()
      modifies rhs
      ensures Valid() && memory == old(rhs.memory)
      ensures maxsize == old(rhs.maxsize) && DataView() == old(rhs.DataView())
      ensures rhs.Valid() && fresh(rhs.memory) && rhs.maxsize == 0 && rhs.DataView() == []
    {
      offset := rhs.offset;
      maxsize := rhs.maxsize;
      memory := rhs.memory;
      new;
      rhs.maxsize := 0;
      rhs.offset := 0;
      rhs.memory := new Byte[0];
    }

    /** The written bytes. */
    function DataView(): (view: seq<Byte>)
      requires Valid()
      reads this, memory
      ensures |view| == offset
    {
      memory[..offset]
    }

    /** The size of the span that `prepare` hands out for writing. */
    function FreeSize(): nat
      requires Valid()
      reads this
    {
      maxsize - offset
    }

    /** Move assignment. */
    method Assign(rhs: Buffer)
      requires Valid() && rhs.Valid() && rhs != this
      modifies this, rhs
      ensures Valid() && memory == old(rhs.memory)
      ensures maxsize == old(rhs.maxsize) && DataView() == old(rhs.DataView())
      ensures rhs.Valid() && fresh(rhs.memory) && rhs.maxsize == 0 && rhs.DataView() == []
    {
      memory := rhs.memory;
      maxsize := rhs.maxsize;
      offset := rhs.offset;
      rhs.maxsize := 0;
      rhs.offset := 0;
      rhs.memory := new Byte[0];
    }

    /** Copies as many bytes as fit behind the written ones. */
    method Commit(span: seq<Byte>) returns (copied: nat)
      requires Valid()
      modifies this`offset, memory
      ensures Valid() && maxsize == old(maxsize) && memory == old(memory)
      ensures copied == Min(old(FreeSize()), |span|)
      ensures DataView() == old(DataView()) + span[..copied]
    {
      copied := Min(FreeSize(), |span|);
      var n := copied;
      forall i | 0 <= i < n {
        memory[offset + i] := span[i];
      }
      offset := offset + n;
      assert DataView()[..offset - n] == old(DataView());
      assert DataView()[offset - n..] == span[..n];
    }

    /** Drops the first `count` written bytes and moves the rest to the front. */
    method Consume(count: nat)
      requires Valid()
      modifies this`offset, memory
      ensures Valid() && maxsize == old(maxsize) && memory == old(memory)
      ensures DataView() == old(DataView())[Min(old(offset), count)..]
    {
      var n := Min(offset, count);
      if n != 0 && n < offset {
        forall i | 0 <= i < offset - n {
          memory[i] := memory[i + n];
        }
      }
      offset := offset - n;
    }
  }
}
