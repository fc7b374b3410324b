/** The growing chain of buffers that collects encoder output. */
module StreamBuffers {
  import opened Words
  import opened Buffers

  const MIN_BUFFER_SIZE := 64
  const MAX_BUFFER_SIZE := 4096

  function AlignSize(size: nat): nat {
    if size > MAX_BUFFER_SIZE then CeilOrder2(size, 12) else CeilOrder2(size, 6)
  }

  /** For any size in memory the aligned size is a multiple of 64 that holds it. */
  lemma AlignSizeHolds(size: nat)
    requires size + MAX_BUFFER_SIZE <= TWO_64
    ensures size <= AlignSize(size) && AlignSize(size) % 64 == 0
  {
    Pow2Of8();
    if size > MAX_BUFFER_SIZE {
      assert Pow2(12) == 4096 by { Pow2Add(6, 6); }
      CeilOrder2Rounds(size, 12);
    } else {
      CeilOrder2Rounds(size, 6);
    }
  }

  /** A buffer of at least `least` bytes that holds `sz` of them. */
  method Allocate(sz: nat, least: nat) returns (b: Buffer)
    requires 0 < sz && sz + MAX_BUFFER_SIZE <= TWO_64 && least % 64 == 0
    ensures fresh(b) && fresh(b.memory) && b.Valid() && b.DataView() == []
    ensures b.maxsize > 0 && b.maxsize % 64 == 0 && b.maxsize >= sz && b.maxsize >= least
  {
    AlignSizeHolds(sz);
    b := new Buffer(Max(AlignSize(sz), least));
  }

  /** The bytes of a chain, in order. */
  ghost function Joined(bs: seq<Buffer>): seq<Byte>
    requires forall i :: 0 <= i < |bs| ==> bs[i].Valid()
    reads bs, set b | b in bs :: b.memory
  {
    if bs == [] then [] else Joined(bs[..|bs| - 1]) + bs[|bs| - 1].DataView()
  }

  /** Different buffers with different memories. */
  ghost predicate Separate(bs: seq<Buffer>)
    reads bs
  {
    forall i, j :: 0 <= i < j < |bs| ==> bs[i] != bs[j] && bs[i].memory != bs[j].memory
  }

  /** Every buffer but the last is full, and the sizes are positive multiples of 64. */
  ghost predicate Chained(bs: seq<Buffer>)
    reads bs
  {
    && (forall i :: 0 <= i < |bs| ==> bs[i].Valid() && bs[i].maxsize > 0 && bs[i].maxsize % 64 == 0)
    && (forall i :: 0 <= i < |bs| - 1 ==> bs[i].offset == bs[i].maxsize)
  }

  class StreamBuf {
    var buffers: seq<Buffer>
    ghost var Repr: set<object>

    ghost predicate Valid()
      reads this, Repr
    {
      && this in Repr
      && (forall b :: b in buffers ==> b in Repr && b.memory in Repr)
      && Separate(buffers)
      && Chained(buffers)
    }

    ghost function Contents(): seq<Byte>
      requires Valid()
      reads this, Repr
    {
      Joined(buffers)
    }

    constructor ()
      ensures Valid() && fresh(Repr)
      ensures Contents() == []
    {
      buffers := [];
      Repr := {this};
    }

    /** Makes room at the end of the chain, so that the copy loop always advances. */
    method CheckSize(sz: nat)
      requires Valid()
      requires 0 < sz && sz + MAX_BUFFER_SIZE <= TWO_64
      modifies this
      ensures Valid() && fresh(Repr - old(Repr))
      ensures buffers != [] && buffers[|buffers| - 1].FreeSize() > 0
      ensures Contents() == old(Contents())
    {
      if buffers == [] {
        var b := Allocate(sz, MIN_BUFFER_SIZE);
        Repr := Repr + {b, b.memory};
        buffers := [b];
        return;
      }
      var last := buffers[|buffers| - 1];
      if last.FreeSize() == 0 {
        var b := Allocate(sz, Min(last.maxsize * 2, MAX_BUFFER_SIZE));
        Append(b);
      }
    }

    method Append(b: Buffer)
      requires Valid() && buffers != [] && buffers[|buffers| - 1].FreeSize() == 0
      requires b !in Repr && b.memory !in Repr && b.Valid()
      requires b.DataView() == [] && b.maxsize > 0 && b.maxsize % 64 == 0
      modifies this
      ensures Valid() && Repr == old(Repr) + {b, b.memory}
      ensures buffers == old(buffers) + [b]
      ensures Contents() == old(Contents())
    {
      assert (buffers + [b])[..|buffers|] == buffers;
      buffers := buffers + [b];
      Repr := Repr + {b, b.memory};
    }

    /** Appends the bytes, filling the last buffer before a new one is taken. */
    method PushBack(src: seq<Byte>)
      requires Valid()
      requires |src| + MAX_BUFFER_SIZE <= TWO_64
      modifies Repr
      ensures Valid() && fresh(Repr - old(Repr))
      ensures Contents() == old(Contents()) + src
    {
      var count: nat := |src|;
      var offset: nat := 0;
      while count > 0
        invariant Valid() && fresh(Repr - old(Repr))
        invariant offset + count == |src|
        invariant Contents() == old(Contents()) + src[..offset]
      {
        CheckSize(count);
        var n := Fill(src[offset..]);
        TakeMore(src, offset, n);
        ConcatAssoc(old(Contents()), src[..offset], src[offset..][..n]);
        count := count - n;
        offset := offset + n;
      }
      assert src[..offset] == src;
    }

    method Fill(src: seq<Byte>) returns (n: nat)
      requires Valid() && buffers != [] && buffers[|buffers| - 1].FreeSize() > 0 && src != []
      modifies Repr
      ensures Valid() && Repr == old(Repr) && buffers == old(buffers)
      ensures 0 < n <= |src|
      ensures Contents() == old(Contents()) + src[..n]
    {
      var last := buffers[|buffers| - 1];
      ghost var front := buffers[..|buffers| - 1];
      assert Joined(buffers) == Joined(front) + last.DataView();
      n := last.Commit(src);
      assert Joined(front) == old(Joined(front));
      assert Joined(buffers) == Joined(front) + last.DataView();
    }

    /** Hands the chain over and starts an empty one. */
    method Flush() returns (flushed: seq<Buffer>)
      requires Valid()
      modifies this
      ensures Valid() && Repr == {this}
      ensures Contents() == []
      ensures Chained(flushed) && Separate(flushed)
      ensures forall b :: b in flushed ==> b in old(Repr) && b.memory in old(Repr)
      ensures Joined(flushed) == old(Contents())
    {
      flushed := buffers;
      buffers := [];
      Repr := {this};
    }
  }

  /** Any sequence of pushes: the flushed buffers hold the pushed bytes in order, and all but the last are full. */
  method Collect(pieces: seq<seq<Byte>>) returns (flushed: seq<Buffer>)
    requires forall i :: 0 <= i < |pieces| ==> |pieces[i]| + MAX_BUFFER_SIZE <= TWO_64
    ensures Chained(flushed) && Separate(flushed)
    ensures Joined(flushed) == Concat(pieces)
  {
    hide Chained, Separate, Joined;
    var stream := new StreamBuf();
    var i := 0;
    assert pieces[..0] == [];
    while i < |pieces|
      invariant 0 <= i <= |pieces| && stream.Valid() && fresh(stream.Repr)
      invariant stream.Contents() == Concat(pieces[..i])
    {
      assert pieces[..i + 1][..i] == pieces[..i];
      stream.PushBack(pieces[i]);
      i := i + 1;
    }
    assert pieces[..i] == pieces;
    flushed := stream.Flush();
  }
}
