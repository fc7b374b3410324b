/** The HPACK dynamic table: eviction as h2pp computes it, and both tables built on it. */
module DynamicTables {
  import opened Words

  /** A header field as the tables store it, newest first. */
  datatype Entry = Entry(name: seq<Byte>, value: seq<Byte>)

  /** The size of section 4.1 of RFC 7541. */
  function HpackSize(e: Entry): (n: nat)
    ensures n >= 32
  {
    |e.name| + |e.value| + 32
  }

  function Total(es: seq<Entry>): nat {
    if es == [] then 0 else Total(es[..|es| - 1]) + HpackSize(es[|es| - 1])
  }

  // ---------------------------------------------------------------- eviction

  /** The do-while loop: how many entries are left when the 64-bit excess reaches zero or none is left. */
  function EvictLoop(es: seq<Entry>, eviction: nat): (keep: nat)
    requires es != []
    ensures keep < |es|
  {
    var keep := |es| - 1;
    var left := Wrap64(eviction - HpackSize(es[keep]));
    if keep == 0 || left == 0 then keep else EvictLoop(es[..keep], left)
  }

  function ShrinkKeep(es: seq<Entry>, rqSize: nat): (keep: nat)
    ensures keep <= |es|
  {
    if Total(es) <= rqSize then |es| else EvictLoop(es, Total(es) - rqSize)
  }

  /** The bytes that have to leave. */
  function Excess(es: seq<Entry>, rqSize: nat): nat {
    if Total(es) <= rqSize then 0 else Total(es) - rqSize
  }

  function Shrunk(es: seq<Entry>, rqSize: nat): seq<Entry> {
    es[..ShrinkKeep(es, rqSize)]
  }

  /** The decoder's insertion: the requested size wraps for entries larger than the table. */
  function DecoderInsert(es: seq<Entry>, e: Entry, max: nat): seq<Entry> {
    var rqSize := if HpackSize(e) + Total(es) > max then Wrap64(max - HpackSize(e)) else HpackSize(e) + Total(es);
    [e] + Shrunk(es, rqSize)
  }

  /** The encoder's insertion. */
  function EncoderInsert(es: seq<Entry>, e: Entry, max: nat): seq<Entry> {
    var rqSize := if HpackSize(e) > max then 0 else max - HpackSize(e);
    [e] + Shrunk(es, rqSize)
  }

  /** Section 4.4 of RFC 7541: entries leave from the end until the rest fits. */
  function MinimalKeep(es: seq<Entry>, rqSize: nat): (keep: nat)
    ensures keep <= |es|
  {
    if Total(es) <= rqSize then |es| else MinimalKeep(es[..|es| - 1], rqSize)
  }

  lemma {:induction false} TotalConcat(a: seq<Entry>, b: seq<Entry>)
    ensures Total(a + b) == Total(a) + Total(b)
  {
    if b == [] {
      assert a + b == a;
    } else {
      assert (a + b)[..|a + b| - 1] == a + b[..|b| - 1];
      TotalConcat(a, b[..|b| - 1]);
    }
  }

  lemma TotalSplit(es: seq<Entry>, k: nat)
    requires k <= |es|
    ensures Total(es) == Total(es[..k]) + Total(es[k..])
  {
    assert es == es[..k] + es[k..];
    TotalConcat(es[..k], es[k..]);
  }

  lemma {:induction false} TotalAtLeast(es: seq<Entry>)
    ensures Total(es) >= 32 * |es|
  {
    if es != [] { TotalAtLeast(es[..|es| - 1]); }
  }

  /** The entries from `k` on, the oldest ones, sum to the excess. */
  ghost predicate ExactRun(es: seq<Entry>, excess: nat, k: int) {
    0 <= k < |es| && Total(es[k..]) == excess
  }

  /** The loop stops where the oldest run sums to the excess exactly, and otherwise empties the table. */
  lemma EvictLoopStops(es: seq<Entry>, excess: nat)
    requires es != [] && 0 < excess <= Total(es) < TWO_64
    ensures var keep := EvictLoop(es, excess);
            ExactRun(es, excess, keep) || (keep == 0 && forall k :: !ExactRun(es, excess, k))
    ensures forall k :: ExactRun(es, excess, k) ==> EvictLoop(es, excess) == k
  {
    assert es[..|es|] == es && es[|es|..] == [];
    EvictFrom(es, |es|, excess, excess);
    forall k | ExactRun(es, excess, k)
      ensures EvictLoop(es, excess) == k
    {
      RunsUnique(es, excess, k);
    }
  }

  lemma {:induction false} EvictFrom(es: seq<Entry>, n: nat, excess: nat, left: nat)
    requires 0 < n <= |es| && 0 < excess < TWO_64 && Total(es) < TWO_64
    requires left == Wrap64(excess - Total(es[n..]))
    requires forall k :: n <= k ==> !ExactRun(es, excess, k)
    ensures var keep := EvictLoop(es[..n], left);
            ExactRun(es, excess, keep) || (keep == 0 && forall k :: !ExactRun(es, excess, k))
  {
    var keep := n - 1;
    var left' := Wrap64(left - HpackSize(es[keep]));
    LastLeaves(es, n, excess, left);
    EvictStep(es, n, left);
    if left' != 0 && keep > 0 {
      EvictFrom(es, keep, excess, left');
    }
  }

  /** One round of the loop. */
  lemma LastLeaves(es: seq<Entry>, n: nat, excess: nat, left: nat)
    requires 0 < n <= |es| && 0 < excess < TWO_64 && Total(es) < TWO_64
    requires left == Wrap64(excess - Total(es[n..]))
    ensures Wrap64(left - HpackSize(es[n - 1])) == Wrap64(excess - Total(es[n - 1..]))
    ensures Wrap64(left - HpackSize(es[n - 1])) == 0 <==> ExactRun(es, excess, n - 1)
  {
    SuffixGrows(es, n);
    WrapTwice(excess, Total(es[n..]), HpackSize(es[n - 1]));
  }

  lemma EvictStep(es: seq<Entry>, n: nat, left: nat)
    requires 0 < n <= |es|
    ensures var left' := Wrap64(left - HpackSize(es[n - 1]));
            EvictLoop(es[..n], left) == if n == 1 || left' == 0 then n - 1 else EvictLoop(es[..n - 1], left')
  {
    assert es[..n][..n - 1] == es[..n - 1];
  }

  lemma SuffixGrows(es: seq<Entry>, n: nat)
    requires 0 < n <= |es|
    ensures Total(es[n - 1..]) == Total(es[n..]) + HpackSize(es[n - 1]) <= Total(es)
  {
    TotalSplit(es, n - 1);
    assert es[n - 1..] == [es[n - 1]] + es[n..];
    TotalConcat([es[n - 1]], es[n..]);
    OneEntry(es[n - 1]);
  }

  lemma OneEntry(e: Entry)
    ensures Total([e]) == HpackSize(e)
  {
    assert [e][..0] == [];
    assert Total([e]) == Total([]) + HpackSize(e);
  }

  lemma WrapTwice(x: nat, a: nat, b: nat)
    requires 0 < x < TWO_64 && a + b < TWO_64
    ensures Wrap64(Wrap64(x - a) - b) == Wrap64(x - (a + b))
    ensures Wrap64(x - (a + b)) == 0 <==> x == a + b
  {
  }

  /** Entries have positive sizes, so at most one run fits. */
  lemma RunsUnique(es: seq<Entry>, excess: nat, k: nat)
    requires ExactRun(es, excess, k)
    ensures forall j :: ExactRun(es, excess, j) ==> j == k
  {
    forall j | ExactRun(es, excess, j)
      ensures j == k
    {
      if j < k {
        RunGrows(es, j, k);
      } else if k < j {
        RunGrows(es, k, j);
      }
    }
  }

  lemma RunGrows(es: seq<Entry>, i: nat, j: nat)
    requires i < j <= |es|
    ensures Total(es[i..]) > Total(es[j..])
  {
    TotalSplit(es[i..], j - i);
    assert es[i..][j - i..] == es[j..];
    TotalAtLeast(es[i..][..j - i]);
  }

  /** What is left fits the requested size. */
  lemma ShrunkFits(es: seq<Entry>, rqSize: nat)
    requires Total(es) < TWO_64
    ensures Total(Shrunk(es, rqSize)) <= rqSize
  {
    if Total(es) <= rqSize {
      assert es[..|es|] == es;
    } else {
      var excess := Total(es) - rqSize;
      EvictLoopStops(es, excess);
      TotalSplit(es, EvictLoop(es, excess));
    }
  }

  lemma {:induction false} MinimalKeepIs(es: seq<Entry>, rqSize: nat, k: nat)
    requires k < |es| && Total(es[..k]) == rqSize
    ensures MinimalKeep(es, rqSize) == k
  {
    TotalSplit(es, k);
    TotalAtLeast(es[k..]);
    if k < |es| - 1 {
      assert es[..|es| - 1][..k] == es[..k];
      MinimalKeepIs(es[..|es| - 1], rqSize, k);
    }
  }

  /**
   * The eviction is the minimal one of section 4.4 exactly when nothing has to leave, when some run of
   * oldest entries sums to the excess, or when everything has to leave.
   */
  lemma EvictionMinimalIff(es: seq<Entry>, rqSize: nat)
    requires Total(es) < TWO_64
    ensures ShrinkKeep(es, rqSize) == MinimalKeep(es, rqSize)
            <==> || Total(es) <= rqSize
                 || (exists k :: ExactRun(es, Excess(es, rqSize), k))
                 || MinimalKeep(es, rqSize) == 0
  {
    if Total(es) > rqSize {
      var excess := Excess(es, rqSize);
      EvictLoopStops(es, excess);
      if k :| ExactRun(es, excess, k) {
        TotalSplit(es, k);
        MinimalKeepIs(es, rqSize, k);
      }
    }
  }

  /** One entry too many empties a table in which minimal eviction would keep something. */
  lemma EvictionCanEmpty(a: Entry, b: Entry, rqSize: nat)
    requires HpackSize(a) < rqSize < HpackSize(a) + HpackSize(b) && HpackSize(a) + HpackSize(b) < TWO_64
    ensures ShrinkKeep([a, b], rqSize) == 0 && MinimalKeep([a, b], rqSize) == 1
  {
    var es := [a, b];
    assert es[..1] == [a];
    OneEntry(a);
    assert Total(es) == HpackSize(a) + HpackSize(b);
    assert MinimalKeep([a], rqSize) == 1;
  }

  // ---------------------------------------------------------------- agreement of the two tables

  /**
   * Encoder and decoder keep the same list exactly when the entry is no larger than the table, or the
   * table was empty.
   */
  lemma InsertsAgreeIff(es: seq<Entry>, e: Entry, max: nat)
    requires Total(es) + HpackSize(e) <= TWO_64
    ensures EncoderInsert(es, e, max) == DecoderInsert(es, e, max) <==> HpackSize(e) <= max || es == []
  {
    if HpackSize(e) > max {
      if es != [] {
        TotalAtLeast(es);
        EvictLoopStops(es, Total(es));
        assert es[0..] == es && ExactRun(es, Total(es), 0);
        assert Shrunk(es, 0) == [];
        assert Shrunk(es, Wrap64(max - HpackSize(e))) == es;
      }
    } else if HpackSize(e) + Total(es) <= max {
      assert Shrunk(es, max - HpackSize(e)) == es == Shrunk(es, HpackSize(e) + Total(es));
    }
  }

  /** An insertion keeps the newest entries and respects the maximum. */
  lemma InsertKeepsNewest(es: seq<Entry>, e: Entry, max: nat)
    requires HpackSize(e) <= max && Total(es) < TWO_64
    ensures var es' := EncoderInsert(es, e, max);
            es' != [] && es'[0] == e && es'[1..] <= es && Total(es') <= max
  {
    var kept := Shrunk(es, max - HpackSize(e));
    ShrunkFits(es, max - HpackSize(e));
    TotalConcat([e], kept);
    OneEntry(e);
    assert ([e] + kept)[1..] == kept;
  }

  /**
   * An entry that fits next to the others evicts nothing. One that does not, but is no larger than the table,
   * evicts as section 4.4 says exactly when some run of oldest entries sums to the excess, or everything has to
   * leave.
   */
  lemma InsertMinimalIff(es: seq<Entry>, e: Entry, max: nat)
    requires HpackSize(e) <= max && Total(es) + HpackSize(e) < TWO_64
    ensures DecoderInsert(es, e, max) == EncoderInsert(es, e, max)
    ensures Total(es) + HpackSize(e) <= max ==> EncoderInsert(es, e, max) == [e] + es
    ensures Total(es) + HpackSize(e) > max ==>
      var room := max - HpackSize(e);
      EncoderInsert(es, e, max) == [e] + es[..MinimalKeep(es, room)] <==>
        MinimalKeep(es, room) == 0 || exists k :: ExactRun(es, Excess(es, room), k)
  {
    InsertsAgreeIff(es, e, max);
    var room := max - HpackSize(e);
    EvictionMinimalIff(es, room);
    if Total(es) <= room {
      assert es[..|es|] == es;
    } else {
      var keep, minimal := ShrinkKeep(es, room), MinimalKeep(es, room);
      assert ([e] + es[..keep])[1..] == es[..keep] && ([e] + es[..minimal])[1..] == es[..minimal];
      assert es[..keep] == es[..minimal] ==> |es[..keep]| == |es[..minimal]|;
    }
  }
}
