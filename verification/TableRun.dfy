/** Runs of the two dynamic tables: insertions and size changes in any order. */
module TableRuns {
  import opened Words
  import opened DynamicTables

  datatype Op = Insert(e: Entry) | Resize(size: nat)

  /** A table as a list and its maximum. */
  datatype Table = Table(entries: seq<Entry>, max: nat)

  function EncoderStep(t: Table, op: Op): Table {
    match op
    case Insert(e) => t.(entries := EncoderInsert(t.entries, e, t.max))
    case Resize(size) => Table(Shrunk(t.entries, size), size)
  }

  function DecoderStep(t: Table, op: Op): Table {
    match op
    case Insert(e) => t.(entries := DecoderInsert(t.entries, e, t.max))
    case Resize(size) => Table(Shrunk(t.entries, size), size)
  }

  function EncoderRun(t: Table, ops: seq<Op>): Table {
    if ops == [] then t else EncoderStep(EncoderRun(t, ops[..|ops| - 1]), ops[|ops| - 1])
  }

  function DecoderRun(t: Table, ops: seq<Op>): Table {
    if ops == [] then t else DecoderStep(DecoderRun(t, ops[..|ops| - 1]), ops[|ops| - 1])
  }

  const BOUND := TWO_64 / 4

  /** Sizes as they occur in memory. */
  predicate Bounded(op: Op) {
    match op
    case Insert(e) => HpackSize(e) <= BOUND
    case Resize(size) => size <= BOUND
  }

  /** The table respects its maximum, or holds nothing but one larger entry. */
  predicate Held(t: Table) {
    t.max <= BOUND && Total(t.entries) <= BOUND && (Total(t.entries) <= t.max || |t.entries| == 1)
  }

  predicate Admitted(t: Table, op: Op) {
    op.Insert? ==> HpackSize(op.e) <= t.max || t.entries == []
  }

  lemma StepHolds(t: Table, op: Op)
    requires Held(t) && Bounded(op)
    ensures Held(EncoderStep(t, op))
    ensures op.Insert? && HpackSize(op.e) <= t.max ==> Total(EncoderStep(t, op).entries) <= t.max
  {
    match op
    case Resize(size) => ShrunkFits(t.entries, size);
    case Insert(e) =>
      if HpackSize(e) <= t.max {
        InsertKeepsNewest(t.entries, e, t.max);
      } else {
        ShrunkFits(t.entries, 0);
        TotalAtLeast(Shrunk(t.entries, 0));
        assert EncoderStep(t, op).entries == [e];
        OneEntry(e);
      }
  }

  lemma StepsAgreeIff(t: Table, op: Op)
    requires Held(t) && Bounded(op)
    ensures EncoderStep(t, op) == DecoderStep(t, op) <==> Admitted(t, op)
  {
    if op.Insert? { InsertsAgreeIff(t.entries, op.e, t.max); }
  }

  lemma {:induction false} RunHolds(t: Table, ops: seq<Op>)
    requires Held(t) && forall i :: 0 <= i < |ops| ==> Bounded(ops[i])
    ensures Held(EncoderRun(t, ops))
  {
    if ops != [] {
      RunHolds(t, ops[..|ops| - 1]);
      StepHolds(EncoderRun(t, ops[..|ops| - 1]), ops[|ops| - 1]);
    }
  }

  ghost predicate SameAfter(t: Table, ops: seq<Op>) {
    EncoderRun(t, ops) == DecoderRun(t, ops)
  }

  /**
   * Over any run the encoder's and the decoder's lists are equal after every operation if and only if
   * every entry is inserted into a table no smaller than it, or into an empty one.
   */
  lemma {:induction false} RunsAgreeIff(t: Table, ops: seq<Op>)
    requires Held(t) && forall i :: 0 <= i < |ops| ==> Bounded(ops[i])
    ensures (forall k :: 0 <= k <= |ops| ==> SameAfter(t, ops[..k]))
       <==> (forall k :: 0 <= k < |ops| ==> Admitted(EncoderRun(t, ops[..k]), ops[k]))
  {
    hide Held, Bounded, Admitted, SameAfter, EncoderRun;
    assert ops[..|ops|] == ops;
    if ops == [] {
      NothingYet(t, ops);
    } else {
      var n := |ops| - 1;
      var before := ops[..n];
      assert forall k :: 0 <= k <= n ==> ops[..k] == before[..k];
      RunsAgreeIff(t, before);
      if SameAfter(t, before) { LastAgreesIff(t, ops); }
    }
  }

  lemma NothingYet(t: Table, ops: seq<Op>)
    requires ops == []
    ensures SameAfter(t, ops)
  {
  }

  lemma LastAgreesIff(t: Table, ops: seq<Op>)
    requires Held(t) && ops != [] && forall i :: 0 <= i < |ops| ==> Bounded(ops[i])
    requires SameAfter(t, ops[..|ops| - 1])
    ensures SameAfter(t, ops) <==> Admitted(EncoderRun(t, ops[..|ops| - 1]), ops[|ops| - 1])
  {
    hide Held, Bounded, Admitted, EncoderStep, DecoderStep;
    RunHolds(t, ops[..|ops| - 1]);
    StepsAgreeIff(EncoderRun(t, ops[..|ops| - 1]), ops[|ops| - 1]);
  }

  /** Entries no larger than the maximum keep every reachable table within it. */
  lemma {:induction false} RunWithinMax(t: Table, ops: seq<Op>)
    requires t.max <= BOUND && Total(t.entries) <= t.max
    requires forall i :: 0 <= i < |ops| ==> Bounded(ops[i])
    requires forall k :: 0 <= k < |ops| && ops[k].Insert? ==> HpackSize(ops[k].e) <= EncoderRun(t, ops[..k]).max
    ensures Total(EncoderRun(t, ops).entries) <= EncoderRun(t, ops).max <= BOUND
  {
    if ops != [] {
      var n := |ops| - 1;
      var before := ops[..n];
      assert forall k :: 0 <= k <= n ==> ops[..k] == before[..k];
      RunWithinMax(t, before);
      var now := EncoderRun(t, before);
      StepHolds(now, ops[n]);
      if ops[n].Resize? { ShrunkFits(now.entries, ops[n].size); }
    }
  }
}
