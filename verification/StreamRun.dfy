/** The life of all streams of a connection as a state machine, and what holds over every run of it. */
module StreamRuns {
  import opened Outcomes

  datatype HttpState = Idle | Open | HalfClosed | Closed

  /** What a received frame means to its stream. */
  datatype Reception =
    | Data(endStream: bool)
    | Headers(endStream: bool)
    | Continuation(endStream: bool)
    | ResetStream
    | WindowUpdate

  /** The frame is the last one of the response. */
  predicate Completes(frame: Reception) {
    frame.ResetStream? || (!frame.WindowUpdate? && frame.endStream)
  }

  // ---------------------------------------------------------------- one stream

  /** A stream at some moment; `fired` counts the calls of its response handler. */
  datatype Snapshot = Snapshot(id: nat, httpState: HttpState, isScheduled: bool, armed: bool, fired: nat) {
    /** The handler is gone exactly when it was called once, and a stream on its way out has called it. */
    predicate Sound() {
      && fired == (if armed then 0 else 1)
      && (httpState == HalfClosed || httpState == Closed ==> fired == 1)
    }
  }

  /** Calls the handler if it is still there. */
  function Finish(s: Snapshot): Snapshot {
    if s.armed then s.(armed := false, fired := s.fired + 1) else s
  }

  function AfterReset(s: Snapshot): Snapshot {
    Finish(s.(httpState := Closed))
  }

  function AfterFrame(s: Snapshot, frame: Reception): Snapshot {
    match frame
    case Data(endStream) => if endStream then Finish(s.(httpState := HalfClosed)) else s
    case Headers(endStream) => if endStream then Finish(s.(httpState := HalfClosed)) else s
    case Continuation(endStream) => if endStream then Finish(s) else s
    case ResetStream => AfterReset(s)
    case WindowUpdate => s
  }

  /** There is something to send; `pending` stands for a window to refill, headers or body. */
  predicate HasTxData(s: Snapshot, pending: bool) {
    s.httpState == HalfClosed || pending
  }

  predicate Due(s: Snapshot, pending: bool) {
    !s.isScheduled && HasTxData(s, pending)
  }

  function AfterCheck(s: Snapshot, pending: bool): Snapshot {
    s.(isScheduled := s.isScheduled || Due(s, pending))
  }

  /** A half-closed stream is closed by sending; any other one is open afterwards if there is room. */
  function AfterTx(s: Snapshot, room: bool): Snapshot {
    s.(isScheduled := false, httpState :=
      if s.httpState == HalfClosed then Closed else if room then Open else s.httpState)
  }

  // ---------------------------------------------------------------- all streams

  /**
   * All streams ever added, in order, the ids in the stream map, and the queue of ids, in which the slots
   * of erased streams are empty.
   */
  datatype World = World(streams: seq<Snapshot>, live: set<nat>, queue: seq<Option<nat>>)

  const START := World([], {}, [])

  /** What the environment has for a stream whose turn it is to send. */
  datatype Offer = Offer(pending: bool, room: bool, later: bool)

  /** Anything that can happen to the client, in any order. */
  datatype Action =
    | Send
    | Receive(id: nat, frame: Reception, pending: bool)
    | Timer(k: nat)
    | Transmit(limit: nat, offers: nat -> Offer)
    | Disconnect

  /** The id of the stream that is added after `k` others. */
  function IdOf(k: nat): nat {
    2 * k + 1
  }

  predicate Known(n: nat, id: nat) {
    id % 2 == 1 && id / 2 < n
  }

  /** Ids are the odd numbers in order, and map and queue hold no others. */
  ghost predicate Indexed(w: World) {
    && (forall k :: 0 <= k < |w.streams| ==> w.streams[k].id == IdOf(k))
    && (forall id :: id in w.live ==> Known(|w.streams|, id))
    && (forall i :: 0 <= i < |w.queue| && w.queue[i].Some? ==> Known(|w.streams|, w.queue[i].value))
  }

  function AfterSend(w: World): World {
    var id := IdOf(|w.streams|);
    World(w.streams + [Snapshot(id, Idle, true, true, 0)], w.live + {id}, w.queue + [Some(id)])
  }

  /** The search for the stream's slot looks at every slot in front of it; an empty one cannot be looked at. */
  function FindSlot(queue: seq<Option<nat>>, id: nat): (r: Outcome<nat>)
    ensures r.Ok? || r.Undefined?
    ensures r.Ok? ==> r.value <= |queue|
  {
    if queue == [] then Ok(0)
    else if queue[0].None? then Undefined
    else if queue[0].value == id then Ok(0)
    else
      var later :- FindSlot(queue[1..], id);
      Ok(later + 1)
  }

  function Erased(queue: seq<Option<nat>>, slot: nat): (q: seq<Option<nat>>)
    ensures |q| == |queue|
  {
    if slot < |queue| then queue[slot := None] else queue
  }

  /** A received frame: its stream takes it; a closed stream is erased, another one scheduled. */
  function AfterReceive(w: World, id: nat, frame: Reception, pending: bool): Outcome<World>
    requires Indexed(w)
  {
    if id !in w.live then Ok(w)
    else
      var s := AfterFrame(w.streams[id / 2], frame);
      if s.httpState == Closed then
        var slot :- FindSlot(w.queue, id);
        Ok(World(w.streams[id / 2 := s], w.live - {id}, Erased(w.queue, slot)))
      else
        var queue := if Due(s, pending) then w.queue + [Some(id)] else w.queue;
        Ok(World(w.streams[id / 2 := AfterCheck(s, pending)], w.live, queue))
  }

  /** One stream's turn to send. */
  function AfterTurn(s: Snapshot, offer: Offer): Snapshot {
    if HasTxData(s, offer.pending) then AfterCheck(AfterTx(s, offer.room), offer.later) else s
  }

  /** It goes into the next queue when there is more to send. */
  predicate Requeued(s: Snapshot, offer: Offer) {
    HasTxData(s, offer.pending) && Due(AfterTx(s, offer.room), offer.later)
  }

  /** The transmit loop over the queue: all streams afterwards, and the queue that they are put into. */
  function Served(streams: seq<Snapshot>, queue: seq<Option<nat>>, offers: nat -> Offer, turn: nat)
    : (r: (seq<Snapshot>, seq<Option<nat>>))
    requires forall i :: 0 <= i < |queue| && queue[i].Some? ==> Known(|streams|, queue[i].value)
    ensures |r.0| == |streams|
    ensures forall i :: 0 <= i < |r.1| ==> r.1[i].Some? && Known(|streams|, r.1[i].value)
    decreases |queue|
  {
    if queue == [] then (streams, [])
    else if queue[0].None? then Served(streams, queue[1..], offers, turn)
    else
      var id := queue[0].value;
      assert Known(|streams|, id);
      var s := streams[id / 2];
      var later := Served(streams[id / 2 := AfterTurn(s, offers(turn))], queue[1..], offers, turn + 1);
      (later.0, (if Requeued(s, offers(turn)) then [Some(id)] else []) + later.1)
  }

  /** The first slot that is not empty. */
  function FirstTaken(queue: seq<Option<nat>>): (k: nat)
    ensures k <= |queue| && (k < |queue| ==> queue[k].Some?)
    ensures forall i :: 0 <= i < k ==> queue[i].None?
  {
    if queue == [] || queue[0].Some? then 0 else 1 + FirstTaken(queue[1..])
  }

  /** Empty slots are passed over. */
  lemma {:induction false} ServedSkips(streams: seq<Snapshot>, queue: seq<Option<nat>>, offers: nat -> Offer, turn: nat)
    requires forall i :: 0 <= i < |queue| && queue[i].Some? ==> Known(|streams|, queue[i].value)
    ensures Served(streams, queue, offers, turn) == Served(streams, queue[FirstTaken(queue)..], offers, turn)
    decreases |queue|
  {
    if queue == [] || queue[0].Some? {
      assert queue[0..] == queue;
    } else {
      ServedSkips(streams, queue[1..], offers, turn);
      assert queue[1..][FirstTaken(queue[1..])..] == queue[FirstTaken(queue)..];
    }
  }

  /** Transmission with a limit of fewer than 16 bytes does nothing. */
  function AfterTransmit(w: World, limit: nat, offers: nat -> Offer): World
    requires Indexed(w)
  {
    if limit < 16 then w
    else
      var served := Served(w.streams, w.queue, offers, 0);
      World(served.0, w.live, served.1)
  }

  /** Every registered stream is closed and completed. */
  function AfterDisconnect(w: World): World {
    World(seq(|w.streams|, k requires 0 <= k < |w.streams| =>
      if IdOf(k) in w.live then AfterReset(w.streams[k]) else w.streams[k]), {}, [])
  }

  function Step(w: World, a: Action): Outcome<World>
    requires Indexed(w)
  {
    match a
    case Send => Ok(AfterSend(w))
    case Receive(id, frame, pending) => AfterReceive(w, id, frame, pending)
    case Timer(k) => Ok(if k < |w.streams| then w.(streams := w.streams[k := Finish(w.streams[k])]) else w)
    case Transmit(limit, offers) => Ok(AfterTransmit(w, limit, offers))
    case Disconnect => Ok(AfterDisconnect(w))
  }

  // ---------------------------------------------------------------- every step

  /** Every stream is sound, and one that has not completed is in the map. */
  ghost predicate Sound(w: World) {
    && Indexed(w)
    && (forall k :: 0 <= k < |w.streams| ==> w.streams[k].Sound())
    && (forall k :: 0 <= k < |w.streams| ==> w.streams[k].fired == 1 || IdOf(k) in w.live)
  }

  /** The action completes stream `k`, if it is there. */
  predicate CompletesStream(a: Action, k: nat) {
    match a
    case Receive(id, frame, _) => id == IdOf(k) && Completes(frame)
    case Timer(j) => j == k
    case Disconnect => true
    case _ => false
  }

  lemma TurnKeeps(s: Snapshot, offer: Offer)
    ensures AfterTurn(s, offer).fired == s.fired && AfterTurn(s, offer).id == s.id
    ensures s.Sound() ==> AfterTurn(s, offer).Sound()
  {
  }

  lemma {:induction false} ServedKeeps(streams: seq<Snapshot>, queue: seq<Option<nat>>, offers: nat -> Offer, turn: nat)
    requires forall i :: 0 <= i < |queue| && queue[i].Some? ==> Known(|streams|, queue[i].value)
    ensures var after := Served(streams, queue, offers, turn).0;
      forall k :: 0 <= k < |streams| ==>
        && after[k].fired == streams[k].fired && after[k].id == streams[k].id
        && (streams[k].Sound() ==> after[k].Sound())
    decreases |queue|
  {
    if queue != [] {
      if queue[0].None? {
        ServedKeeps(streams, queue[1..], offers, turn);
      } else {
        var i := queue[0].value / 2;
        TurnKeeps(streams[i], offers(turn));
        ServedKeeps(streams[i := AfterTurn(streams[i], offers(turn))], queue[1..], offers, turn + 1);
      }
    }
  }

  /** One action: streams are only added by sends, and exactly the completed streams have called their handler. */
  lemma StepSound(w: World, a: Action)
    requires Sound(w) && Step(w, a).Ok?
    ensures var w' := Step(w, a).value;
      && Sound(w')
      && |w'.streams| == |w.streams| + (if a.Send? then 1 else 0)
      && (a.Send? ==> w'.streams[|w.streams|].fired == 0)
      && forall k :: 0 <= k < |w.streams| ==>
           w'.streams[k].fired == if CompletesStream(a, k) then 1 else w.streams[k].fired
  {
    match a
    case Send =>
    case Receive(id, frame, pending) =>
      if id in w.live { ReceiveSound(w, id, frame, pending); } else { NotAnId(w, id); }
    case Timer(k) =>
    case Transmit(limit, offers) => ServedKeeps(w.streams, w.queue, offers, 0);
    case Disconnect =>
  }

  /** An id that is not in the map belongs to no stream, or to one that has completed. */
  lemma NotAnId(w: World, id: nat)
    requires Sound(w) && id !in w.live
    ensures forall k :: 0 <= k < |w.streams| && id == IdOf(k) ==> w.streams[k].fired == 1
  {
  }

  lemma ReceiveSound(w: World, id: nat, frame: Reception, pending: bool)
    requires Sound(w) && id in w.live && AfterReceive(w, id, frame, pending).Ok?
    ensures var w' := AfterReceive(w, id, frame, pending).value;
      && Sound(w') && |w'.streams| == |w.streams|
      && forall k :: 0 <= k < |w.streams| ==>
           w'.streams[k].fired == if id == IdOf(k) && Completes(frame) then 1 else w.streams[k].fired
  {
    var k := id / 2;
    assert id == IdOf(k);
    var s := AfterFrame(w.streams[k], frame);
    assert s.Sound() && s.id == id && s.fired == if Completes(frame) then 1 else w.streams[k].fired;
  }

  // ---------------------------------------------------------------- every run

  /** The world after some actions, unless one of them is undefined. */
  function Run(w: World, actions: seq<Action>): (r: Outcome<World>)
    requires Sound(w)
    ensures r.Ok? ==> Sound(r.value)
  {
    if actions == [] then Ok(w)
    else
      var before :- Run(w, actions[..|actions| - 1]);
      var a := actions[|actions| - 1];
      var r := Step(before, a);
      (if r.Ok? then StepSound(before, a); r else r)
  }

  function Sends(actions: seq<Action>): nat {
    if actions == [] then 0 else Sends(actions[..|actions| - 1]) + if actions[|actions| - 1].Send? then 1 else 0
  }

  /** Action `i` completes stream `k`, which was added before. */
  ghost predicate CompletedBy(actions: seq<Action>, k: nat, i: int) {
    0 <= i < |actions| && k < Sends(actions[..i]) && CompletesStream(actions[i], k)
  }

  lemma {:induction false} SendsGrow(actions: seq<Action>, i: nat)
    requires i <= |actions|
    ensures Sends(actions[..i]) <= Sends(actions)
  {
    if i == |actions| {
      assert actions[..i] == actions;
    } else {
      var n := |actions| - 1;
      SendsGrow(actions[..n], i);
      assert actions[..n][..i] == actions[..i];
    }
  }

  /** Some action completes stream `k`, told action by action. */
  predicate Completed(actions: seq<Action>, k: nat) {
    if actions == [] then false
    else
      var n := |actions| - 1;
      Completed(actions[..n], k) || (k < Sends(actions[..n]) && CompletesStream(actions[n], k))
  }

  lemma {:induction false} CompletedIff(actions: seq<Action>, k: nat)
    ensures Completed(actions, k) <==> exists i :: CompletedBy(actions, k, i)
  {
    hide CompletesStream, Sends;
    if actions != [] {
      var n := |actions| - 1;
      var before := actions[..n];
      CompletedIff(before, k);
      forall i | 0 <= i < n ensures CompletedBy(before, k, i) <==> CompletedBy(actions, k, i) {
        assert actions[..i] == before[..i];
      }
      if i :| CompletedBy(actions, k, i) { assert i < n ==> CompletedBy(before, k, i); }
      if i :| CompletedBy(before, k, i) { assert CompletedBy(actions, k, i); }
      assert k < Sends(before) && CompletesStream(actions[n], k) ==> CompletedBy(actions, k, n);
    }
  }

  /** The streams are those that were sent, and those that were completed have called their handler. */
  lemma {:induction false} RunFires(w: World, actions: seq<Action>)
    requires w == START && Sound(w) && Run(w, actions).Ok?
    ensures var streams := Run(w, actions).value.streams;
      && |streams| == Sends(actions)
      && forall k :: 0 <= k < |streams| ==> streams[k].fired == if Completed(actions, k) then 1 else 0
  {
    hide Sound, Step, CompletesStream;
    if actions != [] {
      var n := |actions| - 1;
      RunFires(w, actions[..n]);
      StepSound(Run(w, actions[..n]).value, actions[n]);
      NotYet(actions[..n], Sends(actions[..n]));
    }
  }

  /** Nothing completes a stream that has not been sent. */
  lemma {:induction false} NotYet(actions: seq<Action>, k: nat)
    requires Sends(actions) <= k
    ensures !Completed(actions, k)
  {
    if actions != [] { NotYet(actions[..|actions| - 1], k); }
  }

  /**
   * Over every run from the start, whatever the interleaving: a stream's handler has been called exactly
   * once if some action after its send completes it, and not at all otherwise; a stream that is half
   * closed or closed has called it; and one that has not is still registered.
   */
  lemma ExactlyOnce(w: World, actions: seq<Action>, k: nat)
    requires w == START && Sound(w) && Run(w, actions).Ok? && k < Sends(actions)
    ensures var after := Run(w, actions).value;
      && |after.streams| == Sends(actions)
      && after.streams[k].id == IdOf(k)
      && after.streams[k].fired == (if exists i :: CompletedBy(actions, k, i) then 1 else 0)
      && (after.streams[k].httpState in {HalfClosed, Closed} ==> after.streams[k].fired == 1)
      && (after.streams[k].fired == 0 ==> IdOf(k) in after.live)
  {
    hide Run, Completed, CompletedBy, Sends;
    RunFires(w, actions);
    CompletedIff(actions, k);
  }

  /** After a disconnect every handler has been called, those of erased streams included. */
  lemma AllCompleted(w: World, actions: seq<Action>)
    requires w == START && Sound(w) && Run(w, actions).Ok? && actions != [] && actions[|actions| - 1].Disconnect?
    ensures var streams := Run(w, actions).value.streams;
      |streams| == Sends(actions) && forall k :: 0 <= k < |streams| ==> streams[k].fired == 1
  {
    RunFires(w, actions);
  }

  // ---------------------------------------------------------------- which runs are defined

  /** An empty slot comes before every slot of the stream. */
  ghost predicate EmptyBefore(queue: seq<Option<nat>>, id: nat) {
    exists k :: 0 <= k < |queue| && EmptyAt(queue, id, k)
  }

  ghost predicate EmptyAt(queue: seq<Option<nat>>, id: nat, k: nat)
    requires k < |queue|
  {
    queue[k].None? && Some(id) !in queue[..k]
  }

  lemma {:induction false} FindSlotUndefinedIff(queue: seq<Option<nat>>, id: nat)
    ensures FindSlot(queue, id) == Undefined <==> EmptyBefore(queue, id)
  {
    if queue != [] {
      var rest := queue[1..];
      FindSlotUndefinedIff(rest, id);
      if queue[0].None? {
        assert EmptyAt(queue, id, 0);
      } else {
        forall k | 0 <= k < |rest| && queue[0] != Some(id)
          ensures EmptyAt(rest, id, k) <==> EmptyAt(queue, id, k + 1)
        {
          assert queue[..k + 1] == [queue[0]] + rest[..k];
        }
        if k :| 0 <= k < |queue| && EmptyAt(queue, id, k) {
          assert k > 0 && queue[0] in queue[..k];
          assert EmptyAt(rest, id, k - 1);
        }
      }
    }
  }

  /** Only a frame for a registered stream that is closed afterwards can be undefined: when an empty slot is met. */
  lemma StepUndefinedIff(w: World, a: Action)
    requires Sound(w)
    ensures Step(w, a).Ok? || Step(w, a) == Undefined
    ensures Step(w, a) == Undefined <==>
      && a.Receive? && a.id in w.live
      && AfterFrame(w.streams[a.id / 2], a.frame).httpState == Closed && EmptyBefore(w.queue, a.id)
  {
    if a.Receive? { FindSlotUndefinedIff(w.queue, a.id); }
  }

  lemma RunMore(w: World, actions: seq<Action>, a: Action)
    requires Sound(w) && Run(w, actions).Ok?
    ensures Run(w, actions + [a]) == Step(Run(w, actions).value, a)
  {
    assert (actions + [a])[..|actions|] == actions;
  }

  /** Two streams reset in the order in which they were sent: the second erasure meets the slot of the first. */
  lemma EmptySlotMet(w: World, p: bool, q: bool)
    requires w == START && Sound(w)
    ensures Run(w, [Send, Send, Receive(1, ResetStream, p)]).Ok?
    ensures Run(w, [Send, Send, Receive(1, ResetStream, p), Receive(3, ResetStream, q)]) == Undefined
  {
    hide Sound;
    var none: seq<Action> := [];
    RunMore(w, none, Send);
    var one := none + [Send];
    RunMore(w, one, Send);
    var two := one + [Send];
    var w2 := Run(w, two).value;
    assert w2.queue == [Some(1), Some(3)] && w2.live == {1, 3};
    RunMore(w, two, Receive(1, ResetStream, p));
    var three := two + [Receive(1, ResetStream, p)];
    var w3 := Run(w, three).value;
    assert w3.queue == [None, Some(3)] && w3.live == {3};
    RunMore(w, three, Receive(3, ResetStream, q));
    assert three == [Send, Send, Receive(1, ResetStream, p)];
    assert three + [Receive(3, ResetStream, q)] == [Send, Send, Receive(1, ResetStream, p), Receive(3, ResetStream, q)];
  }

  /** The queue is rebuilt. */
  predicate Flushes(a: Action) {
    (a.Transmit? && a.limit >= 16) || a.Disconnect?
  }

  /** The peer has ended the stream with data or headers. */
  predicate Ended(actions: seq<Action>, id: nat) {
    if actions == [] then false
    else
      var a := actions[|actions| - 1];
      || Ended(actions[..|actions| - 1], id)
      || (a.Receive? && a.id == id && (a.frame.Data? || a.frame.Headers?) && a.frame.endStream)
  }

  /** A frame that can find its stream closed: a reset, or a late frame of a stream that was ended. */
  predicate MayErase(actions: seq<Action>, i: nat)
    requires i < |actions|
  {
    var a := actions[i];
    a.Receive? && (a.frame.ResetStream? || Ended(actions[..i], a.id))
  }

  ghost predicate FlushedBetween(actions: seq<Action>, i: nat, j: nat) {
    exists m :: i < m < j <= |actions| && Flushes(actions[m])
  }

  /** Between two such frames for different streams the queue is rebuilt. */
  ghost predicate Spaced(actions: seq<Action>) {
    forall i, j | 0 <= i < j < |actions| && MayErase(actions, i) && MayErase(actions, j) ::
      actions[i].id != actions[j].id ==> FlushedBetween(actions, i, j)
  }

  /** Registered streams on their way out were ended by the peer. */
  ghost predicate EndedOnly(w: World, actions: seq<Action>)
    requires Indexed(w)
  {
    forall id :: id in w.live && w.streams[id / 2].httpState in {HalfClosed, Closed} ==> Ended(actions, id)
  }

  /** An empty slot is that of a stream erased since the queue was rebuilt. */
  ghost predicate EmptiedBy(w: World, actions: seq<Action>, i: nat) {
    && i < |actions| && MayErase(actions, i) && actions[i].id !in w.live
    && Known(|w.streams|, actions[i].id) && !FlushedBetween(actions, i, |actions|)
  }

  ghost predicate EmptiedOnly(w: World, actions: seq<Action>) {
    None in w.queue ==> exists i :: EmptiedBy(w, actions, i)
  }

  /** Runs in which the queue is rebuilt between erasures are defined. */
  lemma {:induction false} SpacedRunsDefined(w: World, actions: seq<Action>)
    requires w == START && Sound(w) && Spaced(actions)
    ensures var r := Run(w, actions);
      r.Ok? && EndedOnly(r.value, actions) && EmptiedOnly(r.value, actions)
  {
    if actions != [] {
      hide Sound, Run, Spaced;
      var n := |actions| - 1;
      var before, a := actions[..n], actions[n];
      SpacedBefore(actions);
      SpacedRunsDefined(w, before);
      var now := Run(w, before).value;
      assert actions == before + [a];
      RunMore(w, before, a);
      NextDefined(now, actions);
      StaysEnded(now, actions);
      StaysEmptied(now, actions);
    }
  }

  lemma SpacedBefore(actions: seq<Action>)
    requires actions != [] && Spaced(actions)
    ensures Spaced(actions[..|actions| - 1])
  {
    var before := actions[..|actions| - 1];
    forall i, j | 0 <= i < j < |before| && MayErase(before, i) && MayErase(before, j) && before[i].id != before[j].id
      ensures FlushedBetween(before, i, j)
    {
      assert before[..i] == actions[..i] && before[..j] == actions[..j];
      var m :| i < m < j && Flushes(actions[m]);
      assert before[m] == actions[m];
    }
  }

  /** A frame that leaves a registered stream closed is a reset, or a late frame of an ended stream. */
  lemma ClosingFrame(w: World, actions: seq<Action>)
    requires actions != [] && Indexed(w) && EndedOnly(w, actions[..|actions| - 1])
    ensures var a := actions[|actions| - 1];
      a.Receive? && a.id in w.live && AfterFrame(w.streams[a.id / 2], a.frame).httpState == Closed ==>
        MayErase(actions, |actions| - 1)
  {
  }

  lemma SameStretch(actions: seq<Action>, i: nat)
    requires i < |actions| - 1
    ensures var before := actions[..|actions| - 1];
      && before[i] == actions[i] && (MayErase(before, i) <==> MayErase(actions, i))
      && (FlushedBetween(actions, i, |actions| - 1) <==> FlushedBetween(before, i, |before|))
      && (FlushedBetween(actions, i, |actions|) <==>
            FlushedBetween(before, i, |before|) || Flushes(actions[|actions| - 1]))
  {
    var n := |actions| - 1;
    var before := actions[..n];
    assert before[..i] == actions[..i];
    if m :| i < m < n && Flushes(actions[m]) { assert Flushes(before[m]); }
    if m :| i < m < n && Flushes(before[m]) { assert Flushes(actions[m]); }
    if m :| i < m <= n && Flushes(actions[m]) { assert m < n ==> Flushes(before[m]); }
    assert Flushes(actions[n]) ==> FlushedBetween(actions, i, n + 1);
  }

  lemma NextDefined(w: World, actions: seq<Action>)
    requires actions != [] && Sound(w) && Spaced(actions)
    requires EndedOnly(w, actions[..|actions| - 1]) && EmptiedOnly(w, actions[..|actions| - 1])
    ensures Step(w, actions[|actions| - 1]).Ok?
  {
    hide MayErase, FlushedBetween, AfterFrame, Step;
    var n := |actions| - 1;
    StepUndefinedIff(w, actions[n]);
    ClosingFrame(w, actions);
    if i :| EmptiedBy(w, actions[..n], i) { SameStretch(actions, i); }
  }

  lemma {:induction false} ServedStates(streams: seq<Snapshot>, queue: seq<Option<nat>>, offers: nat -> Offer,
    turn: nat)
    requires forall i :: 0 <= i < |queue| && queue[i].Some? ==> Known(|streams|, queue[i].value)
    ensures var after := Served(streams, queue, offers, turn).0;
      forall k :: 0 <= k < |streams| && after[k].httpState in {HalfClosed, Closed} ==>
        streams[k].httpState in {HalfClosed, Closed}
    decreases |queue|
  {
    if queue != [] {
      if queue[0].None? {
        ServedStates(streams, queue[1..], offers, turn);
      } else {
        var i := queue[0].value / 2;
        ServedStates(streams[i := AfterTurn(streams[i], offers(turn))], queue[1..], offers, turn + 1);
      }
    }
  }

  lemma StaysEnded(w: World, actions: seq<Action>)
    requires actions != [] && Sound(w) && Step(w, actions[|actions| - 1]).Ok?
    requires EndedOnly(w, actions[..|actions| - 1])
    ensures Indexed(Step(w, actions[|actions| - 1]).value) && EndedOnly(Step(w, actions[|actions| - 1]).value, actions)
  {
    var n := |actions| - 1;
    var a := actions[n];
    StepSound(w, a);
    if a.Transmit? {
      ServedStates(w.streams, w.queue, a.offers, 0);
    } else if a.Receive? && a.id in w.live {
      FrameEnds(w, actions);
    }
  }

  lemma FrameEnds(w: World, actions: seq<Action>)
    requires actions != [] && Indexed(w) && EndedOnly(w, actions[..|actions| - 1])
    requires actions[|actions| - 1].Receive? && actions[|actions| - 1].id in w.live
    ensures var a := actions[|actions| - 1];
      var s := AfterFrame(w.streams[a.id / 2], a.frame);
      s.httpState == HalfClosed || (s.httpState == Closed && !a.frame.ResetStream?) ==> Ended(actions, a.id)
    ensures forall id :: Ended(actions[..|actions| - 1], id) ==> Ended(actions, id)
  {
  }

  lemma StaysEmptied(w: World, actions: seq<Action>)
    requires actions != [] && Sound(w) && Step(w, actions[|actions| - 1]).Ok?
    requires EndedOnly(w, actions[..|actions| - 1]) && EmptiedOnly(w, actions[..|actions| - 1])
    ensures EmptiedOnly(Step(w, actions[|actions| - 1]).value, actions)
  {
    var n := |actions| - 1;
    var a := actions[n];
    var w' := Step(w, a).value;
    ClosingFrame(w, actions);
    if None in w'.queue {
      if i :| EmptiedBy(w, actions[..n], i) {
        SameStretch(actions, i);
        assert EmptiedBy(w', actions, i);
      } else {
        assert EmptiedBy(w', actions, n);
      }
    }
  }

  // ---------------------------------------------------------------- exactly which runs are defined

  /** The slot of the stream, or the end of the queue. */
  function SlotOf(queue: seq<Option<nat>>, id: nat): (k: nat)
    ensures k <= |queue| && Some(id) !in queue[..k] && (k < |queue| ==> queue[k] == Some(id))
  {
    if queue == [] || queue[0] == Some(id) then 0
    else
      var k := 1 + SlotOf(queue[1..], id);
      assert queue[..k] == [queue[0]] + queue[1..][..k - 1];
      k
  }

  /** The frame leaves its stream closed, so that it is erased. */
  predicate Closes(w: World, a: Action)
    requires Indexed(w)
  {
    a.Receive? && a.id in w.live && AfterFrame(w.streams[a.id / 2], a.frame).httpState == Closed
  }

  /** Action `i` of the run erases a stream that is in slot `p` at that time. */
  ghost predicate ErasesSlot(w: World, actions: seq<Action>, i: nat, p: nat)
    requires Sound(w)
  {
    i < |actions| && Run(w, actions[..i]).Ok? &&
    var now := Run(w, actions[..i]).value;
    Closes(now, actions[i]) && p == SlotOf(now.queue, actions[i].id) && p < |now.queue|
  }

  /** It does, and the queue has not been rebuilt since. */
  ghost predicate EmptiedSlot(w: World, actions: seq<Action>, i: nat, p: nat)
    requires Sound(w)
  {
    ErasesSlot(w, actions, i, p) && !FlushedBetween(actions, i, |actions|)
  }

  /** The empty slots are those of the streams erased since the queue was rebuilt. */
  ghost predicate SlotsTold(w: World, actions: seq<Action>, queue: seq<Option<nat>>)
    requires Sound(w)
  {
    && (forall i: nat, p: nat :: EmptiedSlot(w, actions, i, p) ==> p < |queue| && queue[p].None?)
    && (forall p :: 0 <= p < |queue| && queue[p].None? ==> exists i: nat :: EmptiedSlot(w, actions, i, p))
  }

  /**
   * An erasure is in order when the stream's slot comes before those of all streams that were erased since
   * the queue was rebuilt.
   */
  ghost predicate InOrder(w: World, actions: seq<Action>, j: nat)
    requires Sound(w) && j < |actions|
  {
    var before := Run(w, actions[..j]);
    before.Ok? && Closes(before.value, actions[j]) ==>
      forall i: nat, p: nat :: EmptiedSlot(w, actions[..j], i, p) ==> SlotOf(before.value.queue, actions[j].id) < p
  }

  lemma {:induction false} FoundAtSlot(queue: seq<Option<nat>>, id: nat)
    ensures FindSlot(queue, id).Ok? ==> FindSlot(queue, id) == Ok(SlotOf(queue, id))
  {
    if queue != [] { FoundAtSlot(queue[1..], id); }
  }

  lemma EmptyBeforeSlot(queue: seq<Option<nat>>, id: nat)
    ensures EmptyBefore(queue, id) <==> exists p :: 0 <= p < SlotOf(queue, id) && queue[p].None?
  {
    var k := SlotOf(queue, id);
    if p :| 0 <= p < k && queue[p].None? {
      assert Some(id) !in queue[..p] by { assert forall q :: q in queue[..p] ==> q in queue[..k]; }
      assert EmptyAt(queue, id, p);
    }
    if p :| 0 <= p < |queue| && EmptyAt(queue, id, p) {
      assert p > k ==> queue[k] in queue[..p];
    }
  }

  /** One step further, erasures so far are what they were, unless the queue is rebuilt. */
  lemma EmptiedStep(w: World, actions: seq<Action>, i: nat, p: nat)
    requires Sound(w) && actions != []
    ensures var n := |actions| - 1;
      EmptiedSlot(w, actions, i, p) == (if i == n then ErasesSlot(w, actions, n, p)
        else EmptiedSlot(w, actions[..n], i, p) && !Flushes(actions[n]))
  {
    hide Run, Sound, Closes, SlotOf;
    var n := |actions| - 1;
    if i < n {
      SameStretch(actions, i);
      assert actions[..n][..i] == actions[..i];
    }
  }

  /** An empty slot after the step was empty before it, or is the one that the step empties. */
  ghost predicate SlotsMove(w: World, a: Action, queue: seq<Option<nat>>)
    requires Indexed(w)
  {
    if Flushes(a) then None !in queue
    else
      && |w.queue| <= |queue|
      && forall p :: 0 <= p < |queue| ==>
           (queue[p].None? <==> p < |w.queue| && (w.queue[p].None? || (Closes(w, a) && p == SlotOf(w.queue, a.id))))
  }

  /** What a step does to the empty slots of the queue. */
  lemma QueueAfter(w: World, a: Action)
    requires Sound(w) && Step(w, a).Ok?
    ensures SlotsMove(w, a, Step(w, a).value.queue)
  {
    if a.Receive? && a.id in w.live {
      FoundAtSlot(w.queue, a.id);
    }
  }

  lemma SlotsStep(w: World, actions: seq<Action>, now: World, queue: seq<Option<nat>>)
    requires Sound(w) && actions != [] && Run(w, actions[..|actions| - 1]) == Ok(now) && Indexed(now)
    requires SlotsTold(w, actions[..|actions| - 1], now.queue) && SlotsMove(now, actions[|actions| - 1], queue)
    ensures SlotsTold(w, actions, queue)
  {
    hide Run, Sound, Indexed, SlotOf, EmptiedSlot, AfterFrame;
    var n := |actions| - 1;
    var before, a := actions[..n], actions[n];
    forall i: nat, p: nat | EmptiedSlot(w, actions, i, p)
      ensures p < |queue| && queue[p].None?
    {
      EmptiedStep(w, actions, i, p);
    }
    forall p | 0 <= p < |queue| && queue[p].None?
      ensures exists i: nat :: EmptiedSlot(w, actions, i, p)
    {
      if Closes(now, a) && p == SlotOf(now.queue, a.id) {
        EmptiedStep(w, actions, n, p);
        assert EmptiedSlot(w, actions, n, p);
      } else {
        var i: nat :| EmptiedSlot(w, before, i, p);
        EmptiedStep(w, actions, i, p);
        EmptiedEarlier(w, before, i, p);
        assert EmptiedSlot(w, actions, i, p);
      }
    }
  }

  lemma EmptiedEarlier(w: World, actions: seq<Action>, i: nat, p: nat)
    requires Sound(w) && EmptiedSlot(w, actions, i, p)
    ensures i < |actions|
  {
  }

  /**
   * A run is defined if and only if, in each stretch in which the queue is not rebuilt, streams are erased
   * against the order of their slots in it, and streams without a slot before all others.
   */
  lemma {:induction false} RunDefinedIff(w: World, actions: seq<Action>)
    requires w == START && Sound(w)
    ensures Run(w, actions).Ok? <==> forall j :: 0 <= j < |actions| ==> InOrder(w, actions, j)
    ensures Run(w, actions).Ok? ==> SlotsTold(w, actions, Run(w, actions).value.queue)
  {
    hide Sound, Step, Run, InOrder, SlotsTold, SlotsMove;
    if actions == [] {
      NothingTold(w);
    } else {
      var n := |actions| - 1;
      var before, a := actions[..n], actions[n];
      RunDefinedIff(w, before);
      RunLast(w, actions);
      forall j | 0 <= j < n ensures InOrder(w, actions, j) <==> InOrder(w, before, j) {
        OrderBefore(w, actions, j);
      }
      var r := Run(w, before);
      if r.Ok? {
        NextInOrder(w, actions, r.value);
        if Step(r.value, a).Ok? {
          QueueAfter(r.value, a);
          SlotsStep(w, actions, r.value, Step(r.value, a).value.queue);
        }
      }
    }
  }

  lemma NothingTold(w: World)
    requires Sound(w) && w.queue == []
    ensures Run(w, []) == Ok(w) && SlotsTold(w, [], w.queue)
  {
  }

  lemma RunLast(w: World, actions: seq<Action>)
    requires Sound(w) && actions != []
    ensures var before := Run(w, actions[..|actions| - 1]);
      && (before.Ok? ==> Indexed(before.value) && Run(w, actions) == Step(before.value, actions[|actions| - 1]))
      && (!before.Ok? ==> !Run(w, actions).Ok?)
  {
  }

  lemma OrderBefore(w: World, actions: seq<Action>, j: nat)
    requires Sound(w) && j < |actions| - 1
    ensures InOrder(w, actions, j) <==> InOrder(w, actions[..|actions| - 1], j)
  {
    hide Run, Sound, Closes, SlotOf, EmptiedSlot;
    assert actions[..j] == actions[..|actions| - 1][..j];
  }

  /** The next step is defined if and only if it is in order. */
  lemma NextInOrder(w: World, actions: seq<Action>, now: World)
    requires Sound(w) && actions != [] && Run(w, actions[..|actions| - 1]) == Ok(now) && Sound(now)
    requires SlotsTold(w, actions[..|actions| - 1], now.queue)
    ensures Step(now, actions[|actions| - 1]).Ok? <==> InOrder(w, actions, |actions| - 1)
  {
    var n := |actions| - 1;
    var a := actions[n];
    StepDefinedIff(now, a);
    hide Run, Sound, Step, EmptiedSlot, SlotOf;
    if Closes(now, a) { BeforeAll(w, actions[..n], now.queue, SlotOf(now.queue, a.id)); }
  }

  lemma StepDefinedIff(w: World, a: Action)
    requires Sound(w)
    ensures Step(w, a).Ok? <==>
      (Closes(w, a) ==> forall p :: 0 <= p < SlotOf(w.queue, a.id) ==> w.queue[p].Some?)
  {
    StepUndefinedIff(w, a);
    hide Step, EmptyBefore, SlotOf;
    if Closes(w, a) { EmptyBeforeSlot(w.queue, a.id); }
  }

  lemma BeforeAll(w: World, actions: seq<Action>, queue: seq<Option<nat>>, k: nat)
    requires Sound(w) && SlotsTold(w, actions, queue) && k <= |queue|
    requires k < |queue| ==> queue[k].Some?
    ensures (forall p :: 0 <= p < k ==> queue[p].Some?) <==>
      forall i: nat, p: nat :: EmptiedSlot(w, actions, i, p) ==> k < p
  {
    hide Sound, Run, EmptiedSlot;
    if p :| 0 <= p < k && queue[p].None? {
      var i: nat :| EmptiedSlot(w, actions, i, p);
    }
  }

  // ---------------------------------------------------------------- runs without transmission

  /** A registered stream has been reset. */
  predicate Gone(actions: seq<Action>, id: nat) {
    if actions == [] then false
    else
      var n := |actions| - 1;
      Gone(actions[..n], id) || (actions[n].Receive? && actions[n].id == id && Resets(actions, n))
  }

  /** The reset of a stream that was sent before. */
  predicate Resets(actions: seq<Action>, i: nat)
    requires i < |actions|
  {
    actions[i].Receive? && actions[i].frame.ResetStream? && Known(Sends(actions[..i]), actions[i].id)
  }

  /** The first reset of its stream. */
  predicate FirstReset(actions: seq<Action>, i: nat)
    requires i < |actions|
  {
    Resets(actions, i) && !Gone(actions[..i], actions[i].id)
  }

  /** Streams are reset against the order in which they were sent. */
  ghost predicate Descending(actions: seq<Action>) {
    forall i, j :: 0 <= i < j < |actions| && FirstReset(actions, i) && FirstReset(actions, j) ==>
      actions[j].id < actions[i].id
  }

  /** Nothing is transmitted and the connection stays. */
  predicate Quiet(actions: seq<Action>) {
    forall i :: 0 <= i < |actions| ==> !Flushes(actions[i])
  }

  ghost predicate GoneBy(actions: seq<Action>, id: nat, i: int) {
    0 <= i < |actions| && FirstReset(actions, i) && actions[i].id == id
  }

  lemma {:induction false} GoneIff(actions: seq<Action>, id: nat)
    ensures Gone(actions, id) <==> exists i :: GoneBy(actions, id, i)
  {
    hide Sends;
    if actions != [] {
      var n := |actions| - 1;
      var before := actions[..n];
      GoneIff(before, id);
      forall i | 0 <= i < n ensures GoneBy(before, id, i) <==> GoneBy(actions, id, i) {
        assert actions[..i] == before[..i];
      }
      if i :| GoneBy(actions, id, i) { assert i < n ==> GoneBy(before, id, i); }
      if i :| GoneBy(before, id, i) { assert GoneBy(actions, id, i); }
      assert FirstReset(actions, n) && actions[n].id == id ==> GoneBy(actions, id, n);
    }
  }

  /** A stream that was sent earlier has been reset. */
  ghost predicate EarlierGone(actions: seq<Action>, id: nat) {
    exists j :: 0 <= j < id / 2 && Gone(actions, IdOf(j))
  }

  /** Without transmission every stream keeps the one slot of its send, which is empty once it was reset. */
  ghost predicate QuietWorld(w: World, actions: seq<Action>) {
    && |w.queue| == |w.streams| == Sends(actions)
    && (forall k :: 0 <= k < |w.streams| ==> w.queue[k] == if IdOf(k) in w.live then Some(IdOf(k)) else None)
    && (forall k :: 0 <= k < |w.streams| ==> (IdOf(k) in w.live <==> !Gone(actions, IdOf(k))))
    && (forall k :: 0 <= k < |w.streams| ==> w.streams[k].isScheduled)
    && (forall k :: 0 <= k < |w.streams| && IdOf(k) in w.live ==> w.streams[k].httpState != Closed)
  }

  lemma {:induction false} UnsentNotGone(actions: seq<Action>, k: nat)
    requires Sends(actions) <= k
    ensures !Gone(actions, IdOf(k))
  {
    if actions != [] { UnsentNotGone(actions[..|actions| - 1], k); }
  }

  /** The erasure is defined exactly when no stream that was sent earlier has been reset. */
  lemma QuietErasure(w: World, actions: seq<Action>, id: nat)
    requires Sound(w) && QuietWorld(w, actions) && id in w.live
    ensures EmptyBefore(w.queue, id) <==> EarlierGone(actions, id)
    ensures !EmptyBefore(w.queue, id) ==> FindSlot(w.queue, id) == Ok(id / 2)
  {
    var k := id / 2;
    assert id == IdOf(k);
    assert w.queue[k] == Some(id);
    if j :| 0 <= j < k && Gone(actions, IdOf(j)) {
      assert w.queue[j].None?;
      assert EmptyAt(w.queue, id, j);
    }
    if j :| 0 <= j < |w.queue| && EmptyAt(w.queue, id, j) {
      SlotInFront(w.queue, id, k, j);
      assert Gone(actions, IdOf(j));
    } else {
      FindSlotUndefinedIff(w.queue, id);
      SlotFound(w.queue, id, k);
    }
  }

  lemma SlotInFront(queue: seq<Option<nat>>, id: nat, k: nat, j: nat)
    requires k < |queue| && j < |queue| && queue[k] == Some(id) && EmptyAt(queue, id, j)
    ensures j < k
  {
    assert forall i :: 0 <= i < j ==> queue[i] in queue[..j];
  }

  lemma {:induction false} SlotFound(queue: seq<Option<nat>>, id: nat, k: nat)
    requires k < |queue| && queue[k] == Some(id) && Some(id) !in queue[..k] && FindSlot(queue, id).Ok?
    ensures FindSlot(queue, id) == Ok(k)
  {
    if k > 0 {
      assert queue[0] == queue[..k][0];
      assert queue[1..][..k - 1] == queue[..k][1..];
      SlotFound(queue[1..], id, k - 1);
    }
  }

  /** A reset erases its stream, if it is the first one; any other frame leaves the stream in its slot. */
  lemma QuietReceive(w: World, before: seq<Action>, a: Action)
    requires Sound(w) && QuietWorld(w, before) && a.Receive? && a.id in w.live
    ensures a.frame.ResetStream? && EarlierGone(before, a.id) ==> Step(w, a) == Undefined
    ensures a.frame.ResetStream? && !EarlierGone(before, a.id) ==>
      Step(w, a) == Ok(World(w.streams[a.id / 2 := AfterReset(w.streams[a.id / 2])], w.live - {a.id},
        w.queue[a.id / 2 := None]))
    ensures !a.frame.ResetStream? ==>
      var s := AfterFrame(w.streams[a.id / 2], a.frame);
      s.httpState != Closed && s.isScheduled && Step(w, a) == Ok(w.(streams := w.streams[a.id / 2 := s]))
  {
    hide QuietWorld, EmptyBefore, EarlierGone;
    QuietErasure(w, before, a.id);
    FindSlotUndefinedIff(w.queue, a.id);
    QuietStream(w, before, a.id);
  }

  lemma QuietStream(w: World, actions: seq<Action>, id: nat)
    requires Sound(w) && QuietWorld(w, actions) && id in w.live
    ensures Known(|w.streams|, id) && id == IdOf(id / 2) && !Gone(actions, id)
    ensures |w.queue| == |w.streams| == Sends(actions)
    ensures w.streams[id / 2].isScheduled && w.streams[id / 2].httpState != Closed
  {
    assert id == IdOf(id / 2);
  }

  lemma NotLive(w: World, actions: seq<Action>, id: nat)
    requires Sound(w) && QuietWorld(w, actions) && id !in w.live
    ensures Known(Sends(actions), id) ==> Gone(actions, id)
  {
    assert id % 2 == 1 ==> id == IdOf(id / 2);
  }

  /** Whether the action resets a registered stream of which an earlier one is gone. */
  ghost predicate Meets(before: seq<Action>, a: Action) {
    && a.Receive? && a.frame.ResetStream? && Known(Sends(before), a.id)
    && !Gone(before, a.id) && EarlierGone(before, a.id)
  }

  lemma QuietDefined(w: World, before: seq<Action>, a: Action)
    requires Sound(w) && QuietWorld(w, before) && !Flushes(a)
    ensures Step(w, a).Ok? <==> !Meets(before, a)
  {
    if a.Receive? {
      if a.id in w.live {
        QuietReceive(w, before, a);
        QuietStream(w, before, a.id);
      } else {
        NotLive(w, before, a.id);
      }
    }
  }

  lemma QuietStep(w: World, actions: seq<Action>)
    requires actions != [] && Sound(w) && QuietWorld(w, actions[..|actions| - 1]) && !Flushes(actions[|actions| - 1])
    requires Step(w, actions[|actions| - 1]).Ok?
    ensures QuietWorld(Step(w, actions[|actions| - 1]).value, actions)
  {
    var n := |actions| - 1;
    var a := actions[n];
    if a.Receive? {
      if a.id in w.live {
        QuietReceived(w, actions);
      } else {
        NotLive(w, actions[..n], a.id);
        assert forall id :: Gone(actions, id) == Gone(actions[..n], id);
      }
    } else {
      assert forall id :: Gone(actions, id) == Gone(actions[..n], id);
      UnsentNotGone(actions[..n], |w.streams|);
    }
  }

  lemma QuietReceived(w: World, actions: seq<Action>)
    requires actions != [] && Sound(w) && QuietWorld(w, actions[..|actions| - 1])
    requires actions[|actions| - 1].Receive? && actions[|actions| - 1].id in w.live
    requires Step(w, actions[|actions| - 1]).Ok?
    ensures QuietWorld(Step(w, actions[|actions| - 1]).value, actions)
  {
    hide Step, Sound, EarlierGone;
    var n := |actions| - 1;
    var a := actions[n];
    QuietReceive(w, actions[..n], a);
    QuietStream(w, actions[..n], a.id);
    GoneStep(actions);
  }

  lemma GoneStep(actions: seq<Action>)
    requires actions != [] && actions[|actions| - 1].Receive?
    ensures var n := |actions| - 1;
      forall id :: Gone(actions, id) == (Gone(actions[..n], id) || (id == actions[n].id && Resets(actions, n)))
    ensures Sends(actions) == Sends(actions[..|actions| - 1])
  {
  }

  /** Without transmission a run is defined if and only if streams are reset against the order of their sends. */
  lemma {:induction false} QuietRunsDefinedIff(w: World, actions: seq<Action>)
    requires w == START && Sound(w) && Quiet(actions)
    ensures Run(w, actions).Ok? <==> Descending(actions)
    ensures Run(w, actions).Ok? ==> QuietWorld(Run(w, actions).value, actions)
  {
    hide Step, EarlierGone, Gone;
    if actions != [] {
      var n := |actions| - 1;
      QuietRunsDefinedIff(w, actions[..n]);
      DescendingStep(actions);
      var r := Run(w, actions[..n]);
      if r.Ok? {
        QuietDefined(r.value, actions[..n], actions[n]);
        if Step(r.value, actions[n]).Ok? { QuietStep(r.value, actions); }
      }
    }
  }

  lemma DescendingStep(actions: seq<Action>)
    requires actions != []
    ensures var n := |actions| - 1;
      Descending(actions) == (Descending(actions[..n])
        && !(FirstReset(actions, n) && EarlierGone(actions[..n], actions[n].id)))
  {
    var n := |actions| - 1;
    var before := actions[..n];
    forall i | 0 <= i < n ensures before[i] == actions[i] && (FirstReset(before, i) <==> FirstReset(actions, i)) {
      assert before[..i] == actions[..i];
    }
    if FirstReset(actions, n) { LastDescends(before, actions[n].id); }
  }

  /** All streams that were reset are later ones exactly when no earlier one was. */
  lemma LastDescends(actions: seq<Action>, id: nat)
    requires id % 2 == 1 && !Gone(actions, id)
    ensures (forall i :: 0 <= i < |actions| && FirstReset(actions, i) ==> id < actions[i].id) <==>
      !EarlierGone(actions, id)
  {
    hide Gone, Sends;
    forall i | 0 <= i < |actions| && FirstReset(actions, i)
      ensures id < actions[i].id || EarlierGone(actions, id)
    {
      var r := actions[i].id;
      GoneIff(actions, r);
      assert GoneBy(actions, r, i);
      assert r == IdOf(r / 2);
    }
    if j :| 0 <= j < id / 2 && Gone(actions, IdOf(j)) {
      GoneIff(actions, IdOf(j));
      var i :| GoneBy(actions, IdOf(j), i);
    }
  }
}
