/** The transmit queue over every run: whose slots it holds, and which streams it serves. */
module StreamQueues {
  import opened Outcomes
  import opened StreamRuns

  // ---------------------------------------------------------------- one transmission

  /** No stream has two slots. */
  ghost predicate Distinct(queue: seq<Option<nat>>) {
    forall p, q :: 0 <= p < q < |queue| && queue[p].Some? ==> queue[p] != queue[q]
  }

  ghost predicate AllKnown(n: nat, queue: seq<Option<nat>>) {
    forall i :: 0 <= i < |queue| && queue[i].Some? ==> Known(n, queue[i].value)
  }

  /** The number of slots that are not empty. */
  function Taken(queue: seq<Option<nat>>): nat {
    if queue == [] then 0 else (if queue[0].Some? then 1 else 0) + Taken(queue[1..])
  }

  /** A stream without a slot is left alone. */
  lemma {:induction false} ServedOthers(streams: seq<Snapshot>, queue: seq<Option<nat>>, offers: nat -> Offer,
      turn: nat, k: nat)
    requires AllKnown(|streams|, queue) && k < |streams| && Some(IdOf(k)) !in queue
    ensures var r := Served(streams, queue, offers, turn);
      r.0[k] == streams[k] && Some(IdOf(k)) !in r.1
    decreases |queue|
  {
    hide AfterTurn, Requeued;
    if queue != [] {
      var rest := queue[1..];
      assert queue == [queue[0]] + rest;
      if queue[0].None? {
        ServedOthers(streams, rest, offers, turn, k);
      } else {
        var i := queue[0].value / 2;
        assert Known(|streams|, queue[0].value);
        assert i != k;
        ServedOthers(streams[i := AfterTurn(streams[i], offers(turn))], rest, offers, turn + 1, k);
      }
    }
  }

  /** A stream with a slot has exactly one turn, in the order of the slots, and is put back when it has more. */
  lemma {:induction false} ServedInTurn(streams: seq<Snapshot>, queue: seq<Option<nat>>, offers: nat -> Offer,
      turn: nat, p: nat, k: nat)
    requires AllKnown(|streams|, queue) && Distinct(queue) && p < |queue| && k < |streams| && queue[p] == Some(IdOf(k))
    ensures var r := Served(streams, queue, offers, turn);
      var offer := offers(turn + Taken(queue[..p]));
      && r.0[k] == AfterTurn(streams[k], offer)
      && (Some(IdOf(k)) in r.1 <==> Requeued(streams[k], offer))
    decreases |queue|
  {
    hide AfterTurn, Requeued;
    var rest := queue[1..];
    assert queue == [queue[0]] + rest;
    if p > 0 { assert queue[..p][1..] == rest[..p - 1]; }
    if queue[0].None? {
      ServedInTurn(streams, rest, offers, turn, p - 1, k);
    } else {
      var i := queue[0].value / 2;
      assert Known(|streams|, queue[0].value);
      var next := streams[i := AfterTurn(streams[i], offers(turn))];
      if p == 0 {
        ServedOthers(next, rest, offers, turn + 1, k);
      } else {
        assert i != k;
        ServedInTurn(next, rest, offers, turn + 1, p - 1, k);
      }
    }
  }

  lemma {:induction false} ServedDistinct(streams: seq<Snapshot>, queue: seq<Option<nat>>, offers: nat -> Offer,
      turn: nat)
    requires AllKnown(|streams|, queue) && Distinct(queue)
    ensures Distinct(Served(streams, queue, offers, turn).1)
    decreases |queue|
  {
    hide AfterTurn, Requeued;
    if queue != [] {
      var rest := queue[1..];
      if queue[0].None? {
        ServedDistinct(streams, rest, offers, turn);
      } else {
        var i := queue[0].value / 2;
        assert Known(|streams|, queue[0].value);
        var next := streams[i := AfterTurn(streams[i], offers(turn))];
        ServedDistinct(next, rest, offers, turn + 1);
        ServedOthers(next, rest, offers, turn + 1, i);
      }
    }
  }

  /** The transmission gives the stream its turn when it has nothing to send. */
  ghost predicate PassesOver(w: World, a: Action, id: nat)
    requires Indexed(w)
  {
    && a.Transmit? && a.limit >= 16
    && exists p :: 0 <= p < |w.queue| && PassedAt(w, a.offers, id, p)
  }

  ghost predicate PassedAt(w: World, offers: nat -> Offer, id: nat, p: nat)
    requires Indexed(w) && p < |w.queue|
  {
    && w.queue[p] == Some(id) && Known(|w.streams|, id)
    && !HasTxData(w.streams[id / 2], offers(Taken(w.queue[..p])).pending)
  }

  // ---------------------------------------------------------------- every step

  /** Slots are of registered streams, which know that they are scheduled; a half-closed stream is scheduled. */
  ghost predicate QueueSound(w: World)
    requires Indexed(w)
  {
    && Distinct(w.queue)
    && (forall p :: 0 <= p < |w.queue| && w.queue[p].Some? ==>
          w.queue[p].value in w.live && w.streams[w.queue[p].value / 2].isScheduled)
    && (forall id :: id in w.live && w.streams[id / 2].httpState == HalfClosed ==> w.streams[id / 2].isScheduled)
  }

  /** A registered stream that is scheduled and has no slot: it is never served again. */
  ghost predicate Stuck(w: World, id: nat)
    requires Indexed(w)
  {
    id in w.live && w.streams[id / 2].isScheduled && Some(id) !in w.queue
  }

  lemma TurnIs(s: Snapshot, offer: Offer)
    ensures AfterTurn(s, offer).httpState != HalfClosed
    ensures if !HasTxData(s, offer.pending) then AfterTurn(s, offer) == s && !Requeued(s, offer)
      else AfterTurn(s, offer).isScheduled <==> Requeued(s, offer)
  {
  }

  /** What a transmission leaves of a registered stream. */
  lemma FlushedStream(w: World, a: Action, id: nat)
    requires Indexed(w) && QueueSound(w) && a.Transmit? && a.limit >= 16 && Known(|w.streams|, id)
    requires Indexed(Step(w, a).value)
    ensures var w' := Step(w, a).value;
      && (Some(id) in w'.queue ==> Some(id) in w.queue && w'.streams[id / 2].isScheduled)
      && (Some(id) in w.queue ==> w'.streams[id / 2].httpState != HalfClosed)
      && (Some(id) !in w.queue ==> w'.streams[id / 2] == w.streams[id / 2])
      && (id in w.live ==> (Stuck(w', id) <==> Stuck(w, id) || PassesOver(w, a, id)))
  {
    var k := id / 2;
    assert id == IdOf(k);
    hide AfterTurn, Requeued, HasTxData;
    if Some(id) in w.queue {
      var p :| 0 <= p < |w.queue| && w.queue[p] == Some(id);
      ServedInTurn(w.streams, w.queue, a.offers, 0, p, k);
      TurnIs(w.streams[k], a.offers(Taken(w.queue[..p])));
      assert PassedAt(w, a.offers, id, p) <==> !HasTxData(w.streams[k], a.offers(Taken(w.queue[..p])).pending);
      assert forall q :: 0 <= q < |w.queue| && q != p ==> w.queue[q] != Some(id);
    } else {
      ServedOthers(w.streams, w.queue, a.offers, 0, k);
    }
  }

  lemma FlushSound(w: World, a: Action)
    requires Sound(w) && QueueSound(w) && a.Transmit? && a.limit >= 16
    ensures Indexed(Step(w, a).value) && QueueSound(Step(w, a).value)
  {
    StepSound(w, a);
    ServedDistinct(w.streams, w.queue, a.offers, 0);
    hide Served, Sound, Distinct, Stuck, PassesOver;
    var w' := Step(w, a).value;
    forall p | 0 <= p < |w'.queue| && w'.queue[p].Some?
      ensures w'.queue[p].value in w'.live && w'.streams[w'.queue[p].value / 2].isScheduled
    {
      FlushedStream(w, a, w'.queue[p].value);
    }
    forall id | id in w'.live && w'.streams[id / 2].httpState == HalfClosed
      ensures w'.streams[id / 2].isScheduled
    {
      FlushedStream(w, a, id);
    }
  }

  /** A stream that the peer ends is half closed, scheduled, and in the queue unless it was scheduled before. */
  lemma EndSchedules(w: World, id: nat, frame: Reception, pending: bool)
    requires Sound(w) && id in w.live && (frame.Data? || frame.Headers?) && frame.endStream
    ensures var r := Step(w, Receive(id, frame, pending));
      && r.Ok? && id in r.value.live
      && r.value.streams[id / 2].httpState == HalfClosed && r.value.streams[id / 2].isScheduled
      && r.value.queue == if w.streams[id / 2].isScheduled then w.queue else w.queue + [Some(id)]
  {
  }

  lemma {:induction false} ServedNotHalfClosed(streams: seq<Snapshot>, queue: seq<Option<nat>>, offers: nat -> Offer,
      turn: nat, k: nat)
    requires AllKnown(|streams|, queue) && k < |streams|
    requires Some(IdOf(k)) in queue || streams[k].httpState != HalfClosed
    ensures Served(streams, queue, offers, turn).0[k].httpState != HalfClosed
    decreases |queue|
  {
    hide AfterTurn, Requeued;
    if queue != [] {
      var rest := queue[1..];
      assert queue == [queue[0]] + rest;
      if queue[0].None? {
        ServedNotHalfClosed(streams, rest, offers, turn, k);
      } else {
        var i := queue[0].value / 2;
        assert Known(|streams|, queue[0].value);
        TurnIs(streams[i], offers(turn));
        ServedNotHalfClosed(streams[i := AfterTurn(streams[i], offers(turn))], rest, offers, turn + 1, k);
      }
    }
  }

  /** A transmission leaves no stream half closed that has a slot; a half-closed one with one slot is closed. */
  lemma FlushCloses(w: World, limit: nat, offers: nat -> Offer, id: nat)
    requires Sound(w) && limit >= 16 && Some(id) in w.queue
    ensures var w' := Step(w, Transmit(limit, offers)).value;
      && Known(|w.streams|, id) && |w.streams| == |w'.streams| && w'.streams[id / 2].httpState != HalfClosed
      && (w.streams[id / 2].httpState == HalfClosed && Distinct(w.queue) ==> w'.streams[id / 2].httpState == Closed)
  {
    var p :| 0 <= p < |w.queue| && w.queue[p] == Some(id);
    assert Known(|w.streams|, id) && id == IdOf(id / 2);
    ServedNotHalfClosed(w.streams, w.queue, offers, 0, id / 2);
    hide Served;
    if Distinct(w.queue) { ServedInTurn(w.streams, w.queue, offers, 0, p, id / 2); }
  }

  /**
   * A turn: a half-closed stream is closed; any other one with something to send is open if there is room; and
   * one with nothing to send, or without a slot, stays as it is.
   */
  lemma TurnStates(w: World, limit: nat, offers: nat -> Offer, k: nat, p: nat)
    requires Sound(w) && Distinct(w.queue) && limit >= 16 && k < |w.streams|
    requires if p < |w.queue| then w.queue[p] == Some(IdOf(k)) else p == |w.queue| && Some(IdOf(k)) !in w.queue
    ensures var w' := Step(w, Transmit(limit, offers)).value;
      && |w'.streams| == |w.streams|
      && var s, s', offer := w.streams[k], w'.streams[k], offers(Taken(w.queue[..p]));
      if p == |w.queue| then s' == s
      else if s.httpState == HalfClosed then s'.httpState == Closed
      else if !offer.pending then s' == s
      else s'.httpState == if offer.room then Open else s.httpState
  {
    if p < |w.queue| {
      ServedInTurn(w.streams, w.queue, offers, 0, p, k);
    } else {
      ServedOthers(w.streams, w.queue, offers, 0, k);
    }
  }

  /** A disconnect closes the registered streams and forgets all of them; too small a limit changes nothing. */
  lemma NothingLeft(w: World, limit: nat, offers: nat -> Offer)
    requires Sound(w)
    ensures var w' := Step(w, Disconnect).value;
      && w'.live == {} && w'.queue == [] && |w'.streams| == |w.streams|
      && forall k :: 0 <= k < |w.streams| ==>
           w'.streams[k].httpState == if IdOf(k) in w.live then Closed else w.streams[k].httpState
    ensures limit < 16 ==> Step(w, Transmit(limit, offers)) == Ok(w)
  {
  }

  /** One received frame. */
  lemma ReceivedSound(w: World, a: Action)
    requires Sound(w) && QueueSound(w) && a.Receive? && a.id in w.live && Step(w, a).Ok?
    ensures var w' := Step(w, a).value;
      && Indexed(w') && QueueSound(w')
      && forall id :: id in w'.live ==> (Stuck(w', id) <==> Stuck(w, id))
  {
    StepSound(w, a);
    hide Sound, Stuck, QueueSound, AfterFrame, Indexed;
    if AfterFrame(w.streams[a.id / 2], a.frame).httpState == Closed {
      FoundAtSlot(w.queue, a.id);
      ErasureSound(w, a.id, Step(w, a).value);
    } else {
      var s := AfterFrame(w.streams[a.id / 2], a.frame);
      FrameKeeps(w.streams[a.id / 2], a.frame);
      CheckSound(w, a.id, s, a.pending, Step(w, a).value);
    }
  }

  lemma FrameKeeps(s: Snapshot, frame: Reception)
    ensures AfterFrame(s, frame).isScheduled == s.isScheduled && AfterFrame(s, frame).id == s.id
  {
  }

  lemma ErasureSound(w: World, id: nat, w': World)
    requires Indexed(w) && Indexed(w') && QueueSound(w) && id in w.live && w'.live == w.live - {id}
    requires |w'.streams| == |w.streams| && w'.queue == Erased(w.queue, SlotOf(w.queue, id))
    requires forall k :: 0 <= k < |w.streams| && k != id / 2 ==> w'.streams[k] == w.streams[k]
    ensures QueueSound(w') && forall x :: x in w'.live ==> (Stuck(w', x) <==> Stuck(w, x))
  {
    OtherSlots(w.queue, SlotOf(w.queue, id), id);
    OtherIds(w, id);
    hide SlotOf, Erased, Distinct;
    forall p | 0 <= p < |w'.queue| && w'.queue[p].Some?
      ensures w'.queue[p].value in w'.live && w'.streams[w'.queue[p].value / 2].isScheduled
    {
      assert w'.queue[p] in w'.queue && Some(w'.queue[p].value) in w.queue;
    }
  }

  /** Streams are kept by their ids. */
  lemma OtherIds(w: World, id: nat)
    requires Indexed(w) && id in w.live
    ensures forall x :: x in w.live && x != id ==> x / 2 != id / 2
  {
    forall x | x in w.live && x != id ensures x / 2 != id / 2 {
      assert Known(|w.streams|, x) && Known(|w.streams|, id);
    }
  }

  lemma CheckSound(w: World, id: nat, s: Snapshot, pending: bool, w': World)
    requires Indexed(w) && Indexed(w') && QueueSound(w) && id in w.live && w'.live == w.live
    requires s.isScheduled == w.streams[id / 2].isScheduled
    requires w'.streams == w.streams[id / 2 := AfterCheck(s, pending)]
    requires w'.queue == if Due(s, pending) then w.queue + [Some(id)] else w.queue
    ensures QueueSound(w') && forall x :: x in w'.live ==> (Stuck(w', x) <==> Stuck(w, x))
  {
    OtherIds(w, id);
    if Due(s, pending) {
      assert w'.queue[|w.queue|] == Some(id);
      assert Some(id) !in w.queue;
      assert forall q :: 0 <= q < |w.queue| ==> w'.queue[q] == w.queue[q];
      forall x | x in w.live && x != id ensures Some(x) in w'.queue <==> Some(x) in w.queue {}
    }
  }

  /** Emptying the slot of a stream keeps those of all others. */
  lemma OtherSlots(queue: seq<Option<nat>>, k: nat, id: nat)
    requires Distinct(queue) && k == SlotOf(queue, id)
    ensures Distinct(Erased(queue, k)) && Some(id) !in Erased(queue, k)
    ensures forall x :: x != id ==> (Some(x) in Erased(queue, k) <==> Some(x) in queue)
  {
    forall x | x != id && Some(x) in queue ensures Some(x) in Erased(queue, k) {
      var p :| 0 <= p < |queue| && queue[p] == Some(x);
      assert Erased(queue, k)[p] == Some(x);
    }
  }

  /**
   * Every action keeps the queue sound. A stream is stuck afterwards if and only if it was before, or was
   * passed over by this transmission.
   */
  lemma StepQueueSound(w: World, a: Action)
    requires Sound(w) && QueueSound(w) && Step(w, a).Ok?
    ensures var w' := Step(w, a).value;
      && Indexed(w') && QueueSound(w')
      && forall id :: id in w'.live ==> (Stuck(w', id) <==> id in w.live && (Stuck(w, id) || PassesOver(w, a, id)))
  {
    match a
    case Receive(id, _, _) => if id in w.live { ReceivedSound(w, a); }
    case Transmit(limit, _) =>
      if limit >= 16 {
        FlushSound(w, a);
        hide Step, QueueSound, Stuck, PassesOver;
        forall id | id in w.live
          ensures Stuck(Step(w, a).value, id) <==> Stuck(w, id) || PassesOver(w, a, id)
        {
          FlushedStream(w, a, id);
        }
      }
    case Send => SentSound(w);
    case Timer(_) =>
    case Disconnect =>
  }

  lemma SentSound(w: World)
    requires Sound(w) && QueueSound(w)
    ensures var w' := AfterSend(w);
      && Indexed(w') && QueueSound(w')
      && forall id :: id in w'.live ==> (Stuck(w', id) <==> id in w.live && Stuck(w, id))
  {
    var w' := AfterSend(w);
    assert w'.queue[|w.queue|] == Some(IdOf(|w.streams|));
    assert forall q :: 0 <= q < |w.queue| ==> w'.queue[q] == w.queue[q];
  }

  // ---------------------------------------------------------------- every run

  /** Action `i` of the run passes the stream over. */
  ghost predicate PassedBy(w: World, actions: seq<Action>, i: nat, id: nat)
    requires Sound(w)
  {
    i < |actions| && Run(w, actions[..i]).Ok? && PassesOver(Run(w, actions[..i]).value, actions[i], id)
  }

  lemma PassedBefore(w: World, actions: seq<Action>, i: nat, id: nat)
    requires Sound(w) && actions != []
    ensures var n := |actions| - 1;
      PassedBy(w, actions, i, id) <==>
        PassedBy(w, actions[..n], i, id) ||
        (i == n && Run(w, actions[..n]).Ok? && PassesOver(Run(w, actions[..n]).value, actions[n], id))
  {
    hide Run, Sound, PassesOver;
    if i < |actions| - 1 { assert actions[..|actions| - 1][..i] == actions[..i]; }
  }

  /** A stream that was passed over had been sent. */
  lemma PassedKnown(w: World, actions: seq<Action>, i: nat, id: nat)
    requires w == START && Sound(w) && PassedBy(w, actions, i, id)
    ensures Known(Sends(actions), id)
  {
    hide Run, Sends;
    RunFires(w, actions[..i]);
    SendsGrow(actions, i);
  }

  /**
   * Over every run: the slots are those of distinct registered streams that are scheduled, and every
   * half-closed stream is scheduled. A registered stream is stuck, scheduled without a slot, if and only if
   * some transmission gave it its turn when it had nothing to send.
   */
  lemma {:induction false} StuckIff(w: World, actions: seq<Action>)
    requires w == START && Sound(w) && Run(w, actions).Ok?
    ensures var now := Run(w, actions).value;
      && QueueSound(now)
      && forall id :: id in now.live ==> (Stuck(now, id) <==> exists i: nat :: PassedBy(w, actions, i, id))
  {
    if actions != [] {
      hide Sound, Step, PassedBy, QueueSound;
      var n := |actions| - 1;
      var before := Run(w, actions[..n]).value;
      StuckIff(w, actions[..n]);
      StepQueueSound(before, actions[n]);
      hide Stuck, Run;
      forall id | id in Run(w, actions).value.live
        ensures Stuck(Run(w, actions).value, id) <==> exists i: nat :: PassedBy(w, actions, i, id)
      {
        StuckStep(w, actions, actions[..n], id, before);
      }
    }
  }

  lemma StuckStep(w: World, actions: seq<Action>, earlier: seq<Action>, id: nat, before: World)
    requires w == START && Sound(w) && actions != [] && earlier == actions[..|actions| - 1]
    requires Run(w, earlier) == Ok(before)
    requires Run(w, actions).Ok? && Sound(before) && id in Run(w, actions).value.live
    requires id in before.live ==>
      (Stuck(before, id) <==> exists i: nat :: PassedBy(w, earlier, i, id))
    requires Stuck(Run(w, actions).value, id) <==>
      id in before.live && (Stuck(before, id) || PassesOver(before, actions[|actions| - 1], id))
    ensures Stuck(Run(w, actions).value, id) <==> exists i: nat :: PassedBy(w, actions, i, id)
  {
    var n := |actions| - 1;
    NewIsUnknown(w, actions, id, before);
    hide Run, Sound, Stuck, PassesOver, PassedBy;
    if Stuck(Run(w, actions).value, id) {
      if PassesOver(before, actions[n], id) {
        PassedBefore(w, actions, n, id);
        assert PassedBy(w, actions, n, id);
      } else {
        var i: nat :| PassedBy(w, earlier, i, id);
        PassedBefore(w, actions, i, id);
        assert PassedBy(w, actions, i, id);
      }
    }
    if i: nat :| PassedBy(w, actions, i, id) {
      PassedBefore(w, actions, i, id);
      if PassedBy(w, earlier, i, id) {
        PassedKnown(w, earlier, i, id);
      } else {
        OverKnown(before, actions[n], id);
      }
    }
  }

  lemma OverKnown(w: World, a: Action, id: nat)
    requires Indexed(w) && PassesOver(w, a, id)
    ensures Known(|w.streams|, id)
  {
  }

  /** A stream that is registered now and was not before has just been sent. */
  lemma NewIsUnknown(w: World, actions: seq<Action>, id: nat, before: World)
    requires w == START && Sound(w) && actions != [] && Run(w, actions[..|actions| - 1]) == Ok(before)
    requires Run(w, actions).Ok? && id in Run(w, actions).value.live
    ensures |before.streams| == Sends(actions[..|actions| - 1])
    ensures id in before.live || !Known(|before.streams|, id)
  {
    RunFires(w, actions[..|actions| - 1]);
  }

  /** Every stream in the queue has something to send when its turn comes. */
  ghost predicate Ready(a: Action) {
    a.Transmit? ==> forall turn: nat :: a.offers(turn).pending
  }

  lemma ReadyPassesNone(w: World, a: Action, id: nat)
    requires Indexed(w) && Ready(a)
    ensures !PassesOver(w, a, id)
  {
  }

  /**
   * After a transmission a registered stream is half closed only if it is stuck. So when streams in the queue
   * always have something to send, every stream that the peer has ended is closed by the next transmission.
   */
  lemma EndedAreClosed(w: World, actions: seq<Action>, id: nat)
    requires w == START && Sound(w) && Run(w, actions).Ok?
    requires actions != [] && Flushes(actions[|actions| - 1]) && id in Run(w, actions).value.live
    ensures var now := Run(w, actions).value;
      && (now.streams[id / 2].httpState == HalfClosed ==> exists i: nat :: PassedBy(w, actions, i, id))
      && ((forall i :: 0 <= i < |actions| ==> Ready(actions[i])) ==> now.streams[id / 2].httpState != HalfClosed)
  {
    var n := |actions| - 1;
    var before, a := Run(w, actions[..n]).value, actions[n];
    StuckIff(w, actions[..n]);
    StuckIff(w, actions);
    assert Run(w, actions) == Step(before, a);
    assert a.Transmit?;
    hide Run, PassedBy, Ready;
    FlushedStream(before, a, id);
    if forall i :: 0 <= i < |actions| ==> Ready(actions[i]) {
      forall i: nat ensures !PassedBy(w, actions, i, id) {
        NeverPassed(w, actions, i, id);
      }
    }
  }

  lemma NeverPassed(w: World, actions: seq<Action>, i: nat, id: nat)
    requires Sound(w) && (i < |actions| ==> Ready(actions[i]))
    ensures !PassedBy(w, actions, i, id)
  {
    hide Run, Ready, PassesOver;
    if i < |actions| && Run(w, actions[..i]).Ok? { ReadyPassesNone(Run(w, actions[..i]).value, actions[i], id); }
  }

  /** The need for it: a stream that is passed over and then ended stays half closed, whatever is transmitted. */
  lemma PassedStaysHalfClosed(w: World, none: nat -> Offer, offers: nat -> Offer)
    requires w == START && Sound(w) && !none(0).pending
    ensures var r := Run(w, [Send, Transmit(16, none), Receive(1, Data(true), false), Transmit(16, offers)]);
      r.Ok? && r.value.live == {1} && r.value.streams[0].httpState == HalfClosed && r.value.queue == []
  {
    hide Sound;
    var nothing: seq<Action> := [];
    RunMore(w, nothing, Send);
    var one := nothing + [Send];
    var w1 := Run(w, one).value;
    assert w1.queue == [Some(1)] && w1.live == {1} && w1.streams == [Snapshot(1, Idle, true, true, 0)];
    RunMore(w, one, Transmit(16, none));
    var two := one + [Transmit(16, none)];
    var w2 := Run(w, two).value;
    assert w1.queue[1..] == [];
    assert w2.queue == [] && w2.live == {1} && w2.streams == w1.streams;
    RunMore(w, two, Receive(1, Data(true), false));
    var three := two + [Receive(1, Data(true), false)];
    var w3 := Run(w, three).value;
    assert w3.queue == [] && w3.live == {1} && w3.streams[0].httpState == HalfClosed;
    RunMore(w, three, Transmit(16, offers));
    assert three + [Transmit(16, offers)] ==
      [Send, Transmit(16, none), Receive(1, Data(true), false), Transmit(16, offers)];
  }
}
