/** The stream objects, the registry that owns them, and the client's use of both. */
module Streams {
  import opened Words
  import opened Outcomes
  import opened StreamRuns

  class Stream {
    const id: nat
    var httpState: HttpState
    var isScheduled: bool
    /** The response handler is still there. */
    var armed: bool
    /** How often the handler was called. */
    ghost var fired: nat

    ghost function ToSnapshot(): Snapshot
      reads this
    {
      Snapshot(id, httpState, isScheduled, armed, fired)
    }

    constructor (id: nat)
      ensures ToSnapshot() == Snapshot(id, Idle, true, true, 0)
    {
      this.id := id;
      httpState, isScheduled, armed, fired := Idle, true, true, 0;
    }

    /** Calls the handler unless it was taken out before. */
    method Finished()
      modifies this
      ensures ToSnapshot() == Finish(old(ToSnapshot())) && !armed
    {
      if armed {
        armed := false;
        fired := fired + 1;
      }
    }

    method Reset()
      modifies this
      ensures ToSnapshot() == AfterReset(old(ToSnapshot()))
    {
      httpState := Closed;
      Finished();
    }

    /** A received frame: END_STREAM completes the request, and a reset closes the stream. */
    method OnReceive(frame: Reception)
      modifies this
      ensures ToSnapshot() == AfterFrame(old(ToSnapshot()), frame)
    {
      match frame
      case Data(endStream) =>
        if endStream {
          httpState := HalfClosed;
          Finished();
        }
      case Headers(endStream) =>
        if endStream {
          httpState := HalfClosed;
          Finished();
        }
      case Continuation(endStream) =>
        if endStream {
          Finished();
        }
      case ResetStream =>
        httpState := Closed;
        Finished();
      case WindowUpdate =>
    }

    /** Schedules the stream if it is not scheduled and has something to send. */
    method CheckTxData(pending: bool) returns (due: bool)
      modifies this
      ensures due == Due(old(ToSnapshot()), pending) && ToSnapshot() == AfterCheck(old(ToSnapshot()), pending)
    {
      if !isScheduled && (httpState == HalfClosed || pending) {
        isScheduled := true;
        return true;
      }
      return false;
    }

    /** Sends: a half-closed stream is closed, any other one is open afterwards if there is room. */
    method GetTxData(room: bool)
      modifies this
      ensures ToSnapshot() == AfterTx(old(ToSnapshot()), room)
    {
      isScheduled := false;
      if httpState == HalfClosed {
        httpState := Closed;
        return;
      }
      if !room {
        return;
      }
      httpState := Open;
    }
  }

  /** One stream's turn to send; it is due again if there is more. */
  method TakeTurn(s: Stream, offer: Offer) returns (due: bool)
    modifies s
    ensures s.ToSnapshot() == AfterTurn(old(s.ToSnapshot()), offer) && due == Requeued(old(s.ToSnapshot()), offer)
  {
    due := false;
    if s.httpState == HalfClosed || offer.pending {
      s.GetTxData(offer.room);
      due := s.CheckTxData(offer.later);
    }
  }

  ghost function Snapshots(streams: seq<Stream>): (ss: seq<Snapshot>)
    reads streams
    ensures |ss| == |streams| && forall k :: 0 <= k < |streams| ==> ss[k] == streams[k].ToSnapshot()
  {
    seq(|streams|, k requires 0 <= k < |streams| reads streams => streams[k].ToSnapshot())
  }

  /** The ids in the slots of a queue. */
  function Ids(queue: seq<Option<Stream>>): (ids: seq<Option<nat>>)
    ensures |ids| == |queue|
    ensures forall i :: 0 <= i < |queue| ==> ids[i] == if queue[i].Some? then Some(queue[i].value.id) else None
  {
    seq(|queue|, i requires 0 <= i < |queue| => if queue[i].Some? then Some(queue[i].value.id) else None)
  }

  ghost predicate InPlace(added: seq<Stream>, slot: Option<Stream>) {
    slot.Some? ==> Known(|added|, slot.value.id) && slot.value == added[slot.value.id / 2]
  }

  class Registry {
    var streamMap: map<nat, Stream>
    /** Slots of erased streams are null. */
    var queue: seq<Option<Stream>>
    /** Every stream ever added; their timers may fire at any time. */
    var added: seq<Stream>

    ghost function ToWorld(): World
      reads this, added
    {
      World(Snapshots(added), streamMap.Keys, Ids(queue))
    }

    /** Streams are found by their ids, and map and queue refer to no others. */
    ghost predicate Linked()
      reads this, added
    {
      && (forall k :: 0 <= k < |added| ==> added[k].id == IdOf(k))
      && (forall id :: id in streamMap ==> Known(|added|, id) && streamMap[id] == added[id / 2])
      && (forall i :: 0 <= i < |queue| ==> InPlace(added, queue[i]))
    }

    ghost predicate Valid()
      reads this, added
    {
      Linked() && Sound(ToWorld())
    }

    /** No request is lost: a stream that has not completed is still in the map. */
    ghost predicate Tracked()
      reads this, added
    {
      forall s :: s in added ==> s.fired == 1 || (s.id in streamMap && streamMap[s.id] == s)
    }

    constructor ()
      ensures Valid() && ToWorld() == START && added == []
    {
      streamMap, queue, added := map[], [], [];
    }

    /** The map keeps an earlier stream of the same id, so nothing is lost exactly when there is none. */
    method AddStream(s: Stream)
      requires s.fired == 0 && s !in added && forall id :: id in streamMap ==> streamMap[id] in added
      modifies this
      ensures streamMap == if s.id in old(streamMap) then old(streamMap) else old(streamMap)[s.id := s]
      ensures queue == old(queue) + [Some(s)] && added == old(added) + [s]
      ensures old(Tracked()) ==> (Tracked() <==> s.id !in old(streamMap))
      ensures old(Linked()) && s.id == IdOf(|old(added)|) ==> Linked() && s.id !in old(streamMap)
    {
      if s.id !in streamMap {
        streamMap := streamMap[s.id := s];
      }
      queue := queue + [Some(s)];
      added := added + [s];
      assert s in added;
      assert forall q :: q in old(added) ==> q in added;
    }

    /** A stream with the next id is registered and queued. */
    method Register(s: Stream)
      requires Linked() && s.fired == 0 && s !in added && s.id == IdOf(|added|)
      modifies this
      ensures Linked() && added == old(added) + [s]
      ensures Snapshots(added) == old(Snapshots(added)) + [s.ToSnapshot()]
      ensures streamMap.Keys == old(streamMap.Keys) + {s.id} && Ids(queue) == old(Ids(queue)) + [Some(s.id)]
    {
      MapInAdded(this);
      hide Tracked;
      AddStream(s);
    }

    /** Empties the stream's slot and takes it out of the map, unless an empty slot is met first. */
    method Erase(id: nat) returns (r: Outcome<()>)
      requires Linked()
      modifies this
      ensures Linked() && added == old(added)
      ensures var slot := FindSlot(old(Ids(queue)), id);
        if slot.Ok? then
          && r == Ok(()) && streamMap == old(streamMap) - {id}
          && Ids(queue) == Erased(old(Ids(queue)), slot.value)
        else r == Undefined && unchanged(this)
    {
      hide FindSlot;
      var slot := FindSlot(Ids(queue), id);
      if !slot.Ok? {
        return Undefined;
      }
      if slot.value < |queue| {
        queue := queue[slot.value := None];
      }
      streamMap := streamMap - {id};
      return Ok(());
    }

    /** The stream of the id takes the frame. */
    method Deliver(id: nat, frame: Reception) returns (s: Stream)
      requires Linked() && id in streamMap
      modifies added
      ensures Linked() && s == streamMap[id]
      ensures Snapshots(added) == old(Snapshots(added))[id / 2 := AfterFrame(old(Snapshots(added))[id / 2], frame)]
    {
      s := streamMap[id];
      s.OnReceive(frame);
    }

    /** The stream is queued if it has something to send and is not queued yet. */
    method Schedule(s: Stream, pending: bool)
      requires Linked() && s in added
      modifies this`queue, s
      ensures Linked()
      ensures Snapshots(added) == old(Snapshots(added))[s.id / 2 := AfterCheck(old(s.ToSnapshot()), pending)]
      ensures Ids(queue) == old(Ids(queue)) + if Due(old(s.ToSnapshot()), pending) then [Some(s.id)] else []
    {
      var due := s.CheckTxData(pending);
      if due {
        queue := queue + [Some(s)];
      }
    }

    /** A received frame: its stream, if it is known, takes it; a closed stream is erased, another one scheduled. */
    method InvokeForStream(id: nat, frame: Reception, pending: bool) returns (r: Outcome<bool>)
      requires Valid()
      modifies this, added
      ensures added == old(added)
      ensures var w := AfterReceive(old(ToWorld()), id, frame, pending);
        if w.Ok? then r == Ok(id in old(streamMap)) && Valid() && ToWorld() == w.value else r == Undefined
    {
      ghost var w := ToWorld();
      hide Sound, AfterFrame, AfterCheck, Due, FindSlot, AfterReceive, Linked;
      if id !in streamMap {
        UnknownFrame(w, id, frame, pending);
        return Ok(false);
      }
      FrameOutcome(w, id, frame, pending);
      var s := Deliver(id, frame);
      if s.httpState == Closed {
        var erased := Erase(id);
        if !erased.Ok? {
          return erased.PropagateFailure();
        }
      } else {
        Schedule(s, pending);
      }
      return Ok(true);
    }

    /** Takes the next stream off the queue, past empty slots. */
    method ScheduledStream() returns (s: Option<Stream>)
      requires Linked()
      modifies this`queue
      ensures Linked()
      ensures var k := FirstTaken(old(Ids(queue)));
        if k == |old(queue)| then s == None && queue == []
        else s == old(queue)[k] && s.Some? && queue == old(queue)[k + 1..]
    {
      ghost var k: nat := 0;
      ghost var first := FirstTaken(Ids(queue));
      while queue != []
        invariant Linked() && k <= first <= |old(queue)| && queue == old(queue)[k..]
        decreases |queue|
      {
        s := queue[0];
        queue := queue[1..];
        if s.Some? {
          return;
        }
        k := k + 1;
      }
      return None;
    }

    /** The next stream in the queue, if any, has its turn. */
    method ServeNext(offer: Offer) returns (next: Option<Stream>, due: bool)
      requires Linked()
      modifies this`queue, added
      ensures Linked() && InPlace(added, next) && KnownIds(Snapshots(added), Ids(queue))
      ensures var ids, before := old(Ids(queue)), old(Snapshots(added));
        var k := FirstTaken(ids);
        if k == |ids| then next == None && Snapshots(added) == before && queue == []
        else
          && next.Some? && ids[k] == Some(next.value.id) && Ids(queue) == ids[k + 1..]
          && var i := next.value.id / 2;
          Snapshots(added) == before[i := AfterTurn(before[i], offer)] && due == Requeued(before[i], offer)
    {
      due := false;
      next := ScheduledStream();
      if next.Some? {
        due := TakeTurn(next.value, offer);
      }
    }

    /** The transmit loop; what streams have to send, and room for it, is up to the environment. */
    method GetData(limit: nat, offers: nat -> Offer)
      requires Valid()
      modifies this`queue, added
      ensures Valid() && ToWorld() == AfterTransmit(old(ToWorld()), limit, offers)
    {
      if limit < 16 {
        return;
      }
      TransmitOutcome(ToWorld(), limit, offers);
      hide Sound, Served, AfterTransmit, Linked;
      var nextQueue := Serve(offers);
      Requeue(nextQueue);
    }

    method Requeue(nextQueue: seq<Option<Stream>>)
      requires Linked() && queue == [] && forall i :: 0 <= i < |nextQueue| ==> InPlace(added, nextQueue[i])
      modifies this`queue
      ensures Linked() && queue == nextQueue
    {
      queue := queue + nextQueue;
    }

    method Serve(offers: nat -> Offer) returns (nextQueue: seq<Option<Stream>>)
      requires Linked() && KnownIds(Snapshots(added), Ids(queue))
      modifies this`queue, added
      ensures Linked() && forall i :: 0 <= i < |nextQueue| ==> InPlace(added, nextQueue[i])
      ensures (Snapshots(added), Ids(nextQueue)) == Served(old(Snapshots(added)), old(Ids(queue)), offers, 0)
      ensures queue == []
    {
      ghost var goal := Served(Snapshots(added), Ids(queue), offers, 0);
      nextQueue := [];
      var turn: nat := 0;
      assert Ids(nextQueue) + goal.1 == goal.1;
      hide Linked, AfterTurn, Requeued, Served, FirstTaken, OnTheWay, InPlace;
      while true
        invariant Linked() && forall i :: 0 <= i < |nextQueue| ==> InPlace(added, nextQueue[i])
        invariant OnTheWay(goal, Ids(nextQueue), Snapshots(added), Ids(queue), offers, turn)
        decreases |queue|
      {
        OneTurn(goal, Ids(nextQueue), Snapshots(added), Ids(queue), offers, turn);
        var next, due := ServeNext(offers(turn));
        if next.None? {
          break;
        }
        nextQueue := Appended(nextQueue, next, due);
        turn := turn + 1;
      }
    }

    /** An expired timer completes its stream, erased or not. */
    method OnTimer(k: nat)
      requires Valid() && k < |added|
      modifies added[k]
      ensures Valid()
      ensures ToWorld() == old(ToWorld()).(streams := old(ToWorld()).streams[k := Finish(old(ToWorld()).streams[k])])
    {
      ghost var w := ToWorld();
      StepSound(w, Timer(k));
      hide Sound, Finish;
      added[k].Finished();
      assert Snapshots(added) == w.streams[k := Finish(w.streams[k])];
    }

    /** The connection is gone: every stream in the map is closed and completed, and all are forgotten. */
    method Reset()
      requires Valid()
      modifies this, added
      ensures Valid() && added == old(added) && ToWorld() == AfterDisconnect(old(ToWorld()))
    {
      ghost var w := ToWorld();
      hide Sound, AfterDisconnect, ResetExcept, Linked;
      ClearQueue();
      ResetAll();
      ClearMap();
      DisconnectOutcome(w, Snapshots(added));
      assert Ids(queue) == [] && streamMap.Keys == {};
    }

    method ClearQueue()
      requires Linked()
      modifies this`queue
      ensures Linked() && queue == []
    {
      queue := [];
    }

    method ClearMap()
      requires Linked()
      modifies this`streamMap
      ensures Linked() && streamMap == map[]
    {
      streamMap := map[];
    }

    method ResetOne(id: nat)
      requires Linked() && id in streamMap
      modifies added
      ensures Linked() && Snapshots(added) == old(Snapshots(added))[id / 2 := AfterReset(old(Snapshots(added))[id / 2])]
    {
      hide AfterReset;
      streamMap[id].Reset();
    }

    method ResetAll()
      requires Linked()
      modifies added
      ensures Linked() && ResetExcept(old(Snapshots(added)), Snapshots(added), streamMap.Keys, {})
    {
      hide AfterReset, Linked;
      var todo := streamMap.Keys;
      while todo != {}
        invariant Linked() && todo <= streamMap.Keys
        invariant ResetExcept(old(Snapshots(added)), Snapshots(added), streamMap.Keys, todo)
        decreases |todo|
      {
        var id :| id in todo;
        IdInPlace(id);
        ResetOne(id);
        todo := todo - {id};
      }
    }

    lemma IdInPlace(id: nat)
      requires Linked() && id in streamMap
      ensures id == IdOf(id / 2) && id / 2 < |added|
    {
    }
  }

  /** The streams in the map, but for those still to do, have been reset, and no others. */
  ghost predicate ResetExcept(was: seq<Snapshot>, now: seq<Snapshot>, live: set<nat>, todo: set<nat>) {
    && |now| == |was|
    && (forall k :: 0 <= k < |was| ==> now[k] == if IdOf(k) in live - todo then AfterReset(was[k]) else was[k])
  }

  lemma DisconnectOutcome(w: World, now: seq<Snapshot>)
    requires Sound(w) && ResetExcept(w.streams, now, w.live, {})
    ensures AfterDisconnect(w) == World(now, {}, []) && Sound(AfterDisconnect(w))
  {
    hide AfterReset;
    StepSound(w, Disconnect);
    assert AfterDisconnect(w).streams == now;
  }

  method Appended(queue: seq<Option<Stream>>, next: Option<Stream>, due: bool) returns (queue': seq<Option<Stream>>)
    requires next.Some?
    ensures queue' == if due then queue + [next] else queue
    ensures Ids(queue') == Ids(queue) + if due then [Some(next.value.id)] else []
  {
    queue' := queue;
    if due {
      queue' := queue + [next];
    }
  }

  /** What is still to be served leads to the goal. */
  ghost predicate OnTheWay(goal: (seq<Snapshot>, seq<Option<nat>>), next: seq<Option<nat>>,
      streams: seq<Snapshot>, ids: seq<Option<nat>>, offers: nat -> Offer, turn: nat) {
    && KnownIds(streams, ids)
    && var now := Served(streams, ids, offers, turn);
    goal.0 == now.0 && goal.1 == next + now.1
  }

  lemma OneTurn(goal: (seq<Snapshot>, seq<Option<nat>>), next: seq<Option<nat>>,
      streams: seq<Snapshot>, ids: seq<Option<nat>>, offers: nat -> Offer, turn: nat)
    requires OnTheWay(goal, next, streams, ids, offers, turn)
    ensures var k := FirstTaken(ids);
      if k == |ids| then goal == (streams, next)
      else
        && Known(|streams|, ids[k].value)
        && var id := ids[k].value;
        var s := streams[id / 2];
        OnTheWay(goal, next + (if Requeued(s, offers(turn)) then [Some(id)] else []),
          streams[id / 2 := AfterTurn(s, offers(turn))], ids[k + 1..], offers, turn + 1)
  {
    var k := FirstTaken(ids);
    NextTurn(streams, ids, offers, turn);
    if k == |ids| {
      assert next + [] == next;
    } else {
      var id := ids[k].value;
      var s := streams[id / 2];
      var later := Served(streams[id / 2 := AfterTurn(s, offers(turn))], ids[k + 1..], offers, turn + 1);
      ConcatAssoc(next, if Requeued(s, offers(turn)) then [Some(id)] else [], later.1);
    }
  }

  lemma TransmitOutcome(w: World, limit: nat, offers: nat -> Offer)
    requires Sound(w) && limit >= 16
    ensures KnownIds(w.streams, w.queue) && Sound(AfterTransmit(w, limit, offers))
    ensures var served := Served(w.streams, w.queue, offers, 0);
      AfterTransmit(w, limit, offers) == World(served.0, w.live, served.1)
  {
    StepSound(w, Transmit(limit, offers));
  }

  ghost predicate KnownIds(streams: seq<Snapshot>, ids: seq<Option<nat>>) {
    forall i :: 0 <= i < |ids| && ids[i].Some? ==> Known(|streams|, ids[i].value)
  }

  /** The next stream in the queue has its turn, and the loop goes on behind it. */
  lemma NextTurn(streams: seq<Snapshot>, ids: seq<Option<nat>>, offers: nat -> Offer, turn: nat)
    requires KnownIds(streams, ids)
    ensures var k := FirstTaken(ids);
      if k == |ids| then Served(streams, ids, offers, turn) == (streams, [])
      else
        && Known(|streams|, ids[k].value) && KnownIds(streams, ids[k + 1..])
        && var id := ids[k].value;
        var s := streams[id / 2];
        var later := Served(streams[id / 2 := AfterTurn(s, offers(turn))], ids[k + 1..], offers, turn + 1);
        Served(streams, ids, offers, turn)
          == (later.0, (if Requeued(s, offers(turn)) then [Some(id)] else []) + later.1)
  {
    var k := FirstTaken(ids);
    ServedSkips(streams, ids, offers, turn);
    assert k < |ids| ==> ids[k..][0] == ids[k] && ids[k..][1..] == ids[k + 1..];
  }

  lemma UnknownFrame(w: World, id: nat, frame: Reception, pending: bool)
    requires Sound(w) && id !in w.live
    ensures AfterReceive(w, id, frame, pending) == Ok(w)
  {
  }

  /** What a frame does to a registered stream, case by case. */
  lemma FrameOutcome(w: World, id: nat, frame: Reception, pending: bool)
    requires Sound(w) && id in w.live
    ensures Known(|w.streams|, id) && id == IdOf(id / 2)
    ensures var k := id / 2;
      var s := AfterFrame(w.streams[k], frame);
      var slot := FindSlot(w.queue, id);
      AfterReceive(w, id, frame, pending) ==
        if s.httpState == Closed then
          if slot.Ok? then Ok(World(w.streams[k := s], w.live - {id}, Erased(w.queue, slot.value))) else Undefined
        else
          var queue := w.queue + if Due(s, pending) then [Some(id)] else [];
          Ok(World(w.streams[k := s][k := AfterCheck(s, pending)], w.live, queue))
    ensures AfterReceive(w, id, frame, pending).Ok? ==> Sound(AfterReceive(w, id, frame, pending).value)
  {
    assert Known(|w.streams|, id);
    var k := id / 2;
    var s := AfterFrame(w.streams[k], frame);
    assert w.streams[k := s][k := AfterCheck(s, pending)] == w.streams[k := AfterCheck(s, pending)];
    assert w.queue + [] == w.queue;
    if AfterReceive(w, id, frame, pending).Ok? { ReceiveSound(w, id, frame, pending); }
  }

  // ---------------------------------------------------------------- the client

  /** The id that the n-th stream gets: odd numbers in 32 bits. */
  function StreamId(n: nat): nat {
    Wrap32(n * 2 - 1)
  }

  /** Ids repeat after 2^31 streams, and not before. */
  lemma StreamIdsRepeat(m: nat, n: nat)
    requires 1 <= m < n < TWO_32
    ensures StreamId(m) == StreamId(n) <==> n == m + TWO_32 / 2
  {
    assert StreamId(m) == (if m * 2 - 1 < TWO_32 then m * 2 - 1 else m * 2 - 1 - TWO_32);
    assert StreamId(n) == (if n * 2 - 1 < TWO_32 then n * 2 - 1 else n * 2 - 1 - TWO_32);
  }

  const MAX_STREAMS := TWO_32 / 2

  class Client {
    const registry: Registry
    var clientIdOrder: nat

    ghost predicate Valid()
      reads this, registry, registry.added
    {
      registry.Valid() && clientIdOrder == |registry.added| + 1
    }

    ghost function ToWorld(): World
      reads this, registry, registry.added
    {
      registry.ToWorld()
    }

    constructor ()
      ensures Valid() && ToWorld() == START && registry.added == [] && fresh(registry)
    {
      registry := new Registry();
      clientIdOrder := 1;
    }

    method NextStreamId() returns (id: nat)
      requires 1 <= clientIdOrder <= MAX_STREAMS
      modifies this`clientIdOrder
      ensures id == StreamId(old(clientIdOrder)) == IdOf(old(clientIdOrder) - 1)
      ensures clientIdOrder == old(clientIdOrder) + 1
    {
      var order := clientIdOrder;
      clientIdOrder := Wrap32(order + 1);
      id := StreamId(order);
    }

    /** A request becomes one more stream, with an id that no other one has. */
    method InitiateSend()
      requires Valid() && |registry.added| < MAX_STREAMS
      modifies this, registry
      ensures Valid() && ToWorld() == AfterSend(old(ToWorld()))
      ensures |registry.added| == |old(registry.added)| + 1 && old(registry.added) < registry.added
      ensures fresh(registry.added[|old(registry.added)|])
    {
      StepSound(ToWorld(), Send);
      hide Sound, Registry.Linked;
      var id := NextStreamId();
      var s := new Stream(id);
      registry.Register(s);
    }

    /** One action does what the state machine says, and is undefined exactly when that is. */
    method Perform(action: Action) returns (defined: bool)
      requires Valid() && (action.Send? ==> |registry.added| < MAX_STREAMS)
      modifies this, registry, registry.added
      ensures var r := Step(old(ToWorld()), action);
        defined == r.Ok? && (defined ==> Valid() && ToWorld() == r.value)
      ensures old(registry.added) <= registry.added
      ensures forall s :: s in registry.added ==> s in old(registry.added) || fresh(s)
    {
      hide Sound, AfterSend, AfterReceive, AfterTransmit, AfterDisconnect, Registry.Linked;
      defined := true;
      match action
      case Send => InitiateSend();
      case Receive(id, frame, pending) =>
        var r := registry.InvokeForStream(id, frame, pending);
        defined := r.Ok?;
      case Timer(k) =>
        if k < |registry.added| {
          registry.OnTimer(k);
        }
      case Transmit(limit, offers) => registry.GetData(limit, offers);
      case Disconnect => registry.Reset();
    }

    /**
     * Every interleaving: all actions are performed as the state machine says, up to the first one that is
     * undefined, if there is one.
     */
    method Run(actions: seq<Action>) returns (done: nat)
      requires Valid() && |registry.added| + Sends(actions) <= MAX_STREAMS
      modifies this, registry, registry.added
      ensures done <= |actions|
      ensures var r := StreamRuns.Run(old(ToWorld()), actions[..done]);
        && r.Ok?
        && (done == |actions| ==> Valid() && ToWorld() == r.value)
        && (done < |actions| ==> Step(r.value, actions[done]) == Undefined)
    {
      hide Sound, Step, StreamRuns.Run, Registry.Linked;
      ghost var w := ToWorld();
      done := 0;
      RunNothing(w, actions);
      while done < |actions|
        invariant done <= |actions| && Valid()
        invariant StreamRuns.Run(w, actions[..done]) == Ok(ToWorld())
        invariant |registry.added| == |old(registry.added)| + Sends(actions[..done])
        invariant forall i :: 0 <= i < |registry.added| ==>
          registry.added[i] in old(registry.added) || fresh(registry.added[i])
      {
        ghost var before := registry.added;
        RunStep(w, actions, done);
        var defined := Perform(actions[done]);
        if !defined {
          return;
        }
        forall i | 0 <= i < |registry.added|
          ensures registry.added[i] in old(registry.added) || fresh(registry.added[i])
        {
          if registry.added[i] in before {
            var j :| 0 <= j < |before| && before[j] == registry.added[i];
          }
        }
        done := done + 1;
      }
    }
  }

  lemma MapInAdded(registry: Registry)
    requires registry.Linked()
    ensures forall id :: id in registry.streamMap ==> registry.streamMap[id] in registry.added
  {
  }

  lemma RunNothing(w: World, actions: seq<Action>)
    requires Sound(w)
    ensures StreamRuns.Run(w, actions[..0]) == Ok(w) && Sends(actions[..0]) == 0
  {
  }

  lemma RunStep(w: World, actions: seq<Action>, done: nat)
    requires Sound(w) && done < |actions| && StreamRuns.Run(w, actions[..done]).Ok?
    ensures var now := StreamRuns.Run(w, actions[..done]).value;
      var r := Step(now, actions[done]);
      && StreamRuns.Run(w, actions[..done + 1]) == r && (r.Ok? || r == Undefined)
      && (r.Ok? ==> |r.value.streams| == |now.streams| + if actions[done].Send? then 1 else 0)
    ensures Sends(actions[..done + 1])
      == (Sends(actions[..done]) + if actions[done].Send? then 1 else 0) <= Sends(actions)
  {
    assert actions[..done + 1] == actions[..done] + [actions[done]];
    var now := StreamRuns.Run(w, actions[..done]).value;
    RunMore(w, actions[..done], actions[done]);
    StepUndefinedIff(now, actions[done]);
    if Step(now, actions[done]).Ok? { StepSound(now, actions[done]); }
    SendsGrow(actions, done + 1);
  }
}
