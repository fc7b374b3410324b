/** Splitting a request body into DATA frames. */
module Bodies {
  import opened Words
  import opened Outcomes
  import opened Buffers
  import opened Frames

  /** The largest frame size that the protocol allows; the length field of a frame has 24 bits. */
  const MAX_LIMIT := 0xffffff

  /** A DATA frame: its payload, and whether it ends the stream. */
  datatype DataFrame = DataFrame(payload: seq<Byte>, endStream: bool)

  /** What is left to send: the slices, how much of the first one is gone, and the size that the body had. */
  datatype Body = Body(slices: seq<seq<Byte>>, offset: nat, size: nat)

  function Flatten(slices: seq<seq<Byte>>): seq<Byte> {
    if slices == [] then [] else slices[0] + Flatten(slices[1..])
  }

  /** The bytes taken and what is left. */
  datatype Taken = Taken(bytes: seq<Byte>, slices: seq<seq<Byte>>, offset: nat)

  /** The copy loop: it looks at the first slice before it tests whether anything is to be copied. */
  function Take(slices: seq<seq<Byte>>, offset: nat, n: nat): Outcome<Taken>
    decreases |slices|
  {
    if slices == [] || offset > |slices[0]| then Undefined
    else
      var toCopy := Min(n, |slices[0]| - offset);
      var bytes := slices[0][offset..offset + toCopy];
      var done := offset + toCopy == |slices[0]|;
      var slices' := if done then slices[1..] else slices;
      var offset' := if done then 0 else offset + toCopy;
      if n == toCopy then Ok(Taken(bytes, slices', offset'))
      else
        var later :- Take(slices', offset', n - toCopy);
        Ok(later.(bytes := bytes + later.bytes))
  }

  /** One call: the frame, and what is left. Sizes are 64 bits wide. */
  function Prepare(b: Body, limit: nat): Outcome<(DataFrame, Body)> {
    var leftSize := Wrap64(b.size - b.offset);
    var payloadSize := Min(Wrap64(limit - HEADER_SIZE), leftSize);
    var taken :- Take(b.slices, b.offset, payloadSize);
    Ok((DataFrame(taken.bytes, payloadSize == leftSize), Body(taken.slices, taken.offset, b.size)))
  }

  /** Calls with these limits, one after the other. */
  function SendBody(b: Body, limits: seq<nat>): Outcome<seq<DataFrame>>
    decreases |limits|
  {
    if limits == [] then Ok([])
    else
      var sent :- Prepare(b, limits[0]);
      var later :- SendBody(sent.1, limits[1..]);
      Ok([sent.0] + later)
  }

  /** Slices with at least one byte, of which the first is not yet used up. */
  ghost predicate Sliced(slices: seq<seq<Byte>>, offset: nat) {
    && (forall i :: 0 <= i < |slices| ==> slices[i] != [])
    && (if slices == [] then offset == 0 else offset < |slices[0]|)
    && offset <= |Flatten(slices)|
  }

  /** The right bytes were taken and the right bytes are left; a slice that is used up resets the offset. */
  ghost predicate TookNext(slices: seq<seq<Byte>>, offset: nat, n: nat, taken: Taken)
    requires Sliced(slices, offset) && slices != []
  {
    var left := Flatten(slices)[offset..];
    && n <= |left| && Sliced(taken.slices, taken.offset)
    && taken.bytes == left[..n] && Flatten(taken.slices)[taken.offset..] == left[n..]
    && (if offset + n < |slices[0]| then taken.offset == offset + n && taken.slices == slices
      else taken.offset <= offset + n - |slices[0]|)
  }

  /** The loop copies the next bytes, however many slices they are in, if there are enough, and fails otherwise. */
  lemma {:induction false} TakeGives(slices: seq<seq<Byte>>, offset: nat, n: nat)
    requires Sliced(slices, offset) && slices != []
    ensures var r := Take(slices, offset, n);
      if n <= |Flatten(slices)| - offset then r.Ok? && TookNext(slices, offset, n, r.value) else r == Undefined
    decreases |slices|
  {
    if offset + n < |slices[0]| {
      TakeWithin(slices, offset, n);
    } else {
      hide TookNext, Take;
      var rest := slices[1..];
      var k := |slices[0]| - offset;
      TakeFirst(slices, offset, n);
      RestSliced(slices, offset);
      if n > k {
        if rest == [] {
          TakeNothing(rest, n - k);
        } else {
          TakeGives(rest, 0, n - k);
          var r := Take(rest, 0, n - k);
          if r.Ok? { TookBoth(slices, offset, n, r.value); }
        }
      } else {
        TookFirst(slices, offset, n);
      }
    }
  }

  lemma RestSliced(slices: seq<seq<Byte>>, offset: nat)
    requires Sliced(slices, offset) && slices != []
    ensures Sliced(slices[1..], 0) && |Flatten(slices)| == |slices[0]| + |Flatten(slices[1..])|
  {
    var rest := slices[1..];
    assert rest != [] ==> rest[0] == slices[1];
  }

  lemma TakeNothing(slices: seq<seq<Byte>>, n: nat)
    requires slices == []
    ensures Take(slices, 0, n) == Undefined && Flatten(slices) == []
  {
  }

  lemma TakeWithin(slices: seq<seq<Byte>>, offset: nat, n: nat)
    requires Sliced(slices, offset) && slices != [] && offset + n < |slices[0]|
    ensures var r := Take(slices, offset, n);
      r.Ok? && TookNext(slices, offset, n, r.value) && offset + n <= |Flatten(slices)|
  {
    var all := Flatten(slices);
    assert all == slices[0] + Flatten(slices[1..]);
    assert all[offset..][..n] == slices[0][offset..offset + n];
    assert all[offset..][n..] == all[offset + n..];
  }

  /** One round that uses up the first slice. */
  lemma TakeFirst(slices: seq<seq<Byte>>, offset: nat, n: nat)
    requires Sliced(slices, offset) && slices != [] && offset + n >= |slices[0]|
    ensures var k := |slices[0]| - offset;
      var head := slices[0][offset..];
      Take(slices, offset, n) == if n == k then Ok(Taken(head, slices[1..], 0))
        else var later := Take(slices[1..], 0, n - k);
          if later.Ok? then Ok(later.value.(bytes := head + later.value.bytes)) else later
  {
    assert slices[0][offset..|slices[0]|] == slices[0][offset..];
  }

  lemma TookFirst(slices: seq<seq<Byte>>, offset: nat, n: nat)
    requires Sliced(slices, offset) && slices != [] && offset + n == |slices[0]|
    ensures TookNext(slices, offset, n, Taken(slices[0][offset..], slices[1..], 0))
    ensures n <= |Flatten(slices)| - offset
  {
    RestSliced(slices, offset);
    FirstThen(slices[0], Flatten(slices[1..]), offset, n);
    assert Flatten(slices[1..])[..0] == [];
  }

  lemma TookBoth(slices: seq<seq<Byte>>, offset: nat, n: nat, later: Taken)
    requires Sliced(slices, offset) && |slices| > 1 && offset + n > |slices[0]|
    requires Sliced(slices[1..], 0) && TookNext(slices[1..], 0, n - (|slices[0]| - offset), later)
    ensures TookNext(slices, offset, n, later.(bytes := slices[0][offset..] + later.bytes))
    ensures n <= |Flatten(slices)| - offset
  {
    var rest := Flatten(slices[1..]);
    RestSliced(slices, offset);
    FirstThen(slices[0], rest, offset, n);
    assert rest[0..] == rest;
  }

  lemma FirstThen<T>(a: seq<T>, b: seq<T>, offset: nat, n: nat)
    requires offset <= |a| && n >= |a| - offset
    ensures n <= |a| - offset + |b| ==> (a + b)[offset..][..n] == a[offset..] + b[..n - (|a| - offset)]
    ensures n <= |a| - offset + |b| ==> (a + b)[offset..][n..] == b[n - (|a| - offset)..]
  {
  }

  // ---------------------------------------------------------------- whole bodies

  /** Slices of the body are left, and nothing else. */
  ghost predicate Valid(b: Body) {
    Sliced(b.slices, b.offset) && |Flatten(b.slices)| <= b.size < TWO_64
  }

  ghost function Left(b: Body): seq<Byte>
    requires Valid(b)
  {
    Flatten(b.slices)[b.offset..]
  }

  /** Some slice has been used up, so that the size that the body had no longer fits the offset. */
  ghost predicate Late(b: Body) {
    |Flatten(b.slices)| < b.size
  }

  lemma PrepareGives(b: Body, limit: nat)
    requires Valid(b) && b.slices != [] && HEADER_SIZE < limit < TWO_64
    ensures var p := Min(limit - HEADER_SIZE, b.size - b.offset);
      var r := Prepare(b, limit);
      if p <= |Left(b)| then
        && r.Ok? && r.value.0.payload == Left(b)[..p] && (r.value.0.endStream <==> p == b.size - b.offset)
        && Valid(r.value.1) && Left(r.value.1) == Left(b)[p..] && r.value.1.size == b.size
        && (if b.offset + p < |b.slices[0]| then r.value.1 == b.(offset := b.offset + p) else Late(r.value.1))
      else r == Undefined
  {
    hide Take;
    var p := Min(limit - HEADER_SIZE, b.size - b.offset);
    TakeGives(b.slices, b.offset, p);
  }

  predicate NoneEnds(frames: seq<DataFrame>) {
    forall i :: 0 <= i < |frames| ==> !frames[i].endStream
  }

  /** Once a slice has been used up without the rest, no frame ends the stream any more. */
  lemma {:induction false} LateNeverEnds(b: Body, limits: seq<nat>)
    requires Valid(b) && Late(b) && forall i :: 0 <= i < |limits| ==> HEADER_SIZE < limits[i] < TWO_64
    ensures SendBody(b, limits).Ok? ==> NoneEnds(SendBody(b, limits).value)
    decreases |limits|
  {
    if limits != [] {
      hide Take;
      if b.slices == [] {
        TakeNothing(b.slices, Min(Wrap64(limits[0] - HEADER_SIZE), Wrap64(b.size - b.offset)));
      } else {
        PrepareGives(b, limits[0]);
        var r := Prepare(b, limits[0]);
        if r.Ok? { LateNeverEnds(r.value.1, limits[1..]); }
      }
    }
  }

  function Payloads(frames: seq<DataFrame>): seq<Byte> {
    if frames == [] then [] else frames[0].payload + Payloads(frames[1..])
  }

  /** The frames carry the body, and exactly the last one ends the stream. */
  ghost predicate Delivered(r: Outcome<seq<DataFrame>>, body: seq<Byte>) {
    && r.Ok? && r.value != [] && Payloads(r.value) == body
    && r.value[|r.value| - 1].endStream && NoneEnds(r.value[..|r.value| - 1])
  }

  /** The room that limits leave for payload. */
  function Room(limits: seq<nat>): nat {
    if limits == [] then 0 else Room(limits[1..]) + if limits[0] > HEADER_SIZE then limits[0] - HEADER_SIZE else 0
  }

  /** The last of the limits is the first with which there is room for everything. */
  ghost predicate Draining(limits: seq<nat>, n: nat) {
    && limits != [] && (forall i :: 0 <= i < |limits| ==> HEADER_SIZE < limits[i] <= MAX_LIMIT)
    && Room(limits[..|limits| - 1]) < n <= Room(limits)
  }

  lemma DrainingStep(limits: seq<nat>, n: nat)
    requires Draining(limits, n)
    ensures var p := limits[0] - HEADER_SIZE;
      if |limits| == 1 then n <= p
      else && p < n && Draining(limits[1..], n - p)
           && Room(limits[..|limits| - 1]) == p + Room(limits[1..][..|limits| - 2])
  {
    if |limits| == 1 {
      assert limits[1..] == [];
    } else {
      assert limits[..|limits| - 1][1..] == limits[1..][..|limits| - 2];
    }
  }

  lemma {:induction false} SendFrom(b: Body, limits: seq<nat>)
    requires Valid(b) && !Late(b) && b.slices != [] && Draining(limits, |Left(b)|)
    ensures Delivered(SendBody(b, limits), Left(b)) <==> b.offset + Room(limits[..|limits| - 1]) < |b.slices[0]|
    decreases |limits|
  {
    hide Prepare, Draining;
    var n := |limits| - 1;
    DrainingStep(limits, |Left(b)|);
    EveryLimit(limits, |Left(b)|);
    PrepareGives(b, limits[0]);
    var r := Prepare(b, limits[0]).value;
    if n == 0 {
      LastFrame(b, limits);
    } else {
      var p := limits[0] - HEADER_SIZE;
      FirstFrame(b, limits);
      if b.offset + p < |b.slices[0]| {
        SendFrom(r.1, limits[1..]);
      } else {
        LateNeverEnds(r.1, limits[1..]);
      }
    }
  }

  lemma EveryLimit(limits: seq<nat>, n: nat)
    requires Draining(limits, n)
    ensures limits != [] && forall i :: 0 <= i < |limits| ==> HEADER_SIZE < limits[i] <= MAX_LIMIT < TWO_64
  {
  }

  /** One frame is enough. */
  lemma LastFrame(b: Body, limits: seq<nat>)
    requires |limits| == 1 && Prepare(b, limits[0]).Ok? && Prepare(b, limits[0]).value.0.endStream
    requires Valid(b) && Prepare(b, limits[0]).value.0.payload == Left(b)
    ensures Delivered(SendBody(b, limits), Left(b)) && Room(limits[..0]) == 0
  {
    hide Prepare;
    var f := Prepare(b, limits[0]).value.0;
    var later := SendBody(Prepare(b, limits[0]).value.1, limits[1..]);
    assert later == Ok([]);
    assert [f] + later.value == [f];
    assert Payloads([f]) == f.payload;
  }

  /** A first frame that does not end the stream: the rest decides. */
  lemma FirstFrame(b: Body, limits: seq<nat>)
    requires limits != [] && Prepare(b, limits[0]).Ok? && !Prepare(b, limits[0]).value.0.endStream
    requires Valid(b) && Valid(Prepare(b, limits[0]).value.1)
    requires Left(b) == Prepare(b, limits[0]).value.0.payload + Left(Prepare(b, limits[0]).value.1)
    ensures Delivered(SendBody(b, limits), Left(b)) <==>
      Delivered(SendBody(Prepare(b, limits[0]).value.1, limits[1..]), Left(Prepare(b, limits[0]).value.1))
  {
    hide Prepare;
    var f, next := Prepare(b, limits[0]).value.0, Prepare(b, limits[0]).value.1;
    var later := SendBody(next, limits[1..]);
    if later.Ok? { AddFrame(f, later.value, Left(next)); }
  }

  lemma AddFrame(f: DataFrame, later: seq<DataFrame>, body: seq<Byte>)
    requires !f.endStream
    ensures Delivered(Ok([f] + later), f.payload + body) <==> Delivered(Ok(later), body)
  {
    var all := [f] + later;
    assert all[1..] == later;
    assert Payloads(all) == f.payload + Payloads(later);
    if later == [] {
      assert all[0] == f;
    } else {
      assert all[..|all| - 1] == [f] + later[..|later| - 1];
      SamePrefix(f.payload, Payloads(later), body);
      var front := later[..|later| - 1];
      assert forall i :: 0 <= i < |front| ==> all[..|all| - 1][i + 1] == front[i];
    }
  }

  lemma SamePrefix<T>(a: seq<T>, b: seq<T>, c: seq<T>)
    ensures a + b == a + c <==> b == c
  {
    if a + b == a + c {
      assert b == (a + b)[|a|..];
      assert c == (a + c)[|a|..];
    }
  }

  /**
   * A body of any slices, sent with limits that just suffice, is delivered with END_STREAM on exactly the
   * last frame if and only if all frames but the last one stay within the first slice.
   */
  lemma BodySplitIff(slices: seq<seq<Byte>>, limits: seq<nat>)
    requires slices != [] && |Flatten(slices)| < TWO_64 && forall i :: 0 <= i < |slices| ==> slices[i] != []
    requires Draining(limits, |Flatten(slices)|)
    ensures Delivered(SendBody(Body(slices, 0, |Flatten(slices)|), limits), Flatten(slices))
       <==> Room(limits[..|limits| - 1]) < |slices[0]|
  {
    hide Draining, Delivered;
    var b := Body(slices, 0, |Flatten(slices)|);
    assert Left(b) == Flatten(slices);
    SendFrom(b, limits);
  }

  /** One slice is always delivered. */
  lemma OneSlice(slice: seq<Byte>, limits: seq<nat>)
    requires 0 < |slice| < TWO_64 && Draining(limits, |slice|)
    ensures Delivered(SendBody(Body([slice], 0, |slice|), limits), slice)
  {
    hide Delivered;
    assert [slice][1..] == [];
    assert Flatten([slice]) == slice;
    BodySplitIff([slice], limits);
  }

  /** Two slices of one byte each, one byte a frame: the last frame does not end the stream. */
  lemma TwoSlicesNeverEnd(x: Byte, y: Byte, b: Body, limits: seq<nat>)
    requires b == Body([[x], [y]], 0, 2) && limits == [10, 10]
    ensures SendBody(b, limits) == Ok([DataFrame([x], false), DataFrame([y], false)])
  {
    var next := Body([[y]], 0, 2);
    assert [[x], [y]][1..] == [[y]] && [[y]][1..] == [];
    assert [x][0..1] == [x] && [y][0..1] == [y];
    assert Take(b.slices, 0, 1) == Ok(Taken([x], [[y]], 0));
    assert Take(next.slices, 0, 1) == Ok(Taken([y], [], 0));
    assert Prepare(b, 10) == Ok((DataFrame([x], false), next));
    assert Prepare(next, 10) == Ok((DataFrame([y], false), Body([], 0, 2)));
    var last := [10];
    assert limits[1..] == last;
    assert last[1..] == [];
    var frames: seq<DataFrame> := [];
    assert [DataFrame([y], false)] + frames == [DataFrame([y], false)];
    assert SendBody(next, last) == Ok([DataFrame([y], false)]);
    assert SendBody(b, limits) == Ok([DataFrame([x], false)] + [DataFrame([y], false)]);
    assert [DataFrame([x], false)] + [DataFrame([y], false)] == [DataFrame([x], false), DataFrame([y], false)];
  }

  // ---------------------------------------------------------------- after the body

  /** What is left of the body after calls with these limits. */
  function BodyAfter(b: Body, limits: seq<nat>): Outcome<Body>
    decreases |limits|
  {
    if limits == [] then Ok(b)
    else
      var sent :- Prepare(b, limits[0]);
      BodyAfter(sent.1, limits[1..])
  }

  /** A body that was delivered leaves no slice, but keeps the size that it had. */
  lemma {:induction false} DeliveredEmpties(b: Body, limits: seq<nat>)
    requires Valid(b) && !Late(b) && b.slices != [] && Draining(limits, |Left(b)|)
    requires b.offset + Room(limits[..|limits| - 1]) < |b.slices[0]|
    ensures BodyAfter(b, limits) == Ok(Body([], 0, b.size))
    decreases |limits|
  {
    hide Prepare, Draining;
    DrainingStep(limits, |Left(b)|);
    EveryLimit(limits, |Left(b)|);
    PrepareGives(b, limits[0]);
    var next := Prepare(b, limits[0]).value.1;
    if |limits| == 1 {
      NothingLeft(next);
      assert limits[1..] == [];
    } else {
      DeliveredEmpties(next, limits[1..]);
    }
  }

  lemma NothingLeft(b: Body)
    requires Valid(b) && Left(b) == []
    ensures b.slices == [] && b.offset == 0
  {
  }

  /**
   * When the stream goes on to the body: no headers are left, there was a body, and there is room for two
   * frame headers.
   */
  predicate BodyDue(headersEmpty: bool, b: Body, room: nat) {
    headersEmpty && b.size != 0 && room >= 2 * HEADER_SIZE
  }

  /** A call is undefined exactly when no slice is left, or fewer bytes are left than the size of the body tells. */
  lemma PrepareUndefinedIff(b: Body, limit: nat)
    requires Valid(b) && HEADER_SIZE < limit < TWO_64
    ensures Prepare(b, limit) == Undefined <==>
      b.slices == [] || Min(limit - HEADER_SIZE, b.size - b.offset) > |Left(b)|
  {
    if b.slices == [] {
      TakeNothing(b.slices, Min(Wrap64(limit - HEADER_SIZE), Wrap64(b.size - b.offset)));
    } else {
      PrepareGives(b, limit);
    }
  }

  /**
   * A body that has been sent is still due whenever there is room, for instance when the stream only has a
   * window to refill; the call is then undefined, whatever the limit.
   */
  lemma DueAfterEnd(slices: seq<seq<Byte>>, limits: seq<nat>, room: nat)
    requires slices != [] && |Flatten(slices)| < TWO_64 && forall i :: 0 <= i < |slices| ==> slices[i] != []
    requires Draining(limits, |Flatten(slices)|) && Room(limits[..|limits| - 1]) < |slices[0]|
    ensures var b := Body(slices, 0, |Flatten(slices)|);
      var after := BodyAfter(b, limits);
      && Delivered(SendBody(b, limits), Flatten(slices)) && after.Ok?
      && (BodyDue(true, after.value, room) <==> room >= 2 * HEADER_SIZE)
      && Prepare(after.value, room) == Undefined
  {
    hide Draining, Delivered;
    var b := Body(slices, 0, |Flatten(slices)|);
    assert Left(b) == Flatten(slices);
    BodySplitIff(slices, limits);
    DeliveredEmpties(b, limits);
    assert |Flatten(slices)| >= |slices[0]|;
    TakeNothing([], Min(Wrap64(room - HEADER_SIZE), Wrap64(b.size)));
  }

  // ---------------------------------------------------------------- the stream's side

  /** The request body as the stream sends it. */
  class BodySender {
    var spanList: seq<seq<Byte>>
    var sendBodyOffset: nat
    const bodySize: nat

    ghost function ToBody(): Body
      reads this
    {
      Body(spanList, sendBodyOffset, bodySize)
    }

    constructor (slices: seq<seq<Byte>>, bodySize: nat)
      requires bodySize == |Flatten(slices)|
      ensures ToBody() == Body(slices, 0, |Flatten(slices)|)
    {
      spanList := slices;
      sendBodyOffset := 0;
      this.bodySize := bodySize;
    }

    /** Copies bytes from the slices into the payload, dropping the slices that are used up. */
    method Fill(payloadSize: nat) returns (r: Outcome<seq<Byte>>)
      modifies this
      ensures var taken := Take(old(spanList), old(sendBodyOffset), payloadSize);
        if taken.Ok? then
          && r == Ok(taken.value.bytes)
          && spanList == taken.value.slices && sendBodyOffset == taken.value.offset
        else r == Undefined
    {
      ghost var goal := Take(spanList, sendBodyOffset, payloadSize);
      var payload: seq<Byte> := [];
      var left: nat := payloadSize;
      PrefixedNothing(goal);
      var more := true;
      while more
        invariant left <= payloadSize
        invariant more ==> goal == Prefixed(payload, Take(spanList, sendBodyOffset, left))
        invariant !more ==> goal == Ok(Taken(payload, spanList, sendBodyOffset))
        decreases more, |spanList|
      {
        if spanList == [] || sendBodyOffset > |spanList[0]| {
          return Undefined;
        }
        var toCopy := Min(left, |spanList[0]| - sendBodyOffset);
        ghost var bytes := spanList[0][sendBodyOffset..sendBodyOffset + toCopy];
        PrefixedTwice(payload, bytes, Take(if sendBodyOffset + toCopy == |spanList[0]| then spanList[1..] else spanList,
          if sendBodyOffset + toCopy == |spanList[0]| then 0 else sendBodyOffset + toCopy, left - toCopy));
        payload := payload + spanList[0][sendBodyOffset..sendBodyOffset + toCopy];
        sendBodyOffset := sendBodyOffset + toCopy;
        if sendBodyOffset == |spanList[0]| {
          sendBodyOffset := 0;
          spanList := spanList[1..];
        }
        left := left - toCopy;
        more := left != 0;
      }
      return Ok(payload);
    }

    /** Emits the next DATA frame. The size returned is that of a buffer that was moved away before, which is zero. */
    method PrepareBody(limit: nat) returns (r: Outcome<DataFrame>, used: nat)
      modifies this
      ensures var next := Prepare(old(ToBody()), limit);
        if next.Ok? then r == Ok(next.value.0) && ToBody() == next.value.1 else r == Undefined
      ensures used == 0
    {
      var leftSize := Wrap64(bodySize - sendBodyOffset);
      var payloadSize := Min(Wrap64(limit - HEADER_SIZE), leftSize);
      var payload := Fill(payloadSize);
      if !payload.Ok? {
        return Undefined, 0;
      }
      var frame := new Buffer(HEADER_SIZE + payloadSize);
      var out := new Buffer.Move(frame);
      return Ok(DataFrame(payload.value, payloadSize == leftSize)), frame.offset;
    }
  }

  ghost function Prefixed(bytes: seq<Byte>, later: Outcome<Taken>): Outcome<Taken> {
    if later.Ok? then Ok(later.value.(bytes := bytes + later.value.bytes)) else later
  }

  lemma PrefixedNothing(later: Outcome<Taken>)
    ensures Prefixed([], later) == later
  {
    if later.Ok? { assert [] + later.value.bytes == later.value.bytes; }
  }

  lemma PrefixedTwice(a: seq<Byte>, b: seq<Byte>, later: Outcome<Taken>)
    ensures Prefixed(a, Prefixed(b, later)) == Prefixed(a + b, later)
  {
    if later.Ok? { ConcatAssoc(a, b, later.value.bytes); }
  }
}
