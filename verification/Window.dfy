/** The receive window of the connection (section 6.9 of RFC 7540). */
module Windows {
  import opened Words
  import opened Outcomes
  import opened Frames
  import opened Reassembly

  const INITIAL_WINDOW_SIZE := 65535
  const MAX_CONCURRENT_STREAMS := 100
  const MAX_INCREMENT := 0x7fff_ffff

  /** The window of all streams together, once the settings are acknowledged. */
  const SYNCED_WINDOW_SIZE := INITIAL_WINDOW_SIZE * MAX_CONCURRENT_STREAMS

  /** A window as it is at some moment; all numbers are 32 bits wide. */
  datatype Window = Window(maxSize: nat, size: nat, triggerSize: nat) {
    predicate Words() {
      maxSize < TWO_32 && size < TWO_32 && triggerSize < TWO_32
    }
  }

  /** The 32-bit counter and its automatic refill. */
  class DummyWindow {
    var maxSize: nat
    var size: nat
    var triggerSize: nat

    ghost function ToWindow(): Window
      reads this
    {
      Window(maxSize, size, triggerSize)
    }

    constructor (msize: nat, trigger: nat)
      requires msize < TWO_32 && trigger < TWO_32
      ensures ToWindow() == Window(msize, msize, trigger) && ToWindow().Words()
    {
      maxSize, size, triggerSize := msize, msize, trigger;
    }

    method Dec(v: nat)
      requires v < TWO_32 && ToWindow().Words()
      modifies this`size
      ensures ToWindow().Words() && size == Wrap32(old(size) - v)
    {
      size := Wrap32(size - v);
    }

    /** The increment to announce, if the deficit has reached the trigger; the window is then full. */
    method Update() returns (increment: Option<nat>)
      requires ToWindow().Words()
      modifies this`size
      ensures ToWindow().Words()
      ensures var deficit := Wrap32(maxSize - old(size));
        if deficit >= triggerSize then increment == Some(deficit) && size == maxSize
        else increment == None && size == old(size)
    {
      var incSize := Wrap32(maxSize - size);
      if incSize < triggerSize {
        return None;
      }
      size := Wrap32(size + incSize);
      return Some(incSize);
    }
  }

  // ---------------------------------------------------------------- the connection's accounts

  /** What the peer does: it sends a frame of some size, or acknowledges our settings. */
  datatype Event = Frame(size: nat) | Sync

  /** The window with the increments announced and the bytes received so far. */
  datatype Account = Account(window: Window, increments: seq<nat>, received: nat)

  const START := Account(Window(INITIAL_WINDOW_SIZE, INITIAL_WINDOW_SIZE, INITIAL_WINDOW_SIZE / 4), [], 0)

  function AfterEvent(a: Account, e: Event): Account {
    match e
    case Frame(n) =>
      var size := Wrap32(a.window.size - n);
      var deficit := Wrap32(a.window.maxSize - size);
      if deficit >= a.window.triggerSize
      then Account(a.window.(size := a.window.maxSize), a.increments + [deficit], a.received + n)
      else Account(a.window.(size := size), a.increments, a.received + n)
    case Sync =>
      var windowSize := Wrap32(INITIAL_WINDOW_SIZE * MAX_CONCURRENT_STREAMS);
      Account(Window(windowSize, windowSize, windowSize / 2), a.increments + [Wrap32(windowSize - a.window.size)],
        a.received)
  }

  function AfterEvents(events: seq<Event>): Account {
    if events == [] then START else AfterEvent(AfterEvents(events[..|events| - 1]), events[|events| - 1])
  }

  function Sum(s: seq<nat>): nat {
    if s == [] then 0 else Sum(s[..|s| - 1]) + s[|s| - 1]
  }

  /** The largest frame that passes the checks. */
  const LARGEST_FRAME := HEADER_SIZE + MAX_FRAME_SIZE

  predicate Admissible(e: Event) {
    e.Frame? ==> HEADER_SIZE <= e.size <= LARGEST_FRAME
  }

  /**
   * The deficit is below the trigger and a largest frame fits what is left; the size is exactly what was
   * granted less what was received.
   */
  predicate Balanced(a: Account) {
    && a.window.size <= a.window.maxSize <= MAX_INCREMENT
    && a.window.maxSize - a.window.size < a.window.triggerSize
    && a.window.triggerSize + LARGEST_FRAME <= a.window.maxSize
    && INITIAL_WINDOW_SIZE <= a.window.maxSize <= SYNCED_WINDOW_SIZE
    && a.window.size == INITIAL_WINDOW_SIZE + Sum(a.increments) - a.received
  }

  lemma EventBalanced(a: Account, e: Event)
    requires Balanced(a) && Admissible(e)
    ensures Balanced(AfterEvent(a, e))
    ensures e.Frame? ==> e.size <= a.window.size
    ensures a.increments <= AfterEvent(a, e).increments
    ensures forall i :: |a.increments| <= i < |AfterEvent(a, e).increments| ==>
      && AfterEvent(a, e).increments[i] <= MAX_INCREMENT
      && (AfterEvent(a, e).increments[i] == 0 <==> e.Sync? && a.window.size == SYNCED_WINDOW_SIZE)
  {
    var next := AfterEvent(a, e);
    if next.increments != a.increments {
      var n := |a.increments|;
      assert next.increments[..n] == a.increments;
      assert Sum(next.increments) == Sum(a.increments) + next.increments[n];
    }
  }

  lemma {:induction false} AlwaysBalanced(events: seq<Event>)
    requires forall i :: 0 <= i < |events| ==> Admissible(events[i])
    ensures Balanced(AfterEvents(events))
  {
    if events == [] {
    } else {
      AlwaysBalanced(events[..|events| - 1]);
      EventBalanced(AfterEvents(events[..|events| - 1]), events[|events| - 1]);
    }
  }

  /** However the peer behaves no frame ever exceeds what is left of the window, so the counter never wraps. */
  lemma NoUnderflow(events: seq<Event>, k: nat)
    requires forall i :: 0 <= i < |events| ==> Admissible(events[i])
    requires k < |events| && events[k].Frame?
    ensures events[k].size <= AfterEvents(events[..k]).window.size
  {
    AlwaysBalanced(events[..k]);
    EventBalanced(AfterEvents(events[..k]), events[k]);
  }

  /** Settings are acknowledged once on a connection. */
  predicate SyncedOnce(events: seq<Event>) {
    forall i, j :: 0 <= i < j < |events| ==> !(events[i].Sync? && events[j].Sync?)
  }

  lemma {:induction false} NotSynced(events: seq<Event>)
    requires forall i :: 0 <= i < |events| ==> Admissible(events[i]) && events[i].Frame?
    ensures AfterEvents(events).window.maxSize == INITIAL_WINDOW_SIZE
  {
    if events != [] { NotSynced(events[..|events| - 1]); }
  }

  /** On a first connection every announced increment is in the range that section 6.9 allows. */
  lemma {:induction false} IncrementsInRange(events: seq<Event>)
    requires forall i :: 0 <= i < |events| ==> Admissible(events[i])
    requires SyncedOnce(events)
    ensures forall i :: 0 <= i < |AfterEvents(events).increments| ==>
      1 <= AfterEvents(events).increments[i] <= MAX_INCREMENT
  {
    if events != [] {
      var n := |events| - 1;
      var before := events[..n];
      IncrementsInRange(before);
      AlwaysBalanced(before);
      EventBalanced(AfterEvents(before), events[n]);
      if events[n].Sync? {
        forall i | 0 <= i < n ensures before[i].Frame? { assert before[i] == events[i]; }
        NotSynced(before);
      }
    }
  }

  /** A later acknowledgement announces nothing exactly when the window is full. */
  lemma LaterSync(events: seq<Event>)
    requires forall i :: 0 <= i < |events| ==> Admissible(events[i])
    ensures var a := AfterEvents(events);
      var next := AfterEvent(a, Sync);
      && |next.increments| == |a.increments| + 1
      && (next.increments[|a.increments|] == 0 <==> a.window.size == SYNCED_WINDOW_SIZE)
  {
    AlwaysBalanced(events);
    EventBalanced(AfterEvents(events), Sync);
  }

  // ---------------------------------------------------------------- when the window is refilled

  predicate Synced(events: seq<Event>) {
    exists i :: 0 <= i < |events| && events[i].Sync?
  }

  /** The deficit that is announced: half of a hundred streams' windows of 65535 bytes, or a quarter of one. */
  function Threshold(events: seq<Event>): nat {
    if Synced(events) then 6553500 / 2 else 65535 / 4
  }

  /** In every run the window has one of two sizes, with its own threshold. */
  lemma {:induction false} WindowIs(events: seq<Event>)
    ensures AfterEvents(events).window.triggerSize == Threshold(events)
    ensures AfterEvents(events).window.maxSize == if Synced(events) then 6553500 else 65535
  {
    if events != [] {
      var n := |events| - 1;
      var before := events[..n];
      WindowIs(before);
      assert forall i :: 0 <= i < n ==> before[i] == events[i];
      assert events[n].Sync? ==> Synced(events);
    }
  }

  /** The bytes of the frames among some events. */
  function Bytes(events: seq<Event>): nat {
    if events == [] then 0
    else Bytes(events[..|events| - 1]) + if events[|events| - 1].Frame? then events[|events| - 1].size else 0
  }

  /** Event `k` announces an increment. */
  predicate Announces(events: seq<Event>, k: nat)
    requires k < |events|
  {
    |AfterEvents(events[..k]).increments| < |AfterEvents(events[..k + 1]).increments|
  }

  /** The window was refilled, or is new, before event `i`, and not refilled since. */
  ghost predicate FullSince(events: seq<Event>, i: nat, k: nat)
    requires i <= k <= |events|
  {
    && (i == 0 || Announces(events, i - 1))
    && forall j :: i <= j < k ==> !Announces(events, j)
  }

  lemma BytesMore(events: seq<Event>, i: nat, k: nat)
    requires i <= k < |events|
    ensures Bytes(events[i..k + 1]) == Bytes(events[i..k]) + if events[k].Frame? then events[k].size else 0
  {
    assert events[i..k + 1][..k - i] == events[i..k];
  }

  lemma EventAt(events: seq<Event>, k: nat)
    requires k < |events|
    ensures AfterEvents(events[..k + 1]) == AfterEvent(AfterEvents(events[..k]), events[k])
  {
    assert events[..k + 1][..k] == events[..k];
  }

  /** What is missing from the window is what was received since it was full. */
  lemma {:induction false} DeficitIs(events: seq<Event>, i: nat, k: nat)
    requires forall j :: 0 <= j < |events| ==> Admissible(events[j])
    requires i <= k <= |events| && FullSince(events, i, k)
    ensures var w := AfterEvents(events[..k]).window;
      w.maxSize - w.size == Bytes(events[i..k])
    decreases k
  {
    hide AfterEvents, AfterEvent, Bytes, Balanced, Admissible;
    if i == k {
      if i == 0 {
        AtStart(events);
      } else {
        EventAt(events, i - 1);
        FullAfter(AfterEvents(events[..i - 1]), events[i - 1]);
      }
      NoBytes(events, i);
    } else {
      DeficitIs(events, i, k - 1);
      EventAt(events, k - 1);
      BytesMore(events, i, k - 1);
      AlwaysBalanced(events[..k - 1]);
      assert !Announces(events, k - 1);
      DeficitGrows(AfterEvents(events[..k - 1]), events[k - 1]);
    }
  }

  lemma NoBytes(events: seq<Event>, i: nat)
    requires i <= |events|
    ensures Bytes(events[i..i]) == 0
  {
  }

  /** An announcement leaves the window full. */
  lemma FullAfter(a: Account, e: Event)
    requires |AfterEvent(a, e).increments| > |a.increments|
    ensures AfterEvent(a, e).window.size == AfterEvent(a, e).window.maxSize
  {
  }

  /** Without an announcement the deficit grows by what is received. */
  lemma DeficitGrows(a: Account, e: Event)
    requires Balanced(a) && Admissible(e) && |AfterEvent(a, e).increments| <= |a.increments|
    ensures var w, w' := a.window, AfterEvent(a, e).window;
      e.Frame? && w'.maxSize - w'.size == w.maxSize - w.size + e.size
  {
  }

  lemma AtStart(events: seq<Event>)
    ensures AfterEvents(events[..0]) == START
  {
  }

  /**
   * Over every run: a frame announces an increment if and only if the bytes received since the window was
   * last full, its own included, have reached the threshold, and it announces exactly these. So nothing is
   * announced below the threshold, and nothing less than it.
   */
  lemma RefillIff(events: seq<Event>, i: nat, k: nat)
    requires forall j :: 0 <= j < |events| ==> Admissible(events[j])
    requires i <= k < |events| && FullSince(events, i, k) && events[k].Frame?
    ensures Announces(events, k) <==> Bytes(events[i..k + 1]) >= Threshold(events[..k])
    ensures Announces(events, k) ==>
      AfterEvents(events[..k + 1]).increments == AfterEvents(events[..k]).increments + [Bytes(events[i..k + 1])]
  {
    hide AfterEvents, FullSince, Bytes;
    DeficitIs(events, i, k);
    EventAt(events, k);
    BytesMore(events, i, k);
    WindowIs(events[..k]);
    AlwaysBalanced(events[..k]);
    EventBalanced(AfterEvents(events[..k]), events[k]);
  }

  /** The debits of some frames. */
  function Debits(frames: seq<seq<Byte>>): (events: seq<Event>)
    ensures |events| == |frames|
    ensures forall i :: 0 <= i < |frames| ==> events[i] == Frame(|frames[i]|)
  {
    seq(|frames|, i requires 0 <= i < |frames| => Frame(|frames[i]|))
  }

  /** The frames among the events. */
  function FrameEvents(events: seq<Event>): seq<Event> {
    if events == [] then []
    else
      var n := |events| - 1;
      if events[n].Frame? then FrameEvents(events[..n]) + [events[n]] else FrameEvents(events[..n])
  }

  lemma {:induction false} EachFrame(events: seq<Event>, i: nat)
    requires i < |events| && events[i].Frame?
    ensures events[i] in FrameEvents(events)
  {
    var n := |events| - 1;
    if i < n { EachFrame(events[..n], i); }
  }

  /**
   * Whatever bytes the peer sends, and whenever it acknowledges the settings in between, each frame
   * dispatched from these bytes fits the window at its turn.
   */
  lemma DispatchedFits(throws: Handler, bytes: seq<Byte>, events: seq<Event>, k: nat)
    requires FrameEvents(events) == Debits(Parse(throws, MAX_FRAME_SIZE, [], bytes).frames)
    requires k < |events| && events[k].Frame?
    ensures events[k].size <= AfterEvents(events[..k]).window.size
  {
    var frames := Parse(throws, MAX_FRAME_SIZE, [], bytes).frames;
    ParseConserves(throws, MAX_FRAME_SIZE, [], bytes);
    forall i | 0 <= i < |events| ensures Admissible(events[i]) {
      if events[i].Frame? {
        EachFrame(events, i);
        var j :| 0 <= j < |frames| && Debits(frames)[j] == events[i];
        assert WholeFrame(frames[j], MAX_FRAME_SIZE);
      }
    }
    NoUnderflow(events, k);
  }

  // ---------------------------------------------------------------- the client's use of the window

  /** The part of the client that keeps the account: the window object and the commands it queues. */
  class Client {
    var localWindow: DummyWindow
    var increments: seq<nat>
    ghost var received: nat

    ghost function ToAccount(): Account
      reads this, localWindow
    {
      Account(localWindow.ToWindow(), increments, received)
    }

    constructor ()
      ensures ToAccount() == START && fresh(localWindow)
    {
      localWindow := new DummyWindow(INITIAL_WINDOW_SIZE, INITIAL_WINDOW_SIZE / 4);
      increments := [];
      received := 0;
    }

    /** A frame arrived: it is debited, and the window refilled when the trigger is reached. */
    method OnReceiveFrame(size: nat)
      requires Balanced(ToAccount()) && HEADER_SIZE <= size <= LARGEST_FRAME
      modifies this, localWindow
      ensures ToAccount() == AfterEvent(old(ToAccount()), Frame(size)) && Balanced(ToAccount())
      ensures localWindow == old(localWindow)
    {
      EventBalanced(ToAccount(), Frame(size));
      localWindow.Dec(size);
      var update := localWindow.Update();
      if update.Some? {
        increments := increments + [update.value];
      }
      received := received + size;
    }

    /** The peer acknowledged the settings: the window is replaced by that of all streams together. */
    method OnSynced()
      requires Balanced(ToAccount())
      modifies this
      ensures ToAccount() == AfterEvent(old(ToAccount()), Sync) && Balanced(ToAccount())
      ensures fresh(localWindow)
    {
      EventBalanced(ToAccount(), Sync);
      var windowSize := Wrap32(INITIAL_WINDOW_SIZE * MAX_CONCURRENT_STREAMS);
      var windowIncrement := Wrap32(windowSize - localWindow.size);
      localWindow := new DummyWindow(windowSize, windowSize / 2);
      increments := increments + [windowIncrement];
    }
  }
}
