/** The instance accounting of the Windows control listener in src/control_transport.rs, as
    a step system over the points where the accept future can be suspended.

    A handle is open from the create that makes it until whoever holds it lets go. The
    listener holds at most one in `idle`, an accept in flight at most one under its restore
    guard, and each live stream is one. */
module PipeAccounting {
  import opened Wrappers

  type Handle = nat

  datatype CreateAnswer = Created | Busy | Refused

  /** Where an accept in flight is suspended; `Quiet` when there is none. */
  datatype Phase =
    | Quiet
    | AwaitingRetry      // busy create, sleeping before the next attempt
    | AwaitingSurface    // refused create, sleeping before the error surfaces
    | AwaitingConnect    // a client may connect to the pending instance
    | AwaitingPace       // connect failed and could not be replaced, sleeping

  datatype World = World(
    idle: Option<Handle>, pending: Option<Handle>, live: set<Handle>,
    handles: set<Handle>, next: Handle, phase: Phase)

  datatype Event =
    | Take                                    // accept starts with an instance listening
    | Attempt(attempt: CreateAnswer)          // accept starts without one, or retries
    | Surface                                 // the refused create is reported
    | ConnectOk(refill: CreateAnswer)         // a client connected; one refill attempt
    | ConnectErr(replacement: CreateAnswer)   // the connect failed; one replacement attempt
    | PaceOver                                // the failed connect is reported
    | Cancel                                  // the accept future is dropped
    | DropStream(stream: Handle)              // an exchange ends

  function Held(h: Option<Handle>): set<Handle> {
    match h
    case Some(x) => {x}
    case None => {}
  }

  /** Storing into `idle` closes whatever was there. */
  function SetIdle(w: World, h: Handle): World {
    w.(idle := Some(h), handles := w.handles - (Held(w.idle) - {h}))
  }

  /** A create that succeeds opens a handle never seen before. */
  function Open(w: World): World {
    w.(handles := w.handles + {w.next}, next := w.next + 1)
  }

  /** The restore guard is dropped: what it still holds goes back to `idle`. */
  function Park(w: World): World {
    match w.pending
    case Some(h) => SetIdle(w.(pending := None), h)
    case None => w
  }

  /** The instance is taken out of `idle` under the guard. */
  function TakeIdle(w: World): World {
    w.(pending := w.idle, idle := None, phase := AwaitingConnect)
  }

  predicate Enabled(w: World, e: Event) {
    match e
    case Take => w.phase.Quiet? && w.idle.Some?
    case Attempt(_) => (w.phase.Quiet? && w.idle.None?) || w.phase.AwaitingRetry?
    case Surface => w.phase.AwaitingSurface?
    case ConnectOk(_) => w.phase.AwaitingConnect? && w.pending.Some?
    case ConnectErr(_) => w.phase.AwaitingConnect? && w.pending.Some?
    case PaceOver => w.phase.AwaitingPace?
    case Cancel => !w.phase.Quiet?
    case DropStream(h) => h in w.live
  }

  function Next(w: World, e: Event): World
    requires Enabled(w, e)
  {
    match e
    case Take => TakeIdle(w)
    case Attempt(Created) => TakeIdle(SetIdle(Open(w), w.next))
    case Attempt(Busy) => w.(phase := AwaitingRetry)
    case Attempt(Refused) => w.(phase := AwaitingSurface)
    case Surface => w.(phase := Quiet)
    case ConnectOk(refill) =>
      var claimed := w.(pending := None, live := w.live + Held(w.pending), phase := Quiet);
      if refill == Created then SetIdle(Open(claimed), claimed.next) else claimed
    case ConnectErr(replacement) =>
      if replacement == Created then
        var replaced := Open(w).(pending := Some(w.next));
        Park(replaced.(handles := replaced.handles - Held(w.pending))).(phase := Quiet)
      else w.(phase := AwaitingPace)
    case PaceOver => Park(w).(phase := Quiet)
    case Cancel => Park(w).(phase := Quiet)
    case DropStream(h) => w.(live := w.live - {h}, handles := w.handles - {h})
  }

  /** The world after the events, or `None` if one of them could not happen. */
  ghost function Run(w: World, events: seq<Event>): Option<World> {
    if events == [] then Some(w)
    else
      var last := events[|events| - 1];
      match Run(w, events[..|events| - 1])
      case Some(v) => if Enabled(v, last) then Some(Next(v, last)) else None
      case None => None
  }

  /** The world `bind` makes: its first instance, listening. */
  function Bound(): World {
    World(Some(0), None, {}, {0}, 1, Quiet)
  }

  // --- conservation ---

  /** Every open handle has exactly one holder, and the listener never holds two. */
  ghost predicate Accounted(w: World) {
    && w.handles == Held(w.idle) + Held(w.pending) + w.live
    && Held(w.idle) !! w.live && Held(w.pending) !! w.live
    && (w.pending.Some? <==> w.phase.AwaitingConnect? || w.phase.AwaitingPace?)
    && (w.idle.Some? ==> w.phase.Quiet?)
    && (forall h :: h in w.handles ==> h < w.next)
  }

  lemma StepKeepsAccount(w: World, e: Event)
    requires Accounted(w) && Enabled(w, e)
    ensures Accounted(Next(w, e))
  {
  }

  lemma {:induction false} RunKeepsAccount(w: World, events: seq<Event>)
    requires Accounted(w) && Run(w, events).Some?
    ensures Accounted(Run(w, events).value)
  {
    if events != [] {
      var n := |events| - 1;
      RunKeepsAccount(w, events[..n]);
      StepKeepsAccount(Run(w, events[..n]).value, events[n]);
    }
  }

  function Count(h: Option<Handle>): nat {
    if h.Some? then 1 else 0
  }

  /** Over every run after a bind: open handles are the idle instance, the pending one and
      the live streams, counted once each, and idle and pending are never both occupied. */
  lemma HandlesAreConserved(events: seq<Event>)
    requires Run(Bound(), events).Some?
    ensures var w := Run(Bound(), events).value;
            && |w.handles| == Count(w.idle) + Count(w.pending) + |w.live|
            && !(w.idle.Some? && w.pending.Some?)
  {
    RunKeepsAccount(Bound(), events);
    var w := Run(Bound(), events).value;
    assert w.handles == (Held(w.idle) + Held(w.pending)) + w.live;
  }

  // --- cancellation ---

  ghost function Drops(streams: seq<Handle>): seq<Event> {
    seq(|streams|, i requires 0 <= i < |streams| => DropStream(streams[i]))
  }

  /** Streams that end while an accept is suspended touch nothing but themselves. */
  lemma {:induction false} DropsTouchOnlyStreams(w: World, streams: seq<Handle>)
    requires Run(w, Drops(streams)).Some?
    ensures var v := Run(w, Drops(streams)).value;
            v == w.(live := v.live, handles := v.handles)
            && v.live == w.live - (set h | h in streams)
  {
    if streams != [] {
      var n := |streams| - 1;
      assert Drops(streams)[..n] == Drops(streams[..n]);
      DropsTouchOnlyStreams(w, streams[..n]);
      assert streams == streams[..n] + [streams[n]];
    }
  }

  lemma {:induction false} RunAppend(w: World, a: seq<Event>, b: seq<Event>)
    ensures Run(w, a + b) == match Run(w, a) case Some(v) => Run(v, b) case None => None
  {
    if b == [] {
      assert a + b == a;
    } else {
      RunAppend(w, a, b[..|b| - 1]);
      assert (a + b)[..|a + b| - 1] == a + b[..|b| - 1];
    }
  }

  /** An accept cancelled while it waits for a client leaves the listener with exactly the
      instance it took, whatever streams ended meanwhile. */
  lemma CancelRestoresTheInstance(w: World, streams: seq<Handle>)
    requires Accounted(w) && w.phase.Quiet? && w.idle.Some?
    requires Run(w, [Take] + Drops(streams) + [Cancel]).Some?
    ensures var v := Run(w, [Take] + Drops(streams) + [Cancel]).value;
            && v == w.(live := v.live, handles := v.handles)
            && v.live == w.live - (set h | h in streams)
            && v.handles == Held(w.idle) + v.live
  {
    var taken := Next(w, Take);
    RunAppend(w, [Take] + Drops(streams), [Cancel]);
    RunAppend(w, [Take], Drops(streams));
    assert [Take][..0] == [] && [Cancel][..0] == [];
    assert Run(w, [Take]) == Some(taken);
    DropsTouchOnlyStreams(taken, streams);
    RunKeepsAccount(w, [Take] + Drops(streams) + [Cancel]);
  }

  /** From any suspension, cancelling closes no handle. */
  lemma CancelClosesNothing(w: World)
    requires Accounted(w) && Enabled(w, Cancel)
    ensures var v := Next(w, Cancel);
            v.handles == w.handles && v.live == w.live && v.pending == None
            && v.idle == if w.pending.Some? then w.pending else w.idle
  {
  }

  // --- the pipe name ---

  /** The event is a create that succeeded. */
  ghost predicate CreateSucceeds(e: Event) {
    || e == Attempt(Created)
    || e == ConnectOk(Created)
    || e == ConnectErr(Created)
  }

  /** At `k` an accept completed and its refill was refused; no create has succeeded since;
      and every stream then live, the one just handed out included, has since been dropped. */
  ghost predicate NameReleasedAt(events: seq<Event>, k: nat) {
    && k < |events|
    && events[k].ConnectOk? && events[k].refill != Created
    && (forall j :: k < j < |events| ==> !CreateSucceeds(events[j]))
    && Run(Bound(), events[..k + 1]).Some?
    && forall h :: h in Run(Bound(), events[..k + 1]).value.live ==> DropStream(h) in events[k + 1..]
  }

  /** The last completed accept whose refill was refused, with no create succeeding since. */
  ghost predicate RefusedSince(events: seq<Event>, k: nat) {
    && k < |events|
    && events[k].ConnectOk? && events[k].refill != Created
    && forall j :: k < j < |events| ==> !CreateSucceeds(events[j])
  }

  ghost predicate Listening(w: World) {
    w.idle.Some? || w.pending.Some?
  }

  /** The prefixes of a run that can happen can happen. */
  lemma {:induction false} PrefixRuns(w: World, events: seq<Event>, n: nat)
    requires n <= |events| && Run(w, events).Some?
    ensures Run(w, events[..n]).Some?
  {
    if n < |events| {
      PrefixRuns(w, events[..|events| - 1], n);
      assert events[..|events| - 1][..n] == events[..n];
    } else {
      assert events[..n] == events;
    }
  }

  lemma RefusedStep(events: seq<Event>, k: nat)
    requires events != []
    ensures var n := |events| - 1;
            RefusedSince(events, k) <==>
              if k == n then events[n].ConnectOk? && events[n].refill != Created
              else RefusedSince(events[..n], k) && !CreateSucceeds(events[n])
  {
    var before := events[..|events| - 1];
    assert forall j :: 0 <= j < |before| ==> before[j] == events[j];
  }

  /** The listener is without an instance exactly since such an accept. */
  lemma {:induction false} DeafExactlySince(events: seq<Event>)
    requires Run(Bound(), events).Some?
    ensures !Listening(Run(Bound(), events).value) <==> exists k: nat :: RefusedSince(events, k)
  {
    if events != [] {
      var n := |events| - 1;
      DeafExactlySince(events[..n]);
      RunKeepsAccount(Bound(), events[..n]);
      forall k: nat ensures RefusedSince(events, k) <==>
                              if k == n then events[n].ConnectOk? && events[n].refill != Created
                              else RefusedSince(events[..n], k) && !CreateSucceeds(events[n]) {
        RefusedStep(events, k);
      }
      if events[n].ConnectOk? && events[n].refill != Created { assert RefusedSince(events, n); }
    }
  }

  ghost function Dropped(events: seq<Event>): set<Handle> {
    set e | e in events && e.DropStream? :: e.stream
  }

  /** Since such an accept the live streams only go away, one `DropStream` each. */
  lemma {:induction false} LiveSince(events: seq<Event>, k: nat)
    requires Run(Bound(), events).Some? && RefusedSince(events, k)
    ensures Run(Bound(), events[..k + 1]).Some?
    ensures Run(Bound(), events).value.live
         == Run(Bound(), events[..k + 1]).value.live - Dropped(events[k + 1..])
  {
    var n := |events| - 1;
    PrefixRuns(Bound(), events, k + 1);
    if k == n {
      assert events[..k + 1] == events;
    } else {
      var before := events[..n];
      RefusedStep(events, k);
      LiveSince(before, k);
      DeafExactlySince(before);
      assert before[..k + 1] == events[..k + 1];
      assert events[k + 1..] == before[k + 1..] + [events[n]];
      assert Dropped(events[k + 1..]) == Dropped(before[k + 1..]) + Dropped([events[n]]);
      RunKeepsAccount(Bound(), before);
    }
  }

  /** The process holds no handle, and so releases the pipe name, exactly when a completed
      accept's refill was refused, no create has succeeded since, and every stream live
      after that accept has been dropped. */
  lemma NameReleasedExactlyWhen(events: seq<Event>)
    requires Run(Bound(), events).Some?
    ensures Run(Bound(), events).value.handles == {} <==> exists k: nat :: NameReleasedAt(events, k)
  {
    RunKeepsAccount(Bound(), events);
    DeafExactlySince(events);
    var w := Run(Bound(), events).value;
    assert w.handles == {} <==> !Listening(w) && w.live == {} by {
      assert w.idle.Some? ==> w.idle.value in w.handles;
      assert w.pending.Some? ==> w.pending.value in w.handles;
    }
    if k: nat :| NameReleasedAt(events, k) {
      assert RefusedSince(events, k);
      LiveSince(events, k);
      var streams, dropped := Run(Bound(), events[..k + 1]).value.live, Dropped(events[k + 1..]);
      forall h | h in streams ensures h in dropped {
        assert DropStream(h) in events[k + 1..] && DropStream(h).stream == h;
      }
    }
    if w.handles == {} {
      var k: nat :| RefusedSince(events, k);
      LiveSince(events, k);
      var streams, dropped := Run(Bound(), events[..k + 1]).value.live, Dropped(events[k + 1..]);
      assert streams - dropped == {};
      forall h | h in streams ensures DropStream(h) in events[k + 1..] {
        assert h !in streams - dropped;
        assert h in dropped;
      }
      assert NameReleasedAt(events, k);
    }
  }

  /** A failed connect always leaves an instance, whatever the OS answers and however the
      accept ends: reported at once, reported after its pause, or cancelled during it. */
  lemma FailedConnectKeepsAnInstance(w: World, replacement: CreateAnswer, cancelled: bool)
    requires Accounted(w) && Enabled(w, ConnectErr(replacement))
    ensures var failed := Next(w, ConnectErr(replacement));
            var ended := if failed.phase.Quiet? then failed
                         else Next(failed, if cancelled then Cancel else PaceOver);
            && ended.phase.Quiet? && ended.idle.Some?
            && ended.idle == (if replacement == Created then Some(w.next) else w.pending)
            && ended.handles == (if replacement == Created then w.handles - Held(w.pending) + {w.next} else w.handles)
            && ended.live == w.live
  {
    StepKeepsAccount(w, ConnectErr(replacement));
  }
}
