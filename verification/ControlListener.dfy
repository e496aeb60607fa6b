/** The Windows control listener of src/control_transport.rs, method by method, against the
    step system of its instance accounting.

    What the OS answers to each create, and how each suspension ends, comes from a script: a
    suspension either resumes, with the answer awaited, or finds the accept future dropped.
    Streams may end during any suspension. A script that has run out refuses every create and
    drops the future, so every accept ends. */
module ControlListener {
  import opened Wrappers
  import opened PipeAccounting

  datatype Waking = Resumed(ok: bool) | FutureDropped

  datatype Suspension = Suspension(ended: seq<Handle>, waking: Waking)

  datatype Accepted = Stream(stream: Handle) | Failed | Cancelled

  datatype Waited = Instance(instance: Handle) | Errored | Gone

  // --- the script ---

  /** What the OS answers to the `i`th create. */
  function AnswerAt(creates: seq<CreateAnswer>, i: nat): CreateAnswer {
    if i < |creates| then creates[i] else Refused
  }

  /** How the `i`th suspension ends. */
  function WakingAt(suspensions: seq<Suspension>, i: nat): Waking {
    if i < |suspensions| then suspensions[i].waking else FutureDropped
  }

  /** What is left of a script once `n` of it is used up. */
  function Skip<T>(s: seq<T>, n: nat): seq<T> {
    if n <= |s| then s[n..] else []
  }

  /** The streams that end during the first `n` suspensions. */
  ghost function EndedIn(suspensions: seq<Suspension>, n: nat): set<Handle> {
    set i, h | 0 <= i < n && i < |suspensions| && h in suspensions[i].ended :: h
  }

  lemma EndedInOneMore(suspensions: seq<Suspension>, n: nat)
    ensures EndedIn(suspensions, n + 1) == EndedIn(suspensions, n) + EndedIn(Skip(suspensions, n), 1)
  {
    var one := EndedIn(Skip(suspensions, n), 1);
    if n < |suspensions| {
      assert Skip(suspensions, n)[0] == suspensions[n];
      forall h | h in suspensions[n].ended ensures h in one {
        assert 0 <= 0 < 1 && h in Skip(suspensions, n)[0].ended;
      }
    }
  }

  lemma EndedInTwoMore(suspensions: seq<Suspension>, n: nat)
    ensures EndedIn(Skip(suspensions, n), 2) + EndedIn(suspensions, n) <= EndedIn(suspensions, n + 2)
  {
    forall h | h in EndedIn(Skip(suspensions, n), 2) ensures h in EndedIn(suspensions, n + 2) {
      var i :| 0 <= i < 2 && i < |Skip(suspensions, n)| && h in Skip(suspensions, n)[i].ended;
      assert h in suspensions[n + i].ended;
    }
  }

  /** The first `n` creates find the pipe busy, and each is slept on and tried again. */
  ghost predicate Retried(creates: seq<CreateAnswer>, suspensions: seq<Suspension>, n: nat) {
    forall i :: 0 <= i < n ==> AnswerAt(creates, i) == Busy && WakingAt(suspensions, i).Resumed?
  }

  /** How an accept that waits for a client ends, given the create it would use next, and the
      idle instance before and after: how the connect ends decides, and when it fails and the
      instance cannot be replaced, how the pause ends. */
  ghost predicate Decided(r: Accepted, connect: Waking, create: CreateAnswer, pause: Waking) {
    match connect
    case FutureDropped => r == Cancelled
    case Resumed(true) => r.Stream?
    case Resumed(false) => r == if create != Created && pause.FutureDropped? then Cancelled else Failed
  }

  class Listener {
    var idle: Option<Handle>
    var pending: Option<Handle>        // what the restore guard of the accept in flight holds
    var live: set<Handle>              // streams handed out and not yet dropped
    var handles: set<Handle>           // every handle the process has open
    var next: Handle
    var creates: seq<CreateAnswer>     // the script: answers to come
    var suspensions: seq<Suspension>
    ghost var phase: Phase
    ghost var events: seq<Event>       // what has happened since the bind

    ghost function View(): World
      reads this
    {
      World(idle, pending, live, handles, next, phase)
    }

    /** The fields are where the recorded events lead. */
    ghost predicate Valid()
      reads this
    {
      Run(Bound(), events) == Some(View())
    }

    /** `bind`, when its one create succeeds. */
    constructor Bind(creates: seq<CreateAnswer>, suspensions: seq<Suspension>)
      ensures Valid() && phase.Quiet? && events == [] && idle.Some?
      ensures this.creates == creates && this.suspensions == suspensions
    {
      idle, pending, live := Some(0), None, {};
      handles, next := {0}, 1;
      this.creates, this.suspensions := creates, suspensions;
      phase, events := Quiet, [];
    }

    /** Record one more event, given that the fields now are where it leads. */
    ghost method Record(e: Event, before: World)
      requires Run(Bound(), events) == Some(before) && Enabled(before, e) && View() == Next(before, e)
      modifies this`events
      ensures Valid() && events == old(events) + [e]
    {
      assert (events + [e])[..|events|] == events;
      events := events + [e];
    }

    /** `create_instance`. */
    method Create() returns (answer: CreateAnswer)
      modifies this`handles, this`next, this`creates
      ensures answer == AnswerAt(old(creates), 0) && creates == Skip(old(creates), 1)
      ensures answer == Created ==> handles == old(handles) + {old(next)} && next == old(next) + 1
      ensures answer != Created ==> handles == old(handles) && next == old(next)
    {
      if creates == [] { return Refused; }
      answer, creates := creates[0], creates[1..];
      if answer == Created {
        handles, next := handles + {next}, next + 1;
      }
    }

    /** Storing into `idle` drops whatever it held. */
    method StoreIdle(h: Handle)
      modifies this`idle, this`handles
      ensures idle == Some(h) && handles == old(handles) - (Held(old(idle)) - {h})
    {
      if idle.Some? && idle.value != h { handles := handles - {idle.value}; }
      idle := Some(h);
    }

    /** `PendingAccept::drop`. */
    method DropGuard()
      modifies this`idle, this`pending, this`handles
      ensures pending == None
      ensures old(pending) == None ==> idle == old(idle) && handles == old(handles)
      ensures old(pending).Some? ==>
                idle == old(pending) && handles == old(handles) - (Held(old(idle)) - Held(old(pending)))
    {
      if pending.Some? {
        var server := pending.value;
        pending := None;
        StoreIdle(server);
      }
    }

    /** One suspension of the accept: streams end, and then it resumes or is dropped. */
    method Suspend() returns (waking: Waking)
      requires Valid()
      modifies this
      ensures Valid()
      ensures idle == old(idle) && pending == old(pending) && phase == old(phase) && creates == old(creates)
      ensures waking == WakingAt(old(suspensions), 0) && suspensions == Skip(old(suspensions), 1)
      ensures live == old(live) - EndedIn(old(suspensions), 1) && next == old(next)
      ensures old(events) <= events
      ensures forall e :: e in events[|old(events)|..] ==> e.DropStream?
    {
      assert old(events) == events;
      if suspensions == [] { return FutureDropped; }
      var now := suspensions[0];
      suspensions := suspensions[1..];
      for k := 0 to |now.ended|
        invariant Valid()
        invariant idle == old(idle) && pending == old(pending) && phase == old(phase) && creates == old(creates)
        invariant suspensions == old(suspensions)[1..] && next == old(next)
        invariant live == old(live) - set h | h in now.ended[..k]
        invariant old(events) <= events
        invariant forall e :: e in events[|old(events)|..] ==> e.DropStream?
      {
        if now.ended[k] in live {
          ghost var before, count := View(), |events|;
          live, handles := live - {now.ended[k]}, handles - {now.ended[k]};
          Record(DropStream(now.ended[k]), before);
          assert events[|old(events)|..] == events[|old(events)|..count] + [DropStream(now.ended[k])];
        }
      }
      RunKeepsAccount(Bound(), events);
      assert now.ended[..|now.ended|] == now.ended;
      assert EndedIn(old(suspensions), 1) == set h | h in now.ended;
      return now.waking;
    }

    /** A pause with no instance under the guard; `false` when the future is dropped in it. */
    method Sleep() returns (woken: bool)
      requires Valid() && Accounted(View()) && (phase.AwaitingRetry? || phase.AwaitingSurface?)
      modifies this
      ensures Valid() && Accounted(View()) && old(events) <= events
      ensures idle == None && pending == None
      ensures woken <==> WakingAt(old(suspensions), 0).Resumed?
      ensures suspensions == Skip(old(suspensions), 1) && creates == old(creates) && next == old(next)
      ensures live == old(live) - EndedIn(old(suspensions), 1)
      ensures phase == if woken then old(phase) else Quiet
    {
      var waking := Suspend();
      RunKeepsAccount(Bound(), events);
      woken := waking.Resumed?;
      if !woken { Abandon(); }
      RunKeepsAccount(Bound(), events);
    }

    /** `wait_for_instance`, up to and including the connect that the accept starts with the
        instance: nothing suspends in between. The first create that is not retried decides,
        after `tries` that were: a busy one always is, unless the future is dropped in the
        sleep, and a refused one surfaces. */
    method WaitForInstance() returns (waited: Waited, ghost tries: nat)
      requires Valid() && phase.Quiet? && idle.None?
      modifies this
      ensures Valid() && old(events) <= events && idle == None
      ensures waited.Instance? ==> phase.AwaitingConnect? && pending == Some(waited.instance)
      ensures waited.Instance? ==> waited.instance == old(next) && next == old(next) + 1
      ensures !waited.Instance? ==> phase.Quiet? && pending == None && next == old(next)
      ensures Retried(old(creates), old(suspensions), tries) && creates == Skip(old(creates), tries + 1)
      ensures match AnswerAt(old(creates), tries)
              case Created => waited.Instance? && suspensions == Skip(old(suspensions), tries)
              case Busy => waited.Gone? && WakingAt(old(suspensions), tries).FutureDropped?
              case Refused => waited == if WakingAt(old(suspensions), tries).FutureDropped? then Gone else Errored
      ensures AnswerAt(old(creates), tries) != Created ==> suspensions == Skip(old(suspensions), tries + 1)
      ensures live == old(live) - EndedIn(old(suspensions), if waited.Instance? then tries else tries + 1)
    {
      RunKeepsAccount(Bound(), events);
      tries := 0;
      while true
        invariant Valid() && Accounted(View())
        invariant phase.Quiet? || phase.AwaitingRetry?
        invariant idle.None? && pending.None? && next == old(next)
        invariant old(events) <= events
        invariant Retried(old(creates), old(suspensions), tries)
        invariant creates == Skip(old(creates), tries) && suspensions == Skip(old(suspensions), tries)
        invariant live == old(live) - EndedIn(old(suspensions), tries)
        decreases |suspensions|
      {
        var answer := TryCreate();
        if answer == Created {
          return Instance(pending.value), tries;
        }
        EndedInOneMore(old(suspensions), tries);
        var ended := SleepOn(answer);
        if ended.Some? { return ended.value, tries; }
        tries := tries + 1;
      }
    }

    /** The pause after a create that made no instance, and how the loop ends there: it goes on
        after a busy one, and a refused one surfaces. */
    method SleepOn(answer: CreateAnswer) returns (ended: Option<Waited>)
      requires Valid() && Accounted(View()) && (answer == Busy || answer == Refused)
      requires phase == if answer == Busy then AwaitingRetry else AwaitingSurface
      modifies this
      ensures Valid() && Accounted(View()) && old(events) <= events
      ensures ended == if WakingAt(old(suspensions), 0).FutureDropped? then Some(Gone)
                       else if answer == Refused then Some(Errored) else None
      ensures phase == (if ended.None? then AwaitingRetry else Quiet) && idle == None && pending == None
      ensures suspensions == Skip(old(suspensions), 1) && creates == old(creates) && next == old(next)
      ensures live == old(live) - EndedIn(old(suspensions), 1)
    {
      var woken := Sleep();
      if !woken { return Some(Gone); }
      if answer == Busy { return None; }
      ghost var before := View();
      phase := Quiet;
      Record(Surface, before);
      return Some(Errored);
    }

    /** One create of the waiting loop. An instance that is made is stored and taken under
        the guard at once. */
    method TryCreate() returns (answer: CreateAnswer)
      requires Valid() && Accounted(View()) && Enabled(View(), Attempt(Created))
      requires idle.None? && pending.None?
      modifies this
      ensures Valid() && Accounted(View()) && events == old(events) + [Attempt(answer)]
      ensures idle == None && suspensions == old(suspensions) && live == old(live)
      ensures answer == AnswerAt(old(creates), 0) && creates == Skip(old(creates), 1)
      ensures answer == Created ==>
                phase.AwaitingConnect? && pending == Some(old(next)) && next == old(next) + 1
      ensures answer != Created ==> pending.None? && next == old(next)
      ensures answer == Busy ==> phase.AwaitingRetry?
      ensures answer == Refused ==> phase.AwaitingSurface?
    {
      ghost var before := View();
      answer := Create();
      match answer {
        case Created =>
          StoreIdle(next - 1);
          pending, idle := idle, None;
          phase := AwaitingConnect;
        case Busy => phase := AwaitingRetry;
        case Refused => phase := AwaitingSurface;
      }
      Record(Attempt(answer), before);
      RunKeepsAccount(Bound(), events);
    }

    /** The future is dropped: its guard goes with it. */
    method Abandon()
      requires Valid() && !phase.Quiet? && Accounted(View())
      modifies this
      ensures Valid() && phase.Quiet? && pending == None
      ensures idle == if old(pending).Some? then old(pending) else old(idle)
      ensures handles == old(handles) && live == old(live)
      ensures events == old(events) + [Cancel]
      ensures creates == old(creates) && suspensions == old(suspensions) && next == old(next)
    {
      ghost var before := View();
      CancelClosesNothing(before);
      DropGuard();
      phase := Quiet;
      Record(Cancel, before);
    }

    /** `accept`. Whatever the OS answers, wherever it is cancelled and whatever streams end
        meanwhile, it is a run of the accounting that leaves no instance under the guard, and
        no stream is dropped but those that end. With an instance listening it waits for a
        client on that one; without one it waits for one to be made, and then for a client. A
        stream is handed out exactly when a client connects, and it is the instance that was
        waited on. A listener that had an instance still has one unless it handed it out and
        the refill was not made: the same one, unless a failed connect has replaced it. */
    method Accept() returns (r: Accepted, ghost tries: nat)
      requires Valid() && phase.Quiet?
      modifies this
      ensures Valid() && phase.Quiet? && pending == None && old(events) <= events
      ensures old(idle).Some? ==> tries == 0
      ensures old(idle).None? ==> Retried(old(creates), old(suspensions), tries)
      ensures old(idle).None? && AnswerAt(old(creates), tries) != Created ==>
                && r == (if WakingAt(old(suspensions), tries).FutureDropped? then Cancelled else Failed)
                && (r == Failed ==> AnswerAt(old(creates), tries) == Refused)
                && idle == None && live == old(live) - EndedIn(old(suspensions), tries + 1)
      ensures old(idle).Some? || AnswerAt(old(creates), tries) == Created ==>
                var listening := if old(idle).Some? then old(idle).value else old(next);
                var create := AnswerAt(old(creates), if old(idle).Some? then 0 else tries + 1);
                && Decided(r, WakingAt(old(suspensions), tries), create, WakingAt(old(suspensions), tries + 1))
                && Leaves(r, listening, WakingAt(old(suspensions), tries), create)
                && old(live) - live <= EndedIn(old(suspensions), tries + 2)
                && live - old(live) == (if r.Stream? then {listening} else {})
    {
      RunKeepsAccount(Bound(), events);
      ghost var listening := if idle.Some? then idle.value else next;
      assert listening !in live;
      var waited;
      waited, tries := Listen();
      if waited.Gone? { return Cancelled, tries; }
      if waited.Errored? { return Failed, tries; }
      EndedInTwoMore(old(suspensions), tries);
      r := AwaitClient();
    }

    /** The connect of `accept`, on the instance under the guard. */
    method AwaitClient() returns (r: Accepted)
      requires Valid() && phase.AwaitingConnect? && pending.Some? && Accounted(View())
      modifies this
      ensures Valid() && phase.Quiet? && pending == None && old(events) <= events
      ensures Decided(r, WakingAt(old(suspensions), 0), AnswerAt(old(creates), 0), WakingAt(old(suspensions), 1))
      ensures Leaves(r, old(pending).value, WakingAt(old(suspensions), 0), AnswerAt(old(creates), 0))
      ensures old(live) - live <= EndedIn(old(suspensions), 2)
      ensures live - old(live) == (if r.Stream? then {old(pending).value} else {})
    {
      EndedInOneMore(old(suspensions), 1);
      var waking := Suspend();
      RunKeepsAccount(Bound(), events);
      if waking.FutureDropped? {
        Abandon();
        return Cancelled;
      }
      if waking.ok {
        var stream := Claim();
        return Stream(stream);
      }
      r := FailedConnect();
    }

    /** What an accept that had this instance listening leaves behind. */
    predicate Leaves(r: Accepted, listening: Handle, connect: Waking, create: CreateAnswer)
      reads this
    {
      match connect
      case FutureDropped => idle == Some(listening)
      case Resumed(true) => r == Stream(listening) && idle == (if create == Created then Some(next - 1) else None)
      case Resumed(false) => idle == Some(if create == Created then next - 1 else listening)
    }

    /** Make sure something is listening, and take it out under the guard. */
    method Listen() returns (waited: Waited, ghost tries: nat)
      requires Valid() && phase.Quiet?
      modifies this
      ensures Valid() && Accounted(View()) && old(events) <= events && idle == None
      ensures waited.Instance? ==> phase.AwaitingConnect? && pending == Some(waited.instance)
      ensures old(idle).Some? ==>
                && waited == Instance(old(idle).value) && tries == 0 && next == old(next)
                && creates == old(creates) && suspensions == old(suspensions) && live == old(live)
      ensures old(idle).None? ==>
                && Retried(old(creates), old(suspensions), tries) && creates == Skip(old(creates), tries + 1)
                && live == old(live) - EndedIn(old(suspensions), if waited.Instance? then tries else tries + 1)
      ensures old(idle).None? && AnswerAt(old(creates), tries) == Created ==>
                && waited == Instance(old(next)) && next == old(next) + 1
                && suspensions == Skip(old(suspensions), tries)
      ensures old(idle).None? && AnswerAt(old(creates), tries) != Created ==>
                && waited == (if WakingAt(old(suspensions), tries).FutureDropped? then Gone else Errored)
                && (waited == Errored ==> AnswerAt(old(creates), tries) == Refused)
                && phase.Quiet? && pending == None
    {
      RunKeepsAccount(Bound(), events);
      if idle.None? {
        waited, tries := WaitForInstance();
        RunKeepsAccount(Bound(), events);
      } else {
        ghost var before := View();
        waited, tries := Instance(idle.value), 0;
        pending, idle := idle, None;
        phase := AwaitingConnect;
        Record(Take, before);
        RunKeepsAccount(Bound(), events);
        assert EndedIn(old(suspensions), 0) == {};
      }
    }

    /** A client connected: claim the instance and try once to replace it. */
    method Claim() returns (connected: Handle)
      requires Valid() && phase.AwaitingConnect? && Accounted(View())
      modifies this
      ensures Valid() && phase.Quiet? && pending == None && old(events) <= events
      ensures Some(connected) == old(pending) && live == old(live) + {connected}
      ensures idle == if AnswerAt(old(creates), 0) == Created then Some(next - 1) else None
    {
      ghost var before := View();
      connected := pending.value;
      pending := None;
      live := live + {connected};
      var refill := Create();
      if refill == Created {
        StoreIdle(next - 1);
      }
      phase := Quiet;
      Record(ConnectOk(refill), before);
    }

    /** The failed-`connect` arm of `accept`: a replacement that can be made is listening
        when the error is returned; otherwise the failed instance is, after a pause. */
    method FailedConnect() returns (r: Accepted)
      requires Valid() && phase.AwaitingConnect? && Accounted(View())
      modifies this
      ensures Valid() && phase.Quiet? && pending == None && old(events) < events
      ensures AnswerAt(old(creates), 0) == Created ==>
                r == Failed && idle == Some(next - 1) && live == old(live) && suspensions == old(suspensions)
      ensures AnswerAt(old(creates), 0) != Created ==>
                && r == (if WakingAt(old(suspensions), 0).FutureDropped? then Cancelled else Failed)
                && idle == old(pending) && live == old(live) - EndedIn(old(suspensions), 1)
    {
      ghost var before := View();
      var replacement := Create();
      if replacement == Created {
        handles := handles - Held(pending);
        pending := Some(next - 1);
        DropGuard();
        phase := Quiet;
        Record(ConnectErr(Created), before);
        return Failed;
      }
      phase := AwaitingPace;
      Record(ConnectErr(replacement), before);
      RunKeepsAccount(Bound(), events);
      var waking := Suspend();
      RunKeepsAccount(Bound(), events);
      if waking.FutureDropped? {
        Abandon();
        return Cancelled;
      }
      before := View();
      DropGuard();
      phase := Quiet;
      Record(PaceOver, before);
      return Failed;
    }
  }
}
