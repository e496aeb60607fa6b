/** The verbs of src/capture.rs and the swap of src/swap.rs, statement by statement, on the
    shared machine: every call is a run of the protocol, whatever the other processes do
    between two reads or writes and whichever keychain or file read or write fails.

    What the others do comes from a script, one batch of steps for each point at which a verb
    can be interrupted; a step of a batch that cannot happen, or that would be the verb's own,
    is skipped. Whether a read or a write succeeds comes from a list of answers. */
module Machine {
  import opened Wrappers
  import opened Roster
  import opened Protocol

  datatype VerbError =
    | SwapLockBusy
    | NoIdentity
    | NoToken
    | ReadFailed
    | StashUnreadable
    | Malformed
    | WrongIdentity
    | WriteFailed

  /** Neither a stash nor the active pair nor the roster is changed. */
  predicate Untouched(s: State, t: State) {
    && t.canonical == s.canonical && t.display == s.display
    && t.creds == s.creds && t.idents == s.idents && t.config == s.config
  }

  /** What a capture or a login has landed: the roster to save, and the pair it stashed. */
  datatype Report = Report(planned: seq<Account>, outcome: CaptureOutcome, under: Uuid, token: Token)

  /** What a swap has done: the token it put away, what it made active, whether the display
      write landed, and what the canonical item held when it was read again, if it could be. */
  datatype SwapReport = SwapReport(stashed: Token, installed: Active, landed: bool, reread: Option<Token>) {
    predicate Confirmed() {
      reread == Some(installed.token)
    }
  }

  datatype LoginReport = LoginReport(report: Report, activated: bool, landed: bool, signalled: bool)

  /** The steps of one process, in order. */
  ghost function Own(actions: seq<Action>, p: Pid): seq<Action> {
    if actions == [] then []
    else
      var last := actions[|actions| - 1];
      Own(actions[..|actions| - 1], p) + (if Actor(last) == Some(p) then [last] else [])
  }

  /** The steps a process has taken, with those of a verb that succeeds added to them: first
      the parts the verbs share, then each verb from taking the lock to releasing it. */
  function ThenStashed(own: seq<Action>, p: Pid): seq<Action> {
    own + [WriteCredential(p)] + [WriteIdentity(p)]
  }

  function ThenActive(own: seq<Action>, p: Pid, landed: bool): seq<Action> {
    own + [Repoint(p)] + [CoWrite(p, landed)]
  }

  function ThenCaptured(own: seq<Action>, p: Pid): seq<Action> {
    ThenStashed(own + [Acquire(p)] + [ReadIdentity(p)] + [ReadToken(p)], p) + [Release(p)]
  }

  function LoginRest(own: seq<Action>, p: Pid, activate: bool, landed: bool): seq<Action> {
    var stashed := ThenStashed(own + [PlanLogin(p)], p);
    (if activate then ThenActive(stashed, p, landed) else stashed) + [Release(p)]
  }

  function ThenLoggedIn(own: seq<Action>, p: Pid, activate: bool, landed: bool): seq<Action> {
    LoginRest(own + [Acquire(p)], p, activate, landed)
  }

  function ThenSwapped(own: seq<Action>, p: Pid, landed: bool): seq<Action> {
    ThenActive(ThenStashed(own + [Acquire(p)] + [ReadOutgoing(p)] + [ReadStashes(p)], p), p, landed) + [Release(p)]
  }

  /** An account that its own stash now holds, and the roster that goes with it. */
  predicate Landed(s: State, existing: seq<Account>, handle: Option<string>, report: Report) {
    && PlanResult(existing, report.under) == Ok((StashName(report.under), report.outcome))
    && report.planned == Planned(existing, report.under, handle)
    && Readable(s, report.under) && s.creds[report.under] == report.token && s.idents[report.under] == report.under
  }

  /** Milliseconds. */
  const SWAP_LOCK_MAX_WAIT := 10_000
  const SWAP_LOCK_RETRY := 50

  /** How the next read or write ends: it succeeds once the list of answers has run out. */
  predicate First(answers: seq<bool>) {
    answers == [] || answers[0]
  }

  function Rest(answers: seq<bool>): seq<bool> {
    if answers == [] then [] else answers[1..]
  }

  /** What the others make of a state with one batch of steps: those that can happen and are
      not the verb's own happen. */
  function AfterBatch(s: State, batch: seq<Action>, p: Pid): State {
    if batch == [] then s
    else
      var t, last := AfterBatch(s, batch[..|batch| - 1], p), batch[|batch| - 1];
      if Actor(last) != Some(p) && Enabled(t, last) then Next(t, last) else t
  }

  lemma LockHeldAfter(s: State, actions: seq<Action>)
    requires AtRest(s) && Run(s, actions).Some?
    ensures LockHeld(Run(s, actions).value)
  {
    LockHeldThroughout(s, actions, |actions|);
    EndsOfRun(s, actions);
  }

  class Machine {
    var lock: Option<Pid>
    var canonical: Option<Token>
    var display: Option<Uuid>
    var creds: map<Uuid, Token>
    var idents: map<Uuid, Uuid>
    var config: Option<seq<Account>>
    var procs: map<Pid, Proc>          // where everybody is, the verb that runs here included
    var script: seq<seq<Action>>       // what the others do, batch by batch
    var answers: seq<bool>             // whether each read or write succeeds
    ghost const initial: State
    ghost var actions: seq<Action>     // what has happened since the machine was at rest
    ghost var turns: nat               // how often the others have had a turn

    function View(): State
      reads this
    {
      State(lock, canonical, display, creds, idents, config, procs)
    }

    /** The fields are where the recorded steps lead, from a machine at rest. */
    ghost predicate Valid()
      reads this
    {
      AtRest(initial) && Run(initial, actions) == Some(View())
    }

    /** The process is at this stage, and holds the lock exactly when the stage does. */
    predicate Stands(p: Pid, verb: Verb, existing: seq<Account>, stage: Stage)
      reads this
    {
      && p in procs && procs[p].verb == verb && procs[p].existing == existing && procs[p].stage == stage
      && (HoldsLock(stage) <==> lock == Some(p))
    }

    constructor (canonical: Option<Token>, display: Option<Uuid>, creds: map<Uuid, Token>, idents: map<Uuid, Uuid>,
                 config: Option<seq<Account>>, script: seq<seq<Action>>, answers: seq<bool>)
      ensures Valid() && actions == [] && this.script == script && this.answers == answers
      ensures View() == State(None, canonical, display, creds, idents, config, map[])
    {
      lock := None;
      this.canonical, this.display, this.creds, this.idents := canonical, display, creds, idents;
      this.config, this.script, this.answers := config, script, answers;
      procs, actions, turns := map[], [], 0;
      initial := State(None, canonical, display, creds, idents, config, map[]);
    }

    /** Record one more step, given that the other fields now are what it makes of them. */
    method Record(a: Action, before: State)
      requires AtRest(initial) && Run(initial, actions) == Some(before) && Enabled(before, a)
      requires procs == before.procs && View() == Next(before, a).(procs := procs)
      modifies this`actions, this`procs
      ensures Valid() && View() == Next(before, a) && actions == old(actions) + [a]
      ensures forall q: Pid :: Own(actions, q) == old(Own(actions, q)) + (if Actor(a) == Some(q) then [a] else [])
      ensures LockHeld(View())
    {
      assert (actions + [a])[..|actions|] == actions;
      actions := actions + [a];
      procs := ProcsAfter(before, a);
      LockHeldAfter(initial, actions);
    }

    /** The canonical token belongs to whom it did, if it is still there. */
    predicate SameOwner(before: Option<Token>)
      reads this
    {
      canonical.Some? ==> before.Some? && canonical.value.owner == before.value.owner
    }

    /** One step of somebody else, or none. */
    method TakeStep(a: Action, p: Pid)
      requires Valid()
      modifies this`lock, this`canonical, this`display, this`creds, this`idents, this`config, this`procs, this`actions
      ensures Valid() && Own(actions, p) == old(Own(actions, p))
      ensures View() == AfterBatch(old(View()), [a], p)
      ensures (p in procs <==> p in old(procs)) && (p in procs ==> procs[p] == old(procs)[p])
      ensures lock == Some(p) <==> old(lock) == Some(p)
      ensures lock == Some(p) ==> creds == old(creds) && idents == old(idents) && SameOwner(old(canonical))
    {
      assert [a][..0] == [];
      LockHeldAfter(initial, actions);
      if Actor(a) == Some(p) || !Enabled(View(), a) { return; }
      var before := View();
      StepFrame(before, a, p);
      var after := Next(before, a);
      assert Lawful(before, p);
      if lock == Some(p) { OthersRespectTheLock(before, a, p); }
      lock, canonical, display := after.lock, after.canonical, after.display;
      creds, idents, config := after.creds, after.idents, after.config;
      Record(a, before);
      assert Lawful(View(), p);
    }

    /** A point at which the verb can be interrupted. */
    method Others(p: Pid)
      requires Valid()
      modifies this
      ensures Valid() && Own(actions, p) == old(Own(actions, p))
      ensures (p in procs <==> p in old(procs)) && (p in procs ==> procs[p] == old(procs)[p])
      ensures lock == Some(p) <==> old(lock) == Some(p)
      ensures lock == Some(p) ==> creds == old(creds) && idents == old(idents) && SameOwner(old(canonical))
      ensures answers == old(answers) && turns == old(turns) + 1
      ensures old(script) == [] ==> script == [] && View() == old(View())
      ensures old(script) != [] ==>
                script == old(script)[1..] && View() == AfterBatch(old(View()), old(script)[0], p)
    {
      turns := turns + 1;
      if script == [] { return; }
      var batch := script[0];
      script := script[1..];
      for k := 0 to |batch|
        invariant script == old(script)[1..] && turns == old(turns) + 1
        invariant View() == AfterBatch(old(View()), batch[..k], p)
        invariant Valid() && Own(actions, p) == old(Own(actions, p))
        invariant (p in procs <==> p in old(procs)) && (p in procs ==> procs[p] == old(procs)[p])
        invariant lock == Some(p) <==> old(lock) == Some(p)
        invariant lock == Some(p) ==> creds == old(creds) && idents == old(idents) && SameOwner(old(canonical))
        invariant answers == old(answers)
      {
        assert batch[..k + 1][..k] == batch[..k];
        TakeStep(batch[k], p);
      }
      assert batch[..|batch|] == batch;
    }

    /** A point at which a verb that holds the lock can be interrupted. */
    method Pause(p: Pid, verb: Verb, existing: seq<Account>, stage: Stage)
      requires Valid() && Stands(p, verb, existing, stage) && HoldsLock(stage)
      modifies this
      ensures Valid() && Stands(p, verb, existing, stage) && Own(actions, p) == old(Own(actions, p))
      ensures creds == old(creds) && idents == old(idents) && SameOwner(old(canonical)) && answers == old(answers)
      ensures turns == old(turns) + 1
      ensures old(script) == [] ==> script == [] && View() == old(View())
    {
      Others(p);
    }

    /** Whether the next read or write succeeds. */
    method Succeeds() returns (ok: bool)
      modifies this`answers
      ensures ok == First(old(answers)) && answers == Rest(old(answers))
    {
      if answers == [] { return true; }
      ok, answers := answers[0], answers[1..];
    }

    // --- the parts the verbs share ---

    /** `SwapLock::acquire`: a lock that stays contended as long as the verb may wait, two
        hundred polls, is refused. Then its own only step is the refusal, which reads and writes nothing; and
        while nobody else does anything, nothing at all changes. */
    method TakeLock(p: Pid, verb: Verb, existing: seq<Account>, stage: Stage) returns (ok: bool)
      requires Valid() && Stands(p, verb, existing, stage) && WantsLock(procs[p])
      modifies this
      ensures Valid() && (old(lock).None? ==> ok)
      ensures if ok then old(turns) <= turns <= old(turns) + 200 else turns == old(turns) + 200
      ensures ok ==> Stands(p, verb, existing, Locked(stage.Gated? && stage.activate))
                     && Own(actions, p) == old(Own(actions, p)) + [Acquire(p)]
      ensures !ok ==> p !in procs && lock.Some? && Own(actions, p) == old(Own(actions, p)) + [Refuse(p)]
      ensures old(lock).Some? && old(script) == [] ==> !ok && View() == old(View()).(procs := old(procs) - {p})
      ensures answers == old(answers)
      ensures old(script) == [] ==> script == [] && View() == old(View()).(lock := lock, procs := procs)
    {
      var waited := 0;
      while lock.Some? && waited < SWAP_LOCK_MAX_WAIT
        invariant Valid() && Stands(p, verb, existing, stage) && Own(actions, p) == old(Own(actions, p))
        invariant old(lock).None? ==> lock.None?
        invariant answers == old(answers) && waited == (turns - old(turns)) * SWAP_LOCK_RETRY
        invariant old(turns) <= turns <= old(turns) + 200
        invariant old(script) == [] ==> script == [] && View() == old(View())
      {
        Others(p);
        waited := waited + SWAP_LOCK_RETRY;
      }
      ok := TryLock(p, verb, existing, stage);
    }

    /** The lock, and the first interruption under it. */
    method Enter(p: Pid, verb: Verb, existing: seq<Account>, stage: Stage) returns (ok: bool)
      requires Valid() && Stands(p, verb, existing, stage) && WantsLock(procs[p])
      modifies this
      ensures Valid() && answers == old(answers)
      ensures ok ==> old(turns) < turns
      ensures ok ==> Stands(p, verb, existing, Locked(stage.Gated? && stage.activate))
                     && Own(actions, p) == old(Own(actions, p)) + [Acquire(p)]
      ensures !ok ==> p !in procs && lock.Some? && Own(actions, p) == old(Own(actions, p)) + [Refuse(p)]
      ensures old(script) == [] ==> script == [] && (ok <==> old(lock).None?)
      ensures old(script) == [] ==> View() == old(View()).(lock := lock, procs := procs)
      ensures old(script) == [] && !ok ==> View() == old(View()).(procs := old(procs) - {p})
    {
      hide Own, Run;
      ok := TakeLock(p, verb, existing, stage);
      if ok { Pause(p, verb, existing, Locked(stage.Gated? && stage.activate)); }
    }

    /** One attempt on the lock. */
    method TryLock(p: Pid, verb: Verb, existing: seq<Account>, stage: Stage) returns (ok: bool)
      requires Valid() && Stands(p, verb, existing, stage) && WantsLock(procs[p])
      modifies this`lock, this`procs, this`actions
      ensures Valid() && (ok <==> old(lock).None?)
      ensures View() == old(View()).(lock := lock, procs := procs)
      ensures ok ==> Stands(p, verb, existing, Locked(stage.Gated? && stage.activate))
                     && Own(actions, p) == old(Own(actions, p)) + [Acquire(p)]
      ensures !ok ==> View() == old(View()).(procs := old(procs) - {p})
                      && Own(actions, p) == old(Own(actions, p)) + [Refuse(p)]
    {
      var before := View();
      if lock.Some? {
        Record(Refuse(p), before);
        return false;
      }
      lock := Some(p);
      Record(Acquire(p), before);
      return true;
    }

    /** An error return: the guard is dropped, and nothing is put back. */
    method Fail(p: Pid)
      requires Valid() && p in procs
      modifies this`lock, this`procs, this`actions
      ensures Valid() && p !in procs
      ensures View() == old(View()).(lock := lock, procs := procs)
      ensures lock == if old(lock) == Some(p) then None else old(lock)
      ensures Own(actions, p) == old(Own(actions, p)) + [Stop(p)]
    {
      var before := View();
      if lock == Some(p) { lock := None; }
      Record(Stop(p), before);
    }

    /** The write of the credential item. */
    method PutCredential(p: Pid, verb: Verb, existing: seq<Account>, under: Uuid, token: Token, target: Option<Active>)
      returns (ok: bool)
      requires Valid() && Stands(p, verb, existing, Holding(under, token, target))
      requires verb.SwapVerb? || !Violates(under)
      modifies this`lock, this`creds, this`procs, this`actions, this`answers
      ensures Valid()
      ensures ok == First(old(answers)) && answers == Rest(old(answers))
      ensures ok ==>
                && Stands(p, verb, existing, HalfStashed(under, token, target))
                && creds == old(creds)[under := token]
                && Own(actions, p) == old(Own(actions, p)) + [WriteCredential(p)]
      ensures !ok ==> p !in procs && creds == old(creds) && Own(actions, p) == old(Own(actions, p)) + [Stop(p)]
    {
      ok := Succeeds();
      if !ok { Fail(p); return; }
      var before := View();
      creds := creds[under := token];
      Record(WriteCredential(p), before);
      assert Lawful(View(), p);
    }

    /** The write of the identity item. A swap writes back the identity it has read. */
    method PutIdentity(p: Pid, verb: Verb, existing: seq<Account>, under: Uuid, token: Token, target: Option<Active>,
                       identity: Uuid)
      returns (ok: bool)
      requires Valid() && Stands(p, verb, existing, HalfStashed(under, token, target))
      requires if verb.SwapVerb? then under in idents && identity == idents[under] else identity == under
      modifies this`lock, this`idents, this`procs, this`actions, this`answers
      ensures Valid()
      ensures ok == First(old(answers)) && answers == Rest(old(answers))
      ensures ok ==>
                && Stands(p, verb, existing, FullyStashed(under, token, target))
                && idents == old(idents)[under := identity]
                && Own(actions, p) == old(Own(actions, p)) + [WriteIdentity(p)]
      ensures !ok ==> p !in procs && idents == old(idents) && Own(actions, p) == old(Own(actions, p)) + [Stop(p)]
    {
      ok := Succeeds();
      if !ok { Fail(p); return; }
      var before := View();
      idents := idents[under := identity];
      Record(WriteIdentity(p), before);
      assert Lawful(View(), p);
    }

    /** The credential item of the stash. */
    method AddCredential(p: Pid, verb: Verb, existing: seq<Account>, under: Uuid, token: Token, target: Option<Active>)
      returns (ok: bool)
      requires Valid() && Stands(p, verb, existing, Holding(under, token, target))
      requires verb.SwapVerb? || !Violates(under)
      modifies this
      ensures Valid() && idents == old(idents) && ok == First(old(answers)) && answers == Rest(old(answers))
      ensures turns == old(turns) + 1
      ensures old(script) == [] ==>
                script == [] && canonical == old(canonical) && display == old(display) && config == old(config)
      ensures ok ==>
                && Stands(p, verb, existing, HalfStashed(under, token, target))
                && creds == old(creds)[under := token]
                && Own(actions, p) == old(Own(actions, p)) + [WriteCredential(p)]
      ensures !ok ==> p !in procs && Own(actions, p) == old(Own(actions, p)) + [Stop(p)]
    {
      hide Own, Run;
      Pause(p, verb, existing, Holding(under, token, target));
      ok := PutCredential(p, verb, existing, under, token, target);
    }

    /** The identity item of the stash. */
    method AddIdentity(p: Pid, verb: Verb, existing: seq<Account>, under: Uuid, token: Token, target: Option<Active>,
                       identity: Uuid)
      returns (ok: bool)
      requires Valid() && Stands(p, verb, existing, HalfStashed(under, token, target))
      requires if verb.SwapVerb? then under in idents && identity == idents[under] else identity == under
      modifies this
      ensures Valid() && creds == old(creds) && ok == First(old(answers)) && answers == Rest(old(answers))
      ensures turns == old(turns) + 1
      ensures old(script) == [] ==>
                script == [] && canonical == old(canonical) && display == old(display) && config == old(config)
      ensures ok ==>
                && Stands(p, verb, existing, FullyStashed(under, token, target))
                && idents == old(idents)[under := identity]
                && Own(actions, p) == old(Own(actions, p)) + [WriteIdentity(p)]
      ensures !ok ==> p !in procs && Own(actions, p) == old(Own(actions, p)) + [Stop(p)]
    {
      hide Own, Run;
      Pause(p, verb, existing, HalfStashed(under, token, target));
      ok := PutIdentity(p, verb, existing, under, token, target, identity);
    }

    /** `RealAccountStash::write`: the credential item, then the identity item. A failure
        between the two leaves the first behind. */
    method StashWrite(p: Pid, verb: Verb, existing: seq<Account>, under: Uuid, token: Token, target: Option<Active>,
                      identity: Uuid)
      returns (ok: bool)
      requires Valid() && Stands(p, verb, existing, Holding(under, token, target))
      requires if verb.SwapVerb? then under in idents && identity == idents[under]
               else identity == under && !Violates(under)
      modifies this
      ensures Valid()
      ensures ok ==> turns == old(turns) + 2
      ensures old(answers) == [] ==> ok && answers == []
      ensures old(script) == [] ==>
                script == [] && canonical == old(canonical) && display == old(display) && config == old(config)
      ensures ok ==>
                && Stands(p, verb, existing, FullyStashed(under, token, target))
                && creds == old(creds)[under := token] && idents == old(idents)[under := identity]
                && Own(actions, p) == ThenStashed(old(Own(actions, p)), p)
      ensures !ok ==>
                && p !in procs
                && (Own(actions, p) == old(Own(actions, p)) + [Stop(p)]
                    || Own(actions, p) == old(Own(actions, p)) + [WriteCredential(p)] + [Stop(p)])
    {
      hide Own, Run, Valid;
      ok := AddCredential(p, verb, existing, under, token, target);
      if !ok { return; }
      ok := AddIdentity(p, verb, existing, under, token, target, identity);
    }

    /** The canonical write, then the best-effort display write. */
    method MakeActive(p: Pid, verb: Verb, existing: seq<Account>, under: Uuid, token: Token, active: Active)
      returns (ok: bool, landed: bool)
      requires Valid() && Stands(p, verb, existing, FullyStashed(under, token, Some(active)))
      modifies this
      ensures Valid()
      ensures if ok then turns == old(turns) + 1 else !landed
      ensures old(answers) == [] ==> ok && landed && answers == []
      ensures old(script) == [] ==> script == [] && config == old(config)
      ensures old(script) == [] && ok ==>
                canonical == Some(active.token) && display == if landed then Some(active.uuid) else old(display)
      ensures ok ==>
                && Stands(p, verb, existing, Finishing(under))
                && creds == old(creds) && idents == old(idents)
                && SameOwner(Some(active.token)) && (landed ==> display == Some(active.uuid))
                && Own(actions, p) == ThenActive(old(Own(actions, p)), p, landed)
      ensures !ok ==> p !in procs && Own(actions, p) == old(Own(actions, p)) + [Stop(p)]
    {
      hide Own, Run, Valid;
      landed := false;
      ok := WriteCanonical(p, verb, existing, under, token, active);
      if !ok { return; }
      landed := CoWriteLater(p, verb, existing, under, active);
    }

    /** The display write, after one more interruption. */
    method CoWriteLater(p: Pid, verb: Verb, existing: seq<Account>, under: Uuid, active: Active)
      returns (landed: bool)
      requires Valid() && Stands(p, verb, existing, Repointed(under, active))
      modifies this
      ensures Valid() && Stands(p, verb, existing, Finishing(under))
      ensures turns == old(turns) + 1
      ensures creds == old(creds) && idents == old(idents) && SameOwner(old(canonical))
      ensures landed == First(old(answers)) && answers == Rest(old(answers))
      ensures landed ==> display == Some(active.uuid)
      ensures old(script) == [] ==> script == [] && canonical == old(canonical) && config == old(config)
      ensures old(script) == [] && !landed ==> display == old(display)
      ensures Own(actions, p) == old(Own(actions, p)) + [CoWrite(p, landed)]
    {
      hide Own, Run;
      Pause(p, verb, existing, Repointed(under, active));
      landed := CoWriteDisplay(p, verb, existing, under, active);
    }

    /** The best-effort half: `landed` says whether the display was written. */
    method CoWriteDisplay(p: Pid, verb: Verb, existing: seq<Account>, under: Uuid, active: Active)
      returns (landed: bool)
      requires Valid() && Stands(p, verb, existing, Repointed(under, active))
      modifies this`display, this`procs, this`actions, this`answers
      ensures Valid() && Stands(p, verb, existing, Finishing(under))
      ensures landed == First(old(answers)) && answers == Rest(old(answers))
      ensures display == if landed then Some(active.uuid) else old(display)
      ensures Own(actions, p) == old(Own(actions, p)) + [CoWrite(p, landed)]
    {
      landed := Succeeds();
      var before := View();
      if landed { display := Some(active.uuid); }
      Record(CoWrite(p, landed), before);
      assert Lawful(View(), p);
    }

    method WriteCanonical(p: Pid, verb: Verb, existing: seq<Account>, under: Uuid, token: Token, active: Active)
      returns (ok: bool)
      requires Valid() && Stands(p, verb, existing, FullyStashed(under, token, Some(active)))
      modifies this`lock, this`canonical, this`procs, this`actions, this`answers
      ensures Valid()
      ensures ok == First(old(answers)) && answers == Rest(old(answers))
      ensures ok ==>
                && Stands(p, verb, existing, Repointed(under, active)) && canonical == Some(active.token)
                && Own(actions, p) == old(Own(actions, p)) + [Repoint(p)]
      ensures !ok ==> p !in procs && Own(actions, p) == old(Own(actions, p)) + [Stop(p)]
    {
      ok := Succeeds();
      if !ok { Fail(p); return; }
      var before := View();
      canonical := Some(active.token);
      Record(Repoint(p), before);
      assert Lawful(View(), p);
    }

    /** The guard is dropped on return, after one more interruption, and the plan goes to the
        caller, who is to save it. */
    method ReleaseWith(p: Pid, verb: Verb, existing: seq<Account>, stage: Stage)
      requires Valid() && Stands(p, verb, existing, stage) && !verb.SwapVerb?
      requires stage.Finishing? || (stage.FullyStashed? && stage.target.None?)
      modifies this
      ensures Valid() && Stands(p, verb, existing, Released(Planned(existing, stage.under, HandleOf(verb))))
      ensures turns == old(turns) + 1
      ensures creds == old(creds) && idents == old(idents) && answers == old(answers) && lock.None?
      ensures old(script) == [] ==>
                script == [] && canonical == old(canonical) && display == old(display) && config == old(config)
      ensures Own(actions, p) == old(Own(actions, p)) + [Release(p)]
    {
      hide Own, Run;
      Pause(p, verb, existing, stage);
      var before := View();
      lock := None;
      Record(Release(p), before);
    }

    /** The roster save, after the lock is released. */
    method SaveRoster(p: Pid, verb: Verb, existing: seq<Account>, planned: seq<Account>) returns (ok: bool)
      requires Valid() && Stands(p, verb, existing, Released(planned))
      modifies this`lock, this`config, this`procs, this`actions, this`answers
      ensures Valid() && p !in procs && lock == old(lock)
      ensures ok == First(old(answers)) && answers == Rest(old(answers))
      ensures ok ==> config == Some(planned) && Own(actions, p) == old(Own(actions, p)) + [Save(p)]
      ensures !ok ==> config == old(config) && Own(actions, p) == old(Own(actions, p)) + [Stop(p)]
    {
      ok := Succeeds();
      if !ok { Fail(p); return; }
      var before := View();
      config := Some(planned);
      Record(Save(p), before);
    }

    /** The save, after one more interruption. */
    method SaveLater(p: Pid, verb: Verb, existing: seq<Account>, planned: seq<Account>) returns (ok: bool)
      requires Valid() && Stands(p, verb, existing, Released(planned))
      modifies this
      ensures Valid() && p !in procs && ok == First(old(answers)) && answers == Rest(old(answers))
      ensures turns == old(turns) + 1
      ensures ok ==> config == Some(planned) && Own(actions, p) == old(Own(actions, p)) + [Save(p)]
      ensures !ok ==> Own(actions, p) == old(Own(actions, p)) + [Stop(p)]
      ensures old(script) == [] ==>
                && script == [] && canonical == old(canonical) && display == old(display)
                && creds == old(creds) && idents == old(idents)
    {
      hide Own, Run;
      Others(p);
      ok := SaveRoster(p, verb, existing, planned);
    }

    /** The plan is made on a copy of the roster that was parsed. */
    method PlanRoster(existing: seq<Account>, uuid: Uuid, handle: Option<string>)
      returns (plan: Result<(string, CaptureOutcome), PlanError>, planned: seq<Account>)
      ensures plan == PlanResult(existing, uuid) && planned == Planned(existing, uuid, handle)
    {
      var roster := new LiveRoster(existing);
      plan := roster.PlanCapture(uuid, handle);
      planned := roster.accounts;
    }

    // --- capture ---

    /** The identity is read first, so that nobody being logged in is found before the
        keychain is touched. */
    method ReadDisplayed(p: Pid, verb: Verb, existing: seq<Account>) returns (r: Result<Uuid, VerbError>)
      requires Valid() && Stands(p, verb, existing, Locked(false)) && verb.CaptureVerb?
      modifies this`lock, this`procs, this`actions, this`answers
      ensures Valid()
      ensures answers == Rest(old(answers))
      ensures r == if !First(old(answers)) then Err(ReadFailed)
                   else if display.None? then Err(NoIdentity) else Ok(display.value)
      ensures r.Ok? ==> lock == old(lock) && Stands(p, verb, existing, SawIdentity(r.value))
                        && Own(actions, p) == old(Own(actions, p)) + [ReadIdentity(p)]
      ensures r.Err? ==> p !in procs
    {
      var ok := Succeeds();
      if !ok { Fail(p); return Err(ReadFailed); }
      if display.None? { Fail(p); return Err(NoIdentity); }
      Record(ReadIdentity(p), View());
      return Ok(display.value);
    }

    method ReadCanonical(p: Pid, verb: Verb, existing: seq<Account>, seen: Uuid) returns (r: Result<Token, VerbError>)
      requires Valid() && Stands(p, verb, existing, SawIdentity(seen))
      modifies this`lock, this`procs, this`actions, this`answers
      ensures Valid()
      ensures answers == Rest(old(answers))
      ensures r == if !First(old(answers)) then Err(ReadFailed)
                   else if canonical.None? then Err(NoToken) else Ok(canonical.value)
      ensures r.Ok? ==> lock == old(lock) && Stands(p, verb, existing, Holding(seen, r.value, None))
                        && Own(actions, p) == old(Own(actions, p)) + [ReadToken(p)]
      ensures r.Err? ==> p !in procs
    {
      var ok := Succeeds();
      if !ok { Fail(p); return Err(ReadFailed); }
      if canonical.None? { Fail(p); return Err(NoToken); }
      Record(ReadToken(p), View());
      return Ok(canonical.value);
    }

    /** The two reads of `capture_locked`: the identity first, then the token. */
    method ReadPair(p: Pid, verb: Verb, existing: seq<Account>) returns (r: Result<(Uuid, Token), VerbError>)
      requires Valid() && Stands(p, verb, existing, Locked(false)) && verb.CaptureVerb?
      modifies this
      ensures Valid() && creds == old(creds) && idents == old(idents)
      ensures r.Ok? ==> turns == old(turns) + 1
      ensures old(answers) == [] ==> answers == []
      ensures old(script) == [] ==>
                script == [] && canonical == old(canonical) && display == old(display) && config == old(config)
      ensures old(script) == [] && old(answers) == [] ==>
                r == if display.None? then Err(NoIdentity) else if canonical.None? then Err(NoToken)
                     else Ok((display.value, canonical.value))
      ensures old(script) == [] && r.Ok? ==> display == Some(r.value.0) && canonical == Some(r.value.1)
      ensures r.Ok? ==>
                && Stands(p, verb, existing, Holding(r.value.0, r.value.1, None))
                && Own(actions, p) == old(Own(actions, p)) + [ReadIdentity(p)] + [ReadToken(p)]
      ensures r.Err? ==> p !in procs && r.error != SwapLockBusy
    {
      hide Own, Run;
      var seen := ReadDisplayed(p, verb, existing);
      if seen.Err? { return Err(seen.error); }
      Pause(p, verb, existing, SawIdentity(seen.value));
      var token := ReadCanonical(p, verb, existing, seen.value);
      if token.Err? { return Err(token.error); }
      return Ok((seen.value, token.value));
    }

    /** `capture_locked`. A capture that returns a report has taken exactly these steps, in
        this order; one that is refused the lock has done nothing else. */
    method CaptureLocked(p: Pid, existing: seq<Account>, handle: Option<string>) returns (r: Result<Report, VerbError>)
      requires Valid() && Stands(p, CaptureVerb(handle), existing, Parsed)
      modifies this
      ensures Valid()
      ensures r.Ok? ==> turns >= old(turns) + 5
      ensures r == Err(SwapLockBusy) ==> lock.Some? && Own(actions, p) == old(Own(actions, p)) + [Refuse(p)]
      ensures old(lock).Some? && old(script) == [] ==>
                r == Err(SwapLockBusy) && View() == old(View()).(procs := old(procs) - {p})
      ensures r.Err? ==> p !in procs
      ensures old(answers) == [] ==> answers == []
      ensures old(script) == [] ==>
                script == [] && canonical == old(canonical) && display == old(display) && config == old(config)
      ensures old(script) == [] && old(answers) == [] ==>
                (r.Ok? <==> && old(lock).None? && display.Some? && canonical.Some?
                            && !Violates(display.value))
      ensures old(script) == [] && old(answers) == [] && r.Err? ==>
                r.error == if old(lock).Some? then SwapLockBusy else if display.None? then NoIdentity
                           else if canonical.None? then NoToken else Malformed
      ensures old(script) == [] && r.Ok? ==>
                && display == Some(r.value.under) && canonical == Some(r.value.token) && lock.None?
                && creds == old(creds)[r.value.under := r.value.token]
                && idents == old(idents)[r.value.under := r.value.under]
      ensures r.Ok? ==>
                && Landed(View(), existing, handle, r.value)
                && Stands(p, CaptureVerb(handle), existing, Released(r.value.planned))
                && Own(actions, p) == ThenCaptured(old(Own(actions, p)), p)
      ensures old(script) == [] && r.Err? && r.error != WriteFailed ==> Untouched(old(View()), View())
    {
      hide Own, Run, Valid;
      var verb := CaptureVerb(handle);
      var ok := Enter(p, verb, existing, Parsed);
      if !ok { return Err(SwapLockBusy); }
      var pair := ReadPair(p, verb, existing);
      if pair.Err? { return Err(pair.error); }
      r := RunCapture(p, existing, handle, pair.value.0, pair.value.1);
    }

    /** `run_capture`, up to the release of the lock. */
    method RunCapture(p: Pid, existing: seq<Account>, handle: Option<string>, under: Uuid, token: Token)
      returns (r: Result<Report, VerbError>)
      requires Valid() && Stands(p, CaptureVerb(handle), existing, Holding(under, token, None))
      modifies this
      ensures Valid()
      ensures r.Ok? ==> turns == old(turns) + 3
      ensures r.Err? ==> p !in procs && r.error == if Violates(under) then Malformed else WriteFailed
      ensures old(answers) == [] ==> answers == [] && (r.Ok? <==> !Violates(under))
      ensures old(script) == [] ==>
                script == [] && canonical == old(canonical) && display == old(display) && config == old(config)
      ensures r.Ok? ==>
                && r.value.under == under && r.value.token == token && lock.None?
                && creds == old(creds)[under := token] && idents == old(idents)[under := under]
                && Landed(View(), existing, handle, r.value)
                && Stands(p, CaptureVerb(handle), existing, Released(r.value.planned))
                && Own(actions, p) == ThenStashed(old(Own(actions, p)), p) + [Release(p)]
      ensures r == Err(Malformed) ==> creds == old(creds) && idents == old(idents)
    {
      hide Own, Run;
      var plan, planned := PlanRoster(existing, under, handle);
      if plan.Err? { Fail(p); return Err(Malformed); }
      var ok := StashWrite(p, CaptureVerb(handle), existing, under, token, None, under);
      if !ok { return Err(WriteFailed); }
      ReleaseWith(p, CaptureVerb(handle), existing, FullyStashed(under, token, None));
      return Ok(Report(planned, plan.value.1, under, token));
    }

    /** `load_existing`: an absent file is an empty roster. */
    method BeginCaptureVerb(p: Pid, handle: Option<string>) returns (existing: seq<Account>)
      requires Valid() && p !in procs
      modifies this`procs, this`actions
      ensures Valid() && existing == RosterOn(config) && Stands(p, CaptureVerb(handle), existing, Parsed)
      ensures Own(actions, p) == old(Own(actions, p)) + [BeginCapture(p, handle)]
    {
      LockHeldAfter(initial, actions);
      assert Lawful(View(), p);
      existing := if config.Some? then config.value else [];
      Record(BeginCapture(p, handle), View());
    }

    /** The `capture` verb: one read of the roster, the locked part, and the save. */
    method Capture(p: Pid, handle: Option<string>) returns (r: Result<Report, VerbError>)
      requires Valid() && p !in procs
      modifies this
      ensures Valid() && p !in procs
      ensures r.Ok? ==> turns >= old(turns) + 7
      ensures r.Ok? ==>
                && config == Some(r.value.planned) && Rostered(r.value.planned, r.value.under)
                && r.value.planned == Planned(RosterOn(old(config)), r.value.under, handle)
                && Own(actions, p) == ThenCaptured(old(Own(actions, p)) + [BeginCapture(p, handle)], p) + [Save(p)]
      ensures old(script) == [] && old(answers) == [] ==>
                (r.Ok? <==> && old(lock).None? && old(display).Some? && old(canonical).Some?
                            && !Violates(old(display).value))
      ensures old(script) == [] && old(answers) == [] && r.Err? ==>
                r.error == if old(lock).Some? then SwapLockBusy else if old(display).None? then NoIdentity
                           else if old(canonical).None? then NoToken else Malformed
      ensures old(script) == [] && r.Ok? ==>
                && old(display) == Some(r.value.under) && old(canonical) == Some(r.value.token)
                && canonical == old(canonical) && display == old(display)
                && creds == old(creds)[r.value.under := r.value.token]
                && idents == old(idents)[r.value.under := r.value.under]
      ensures old(script) == [] && r.Err? && r.error != WriteFailed ==> Untouched(old(View()), View())
    {
      hide Own, Run;
      var existing := BeginCaptureVerb(p, handle);
      Others(p);
      r := CaptureLocked(p, existing, handle);
      if r.Err? { return; }
      var ok := SaveLater(p, CaptureVerb(handle), existing, r.value.planned);
      if !ok { return Err(WriteFailed); }
      PlannedNames(existing, r.value.under, handle);
    }

    // --- login ---

    /** `run_login_locked` around `run_login`. The stash is written before the canonical token
        is, and that is written before the display. */
    method RunLoginLocked(p: Pid, existing: seq<Account>, uuid: Uuid, harvest: Token, handle: Option<string>,
                          activate: bool)
      returns (r: Result<LoginReport, VerbError>)
      requires Valid() && Stands(p, LoginVerb(uuid, harvest, handle), existing, Gated(activate))
      modifies this
      ensures Valid()
      ensures r.Ok? ==> turns >= old(turns) + if activate then 6 else 4
      ensures r == Err(SwapLockBusy) ==> lock.Some? && Own(actions, p) == old(Own(actions, p)) + [Refuse(p)]
      ensures old(lock).Some? && old(script) == [] ==>
                r == Err(SwapLockBusy) && View() == old(View()).(procs := old(procs) - {p})
      ensures r.Err? ==> p !in procs
      ensures old(answers) == [] ==> answers == []
      ensures old(script) == [] ==> script == [] && config == old(config)
      ensures old(script) == [] && old(answers) == [] ==> (r.Ok? <==> old(lock).None? && !Violates(uuid))
      ensures old(script) == [] && old(answers) == [] && r.Err? ==>
                r.error == if old(lock).Some? then SwapLockBusy else Malformed
      ensures old(script) == [] && r.Ok? ==>
                && lock.None?
                && creds == old(creds)[uuid := harvest] && idents == old(idents)[uuid := uuid]
                && canonical == (if activate then Some(harvest) else old(canonical))
                && display == (if activate && r.value.landed then Some(uuid) else old(display))
      ensures old(answers) == [] && r.Ok? ==> r.value.landed == activate
      ensures r.Ok? ==>
                && r.value.report.under == uuid && r.value.report.token == harvest
                && r.value.activated == activate && !r.value.signalled
                && Landed(View(), existing, handle, r.value.report)
                && Stands(p, LoginVerb(uuid, harvest, handle), existing, Released(r.value.report.planned))
                && Own(actions, p) == ThenLoggedIn(old(Own(actions, p)), p, activate, r.value.landed)
      ensures old(script) == [] && r.Err? && r.error != WriteFailed ==> Untouched(old(View()), View())
    {
      hide Own, Run, Valid;
      var verb := LoginVerb(uuid, harvest, handle);
      var ok := Enter(p, verb, existing, Gated(activate));
      if !ok { return Err(SwapLockBusy); }
      r := RunLogin(p, existing, uuid, harvest, handle, activate);
    }

    /** The roster plan of `run_login`. */
    method PlanForLogin(p: Pid, existing: seq<Account>, uuid: Uuid, harvest: Token, handle: Option<string>,
                        activate: bool)
      returns (plan: Result<(string, CaptureOutcome), PlanError>, planned: seq<Account>)
      requires Valid() && Stands(p, LoginVerb(uuid, harvest, handle), existing, Locked(activate))
      modifies this`procs, this`actions
      ensures Valid()
      ensures Stands(p, LoginVerb(uuid, harvest, handle), existing,
                     Holding(uuid, harvest, if activate then Some(Active(uuid, harvest)) else None))
      ensures plan == PlanResult(existing, uuid) && planned == Planned(existing, uuid, handle)
      ensures Own(actions, p) == old(Own(actions, p)) + [PlanLogin(p)]
    {
      plan, planned := PlanRoster(existing, uuid, handle);
      Record(PlanLogin(p), View());
      assert Lawful(View(), p);
    }

    /** The roster plan, and then the stash: the first write of `run_login`. */
    method PlanAndStash(p: Pid, existing: seq<Account>, uuid: Uuid, harvest: Token, handle: Option<string>,
                        activate: bool)
      returns (r: Result<Report, VerbError>)
      requires Valid() && Stands(p, LoginVerb(uuid, harvest, handle), existing, Locked(activate))
      modifies this
      ensures Valid()
      ensures r.Ok? ==> turns == old(turns) + 2
      ensures r.Err? ==> p !in procs && r.error == if Violates(uuid) then Malformed else WriteFailed
      ensures old(answers) == [] ==> answers == [] && (r.Ok? <==> !Violates(uuid))
      ensures old(script) == [] ==>
                script == [] && canonical == old(canonical) && display == old(display) && config == old(config)
      ensures r.Ok? ==>
                && r.value.under == uuid && r.value.token == harvest
                && creds == old(creds)[uuid := harvest] && idents == old(idents)[uuid := uuid]
                && Landed(View(), existing, handle, r.value)
                && Stands(p, LoginVerb(uuid, harvest, handle), existing,
                          FullyStashed(uuid, harvest, if activate then Some(Active(uuid, harvest)) else None))
                && Own(actions, p) == ThenStashed(old(Own(actions, p)) + [PlanLogin(p)], p)
      ensures r == Err(Malformed) ==> creds == old(creds) && idents == old(idents)
    {
      hide Own, Run;
      var target := if activate then Some(Active(uuid, harvest)) else None;
      var plan, planned := PlanForLogin(p, existing, uuid, harvest, handle, activate);
      if plan.Err? { Fail(p); return Err(Malformed); }
      var ok := StashWrite(p, LoginVerb(uuid, harvest, handle), existing, uuid, harvest, target, uuid);
      if !ok { return Err(WriteFailed); }
      return Ok(Report(planned, plan.value.1, uuid, harvest));
    }

    /** `run_login`, up to the release of the lock. */
    method RunLogin(p: Pid, existing: seq<Account>, uuid: Uuid, harvest: Token, handle: Option<string>, activate: bool)
      returns (r: Result<LoginReport, VerbError>)
      requires Valid() && Stands(p, LoginVerb(uuid, harvest, handle), existing, Locked(activate))
      modifies this
      ensures Valid()
      ensures r.Ok? ==> turns == old(turns) + if activate then 5 else 3
      ensures r.Err? ==> p !in procs && r.error == if Violates(uuid) then Malformed else WriteFailed
      ensures old(answers) == [] ==>
                answers == [] && (r.Ok? <==> !Violates(uuid)) && (r.Ok? ==> r.value.landed == activate)
      ensures old(script) == [] ==> script == [] && config == old(config)
      ensures r.Ok? ==>
                lock.None? && creds == old(creds)[uuid := harvest] && idents == old(idents)[uuid := uuid]
      ensures old(script) == [] && r.Ok? ==>
                && canonical == (if activate then Some(harvest) else old(canonical))
                && display == (if activate && r.value.landed then Some(uuid) else old(display))
      ensures r.Ok? ==>
                && r.value.report.under == uuid && r.value.report.token == harvest
                && r.value.activated == activate && !r.value.signalled
                && Landed(View(), existing, handle, r.value.report)
                && Stands(p, LoginVerb(uuid, harvest, handle), existing, Released(r.value.report.planned))
                && Own(actions, p) ==
                     LoginRest(old(Own(actions, p)), p, activate, r.value.landed)
      ensures old(script) == [] && r == Err(Malformed) ==> Untouched(old(View()), View())
    {
      hide Own, Run, Valid;
      var verb := LoginVerb(uuid, harvest, handle);
      var report := PlanAndStash(p, existing, uuid, harvest, handle, activate);
      if report.Err? { return Err(report.error); }
      var landed := false;
      if activate {
        Pause(p, verb, existing, FullyStashed(uuid, harvest, Some(Active(uuid, harvest))));
        var ok;
        ok, landed := MakeActive(p, verb, existing, uuid, harvest, Active(uuid, harvest));
        if !ok { return Err(WriteFailed); }
        ReleaseWith(p, verb, existing, Finishing(uuid));
      } else {
        ReleaseWith(p, verb, existing, FullyStashed(uuid, harvest, None));
      }
      return Ok(LoginReport(report.value, activate, landed, false));
    }

    /** The gate: the account that logs in is to become active if it is the one displayed, or
        none is, or that cannot be read. */
    method ReadGate(p: Pid, existing: seq<Account>, uuid: Uuid, harvest: Token, handle: Option<string>)
      returns (activate: bool, read: bool)
      requires Valid() && Stands(p, LoginVerb(uuid, harvest, handle), existing, Parsed)
      modifies this`procs, this`actions, this`answers
      ensures Valid() && Stands(p, LoginVerb(uuid, harvest, handle), existing, Gated(activate))
      ensures read == First(old(answers)) && answers == Rest(old(answers))
      ensures activate <==> !read || display.None? || display.value == uuid
      ensures Own(actions, p) == old(Own(actions, p)) + [Gate(p, read)]
    {
      read := Succeeds();
      activate := !read || display.None? || display.value == uuid;
      Record(Gate(p, read), View());
      assert Lawful(View(), p);
    }

    /** `reconcile_login`. The gate is read before the lock; `read` says whether it
        could be. A revived account leaves its
        quarantine by exactly one way, the re-point of the canonical token or the signal to
        the daemon; a login that fails takes neither way through the signal. */
    method ReconcileLogin(p: Pid, existing: seq<Account>, uuid: Uuid, harvest: Token, handle: Option<string>)
      returns (r: Result<LoginReport, VerbError>, read: bool)
      requires Valid() && Stands(p, LoginVerb(uuid, harvest, handle), existing, Parsed)
      modifies this
      ensures Valid() && p !in procs
      ensures r.Ok? ==> turns >= old(turns) + if r.value.activated then 8 else 6
      ensures read == First(old(answers))
      ensures old(script) == [] && old(answers) == [] ==> (r.Ok? <==> old(lock).None? && !Violates(uuid))
      ensures old(script) == [] && old(answers) == [] && r.Err? ==>
                r.error == if old(lock).Some? then SwapLockBusy else Malformed
      ensures old(script) == [] && r.Ok? ==>
                && creds == old(creds)[uuid := harvest] && idents == old(idents)[uuid := uuid]
                && canonical == (if r.value.activated then Some(harvest) else old(canonical))
                && display == (if r.value.activated && r.value.landed then Some(uuid) else old(display))
      ensures r.Ok? ==>
                var report := r.value.report;
                && r.value.activated == (!read || old(display).None? || old(display).value == uuid)
                && config == Some(report.planned) && report.planned == Planned(existing, uuid, handle)
                && PlanResult(existing, uuid) == Ok((StashName(uuid), report.outcome))
                && Own(actions, p) ==
                     ThenLoggedIn(old(Own(actions, p)) + [Gate(p, read)], p, r.value.activated, r.value.landed)
                     + [Save(p)]
                && (r.value.signalled ==> report.outcome.Refreshed?)
                && (report.outcome.Refreshed? ==> (r.value.signalled <==> !r.value.activated))
      ensures old(script) == [] && r.Err? && r.error != WriteFailed ==> Untouched(old(View()), View())
    {
      hide Own, Run, Valid;
      var verb := LoginVerb(uuid, harvest, handle);
      var activate;
      activate, read := ReadGate(p, existing, uuid, harvest, handle);
      Others(p);
      r := RunLoginLocked(p, existing, uuid, harvest, handle, activate);
      if r.Err? { return; }
      var ok := SaveLater(p, verb, existing, r.value.report.planned);
      if !ok { r := Err(WriteFailed); return; }
      var signalled := !activate && r.value.report.outcome.Refreshed?;
      r := Ok(r.value.(signalled := signalled));
    }

    /** The `login` verb, once the isolated login has yielded a harvest: the one read of the
        roster comes before that. */
    method Login(p: Pid, uuid: Uuid, harvest: Token, handle: Option<string>)
      returns (r: Result<LoginReport, VerbError>, read: bool)
      requires Valid() && p !in procs && harvest.owner == uuid
      modifies this
      ensures Valid() && p !in procs
      ensures r.Ok? ==> turns >= old(turns) + if r.value.activated then 9 else 7
      ensures r.Ok? ==>
                && config == Some(r.value.report.planned)
                && r.value.report.planned == Planned(RosterOn(old(config)), uuid, handle)
                && r.value.report.outcome == (if IndexOf(RosterOn(old(config)), uuid) < |RosterOn(old(config))|
                                              then Refreshed else Captured)
      ensures old(script) == [] && old(answers) == [] ==>
                && (r.Ok? <==> old(lock).None? && !Violates(uuid))
                && (r.Err? ==> r.error == if old(lock).Some? then SwapLockBusy else Malformed)
                && (r.Ok? ==> (r.value.activated <==> old(display).None? || old(display).value == uuid))
      ensures old(script) == [] && r.Err? && r.error != WriteFailed ==> Untouched(old(View()), View())
    {
      hide Own, Run;
      var existing := BeginLoginVerb(p, uuid, harvest, handle);
      Others(p);
      r, read := ReconcileLogin(p, existing, uuid, harvest, handle);
    }

    method BeginLoginVerb(p: Pid, uuid: Uuid, harvest: Token, handle: Option<string>)
      returns (existing: seq<Account>)
      requires Valid() && p !in procs && harvest.owner == uuid
      modifies this`procs, this`actions
      ensures Valid() && existing == RosterOn(config)
      ensures Stands(p, LoginVerb(uuid, harvest, handle), existing, Parsed)
      ensures Own(actions, p) == old(Own(actions, p)) + [BeginLogin(p, uuid, harvest, handle)]
    {
      LockHeldAfter(initial, actions);
      assert Lawful(View(), p);
      existing := if config.Some? then config.value else [];
      Record(BeginLogin(p, uuid, harvest, handle), View());
    }

    // --- swap ---

    /** The swap parses no roster. */
    method BeginSwapVerb(p: Pid, outgoing: Uuid, incoming: Uuid)
      requires Valid() && p !in procs
      modifies this`procs, this`actions
      ensures Valid() && Stands(p, SwapVerb(outgoing, incoming), [], Parsed)
      ensures Own(actions, p) == old(Own(actions, p)) + [BeginSwap(p, outgoing, incoming)]
    {
      LockHeldAfter(initial, actions);
      assert Lawful(View(), p);
      Record(BeginSwap(p, outgoing, incoming), View());
    }

    /** `swap_locked` around `swap`. It reads everything before it writes anything, so each
        refusal is without effect. When it succeeds, the token it read is stashed under the
        outgoing account; the incoming account's stash is untouched, and its token was made
        canonical, and belongs to the same account still if it is still there. */
    method SwapLocked(p: Pid, outgoing: Uuid, incoming: Uuid) returns (r: Result<SwapReport, VerbError>)
      requires Valid() && Stands(p, SwapVerb(outgoing, incoming), [], Parsed)
      modifies this
      ensures Valid() && p !in procs
      ensures r.Ok? ==> turns >= old(turns) + 8
      ensures r == Err(SwapLockBusy) ==> lock.Some? && Own(actions, p) == old(Own(actions, p)) + [Refuse(p)]
      ensures old(lock).Some? && old(script) == [] ==>
                r == Err(SwapLockBusy) && View() == old(View()).(procs := old(procs) - {p})
      ensures old(script) == [] && old(answers) == [] ==>
                (r.Ok? <==> && old(lock).None? && old(canonical).Some?
                            && SwapMayGoOn(old(View()), old(canonical).value, outgoing, incoming))
      ensures old(script) == [] && old(answers) == [] && r.Err? ==>
                r.error == if old(lock).Some? then SwapLockBusy else if old(canonical).None? then NoToken
                           else if Readable(old(View()), outgoing) && Readable(old(View()), incoming) then WrongIdentity
                           else StashUnreadable
      ensures old(script) == [] && old(answers) == [] && r.Ok? ==>
                && Readable(old(View()), incoming)
                && View() == State(None, Some(old(creds)[incoming]), Some(old(idents)[incoming]),
                                   old(creds)[outgoing := r.value.stashed], old(idents), old(config), procs)
                && old(canonical) == Some(r.value.stashed) && r.value.Confirmed()
      ensures r.Ok? ==>
                && Own(actions, p) == ThenSwapped(old(Own(actions, p)), p, r.value.landed)
                && Swapped(outgoing, incoming, r.value)
      ensures r.Err? && r.error != WriteFailed ==>
                || Own(actions, p) == old(Own(actions, p)) + [Refuse(p)]
                || Own(actions, p) == old(Own(actions, p)) + [Acquire(p)] + [Stop(p)]
                || Own(actions, p) == old(Own(actions, p)) + [Acquire(p)] + [ReadOutgoing(p)] + [Stop(p)]
    {
      hide Own, Run, Valid;
      var verb := SwapVerb(outgoing, incoming);
      var ok := Enter(p, verb, [], Parsed);
      if !ok { return Err(SwapLockBusy); }
      r := Swap(p, outgoing, incoming);
    }

    /** `swap`. */
    method Swap(p: Pid, outgoing: Uuid, incoming: Uuid) returns (r: Result<SwapReport, VerbError>)
      requires Valid() && Stands(p, SwapVerb(outgoing, incoming), [], Locked(false))
      modifies this
      ensures Valid() && p !in procs
      ensures r.Ok? ==> turns == old(turns) + 7
      ensures old(answers) == [] ==>
                (r.Ok? <==> && old(canonical).Some?
                            && SwapMayGoOn(old(View()), old(canonical).value, outgoing, incoming))
      ensures old(answers) == [] && r.Err? ==>
                r.error == if old(canonical).None? then NoToken
                           else if Readable(old(View()), outgoing) && Readable(old(View()), incoming) then WrongIdentity
                           else StashUnreadable
      ensures r.Ok? ==>
                && Readable(old(View()), incoming) && Installed(old(View()), outgoing, incoming, r.value)
                && old(canonical) == Some(r.value.stashed)
      ensures old(script) == [] && old(answers) == [] && r.Ok? ==> Done(old(View()), r.value)
      ensures r.Ok? ==>
                && Own(actions, p) ==
                     ThenActive(ThenStashed(old(Own(actions, p)) + [ReadOutgoing(p)] + [ReadStashes(p)], p), p,
                                r.value.landed)
                     + [Release(p)]
                && Swapped(outgoing, incoming, r.value)
      ensures r.Err? ==> r.error != SwapLockBusy
      ensures r.Err? && r.error != WriteFailed ==>
                || Own(actions, p) == old(Own(actions, p)) + [Stop(p)]
                || Own(actions, p) == old(Own(actions, p)) + [ReadOutgoing(p)] + [Stop(p)]
    {
      hide Own, Run, Valid;
      var current := ReadOutgoingToken(p, SwapVerb(outgoing, incoming));
      if current.Err? { return Err(current.error); }
      r := SwapFrom(p, outgoing, incoming, current.value);
    }

    /** Step 1 of `swap`: the canonical token. */
    method ReadOutgoingToken(p: Pid, verb: Verb) returns (r: Result<Token, VerbError>)
      requires Valid() && Stands(p, verb, [], Locked(false)) && verb.SwapVerb?
      modifies this`lock, this`procs, this`actions, this`answers
      ensures Valid()
      ensures answers == Rest(old(answers))
      ensures r == if !First(old(answers)) then Err(ReadFailed)
                   else if canonical.None? then Err(NoToken) else Ok(canonical.value)
      ensures r.Ok? ==> lock == old(lock) && Stands(p, verb, [], SwapSaw(r.value))
                        && Own(actions, p) == old(Own(actions, p)) + [ReadOutgoing(p)]
      ensures r.Err? ==> p !in procs && Own(actions, p) == old(Own(actions, p)) + [Stop(p)]
    {
      var ok := Succeeds();
      if !ok { Fail(p); return Err(ReadFailed); }
      if canonical.None? { Fail(p); return Err(NoToken); }
      Record(ReadOutgoing(p), View());
      return Ok(canonical.value);
    }

    /** What the report says of the stashes and the token. */
    predicate Swapped(outgoing: Uuid, incoming: Uuid, report: SwapReport)
      reads this
    {
      && Readable(View(), outgoing) && creds[outgoing] == report.stashed
      && Readable(View(), incoming) && idents[incoming] == report.installed.uuid
      && (incoming != outgoing ==> creds[incoming] == report.installed.token)
      && SameOwner(Some(report.installed.token))
      && (report.reread.Some? ==> report.reread.value.owner == report.installed.token.owner)
    }

    /** The stashes after a swap, and where its token came from. */
    predicate Installed(before: State, outgoing: Uuid, incoming: Uuid, report: SwapReport)
      requires Readable(before, incoming)
      reads this
    {
      && report.installed == Active(before.idents[incoming], before.creds[incoming])
      && creds == before.creds[outgoing := report.stashed] && idents == before.idents && lock.None?
    }

    /** The rest of the state after a swap that nothing disturbs and nothing fails. */
    predicate Done(before: State, report: SwapReport)
      reads this
    {
      && canonical == Some(report.installed.token) && display == Some(report.installed.uuid)
      && config == before.config && report.landed && report.Confirmed()
    }

    /** `swap`, from the stash reads on. */
    method SwapFrom(p: Pid, outgoing: Uuid, incoming: Uuid, current: Token) returns (r: Result<SwapReport, VerbError>)
      requires Valid() && Stands(p, SwapVerb(outgoing, incoming), [], SwapSaw(current))
      modifies this
      ensures Valid() && p !in procs
      ensures r.Ok? ==> turns == old(turns) + 7
      ensures r.Ok? ==>
                && Own(actions, p) ==
                     ThenActive(ThenStashed(old(Own(actions, p)) + [ReadStashes(p)], p), p, r.value.landed)
                     + [Release(p)]
                && Swapped(outgoing, incoming, r.value) && r.value.stashed == current
      ensures r == Err(StashUnreadable) <==>
                !(First(old(answers)) && Readable(old(View()), outgoing) && Readable(old(View()), incoming))
      ensures r == Err(WrongIdentity) <==>
                && First(old(answers)) && Readable(old(View()), outgoing) && Readable(old(View()), incoming)
                && !SwapMayGoOn(old(View()), current, outgoing, incoming)
      ensures old(answers) == [] ==> (r.Ok? <==> SwapMayGoOn(old(View()), current, outgoing, incoming))
      ensures r.Ok? ==> Readable(old(View()), incoming) && Installed(old(View()), outgoing, incoming, r.value)
      ensures old(script) == [] && old(answers) == [] && r.Ok? ==> Done(old(View()), r.value)
      ensures r.Err? ==> r.error != SwapLockBusy
      ensures r.Err? && r.error != WriteFailed ==> Own(actions, p) == old(Own(actions, p)) + [Stop(p)]
    {
      hide Own, Run, Valid;
      Pause(p, SwapVerb(outgoing, incoming), [], SwapSaw(current));
      var active := ReadBothStashes(p, outgoing, incoming, current);
      if active.Err? { return Err(active.error); }
      r := ReStashAndSwap(p, outgoing, incoming, current, active.value);
    }

    /** The stash reads, the outgoing one and then the incoming one, and the guard. */
    method ReadBothStashes(p: Pid, outgoing: Uuid, incoming: Uuid, current: Token)
      returns (r: Result<Active, VerbError>)
      requires Valid() && Stands(p, SwapVerb(outgoing, incoming), [], SwapSaw(current))
      modifies this`lock, this`procs, this`actions, this`answers
      ensures Valid() && answers == Rest(old(answers))
      ensures r == if !(First(old(answers)) && Readable(View(), outgoing) && Readable(View(), incoming))
                   then Err(StashUnreadable)
                   else if !SwapMayGoOn(View(), current, outgoing, incoming) then Err(WrongIdentity)
                   else Ok(Active(idents[incoming], creds[incoming]))
      ensures r.Ok? ==>
                && Stands(p, SwapVerb(outgoing, incoming), [], Holding(outgoing, current, Some(r.value)))
                && Own(actions, p) == old(Own(actions, p)) + [ReadStashes(p)]
      ensures r.Err? ==> p !in procs && Own(actions, p) == old(Own(actions, p)) + [Stop(p)]
    {
      hide Own, Run;
      var ok := Succeeds();
      if !ok { Fail(p); return Err(StashUnreadable); }
      if outgoing !in creds || outgoing !in idents { Fail(p); return Err(StashUnreadable); }
      if incoming !in creds || incoming !in idents { Fail(p); return Err(StashUnreadable); }
      if current != creds[outgoing] && current == creds[incoming] { Fail(p); return Err(WrongIdentity); }
      Record(ReadStashes(p), View());
      assert Lawful(View(), p);
      return Ok(Active(idents[incoming], creds[incoming]));
    }

    /** Steps 2 to 5 of `swap`. */
    method ReStashAndSwap(p: Pid, outgoing: Uuid, incoming: Uuid, current: Token, active: Active)
      returns (r: Result<SwapReport, VerbError>)
      requires Valid() && Stands(p, SwapVerb(outgoing, incoming), [], Holding(outgoing, current, Some(active)))
      requires Readable(View(), outgoing) && Readable(View(), incoming)
      requires active == Active(idents[incoming], creds[incoming])
      modifies this
      ensures Valid() && p !in procs
      ensures r.Ok? ==> turns == old(turns) + 6
      ensures old(answers) == [] ==> r.Ok?
      ensures r.Ok? ==> Installed(old(View()), outgoing, incoming, r.value)
      ensures old(script) == [] && old(answers) == [] && r.Ok? ==> Done(old(View()), r.value)
      ensures r.Ok? ==>
                && Own(actions, p) == ThenActive(ThenStashed(old(Own(actions, p)), p), p, r.value.landed) + [Release(p)]
                && Swapped(outgoing, incoming, r.value) && r.value.stashed == current
      ensures r.Err? ==> r.error == WriteFailed
    {
      hide Own, Run, Valid;
      var verb := SwapVerb(outgoing, incoming);
      var ok := StashWrite(p, verb, [], outgoing, current, Some(active), idents[outgoing]);
      if !ok { return Err(WriteFailed); }
      Pause(p, verb, [], FullyStashed(outgoing, current, Some(active)));
      r := FinishSwap(p, verb, outgoing, current, active);
    }

    /** Steps 3 to 5: canonical, display, and the confirming read. */
    method FinishSwap(p: Pid, verb: Verb, under: Uuid, current: Token, active: Active)
      returns (r: Result<SwapReport, VerbError>)
      requires Valid() && verb.SwapVerb? && Stands(p, verb, [], FullyStashed(under, current, Some(active)))
      modifies this
      ensures Valid() && p !in procs
      ensures r.Ok? ==> turns == old(turns) + 3
      ensures old(answers) == [] ==> r.Ok?
      ensures r.Ok? ==> lock.None?
      ensures old(script) == [] && old(answers) == [] && r.Ok? ==> Done(old(View()), r.value)
      ensures r.Ok? ==>
                && Own(actions, p) == ThenActive(old(Own(actions, p)), p, r.value.landed) + [Release(p)]
                && creds == old(creds) && idents == old(idents)
                && r.value.stashed == current && r.value.installed == active
                && SameOwner(Some(active.token))
                && (r.value.reread.Some? ==> r.value.reread.value.owner == active.token.owner)
      ensures r.Err? ==> r.error == WriteFailed
    {
      hide Own, Run;
      var ok, landed := MakeActive(p, verb, [], under, current, active);
      if !ok { return Err(WriteFailed); }
      Pause(p, verb, [], Finishing(under));
      var reread := Reread();
      ReleaseSwap(p, verb, under);
      return Ok(SwapReport(current, active, landed, reread));
    }

    /** The confirming read, which may fail: a swap is confirmed when it finds what the swap
        made canonical. */
    method Reread() returns (found: Option<Token>)
      modifies this`answers
      ensures found == (if First(old(answers)) then canonical else None) && answers == Rest(old(answers))
      ensures old(answers) == [] ==> found == canonical && answers == []
    {
      var ok := Succeeds();
      return if ok then canonical else None;
    }

    method ReleaseSwap(p: Pid, verb: Verb, under: Uuid)
      requires Valid() && Stands(p, verb, [], Finishing(under)) && verb.SwapVerb?
      modifies this
      ensures Valid() && p !in procs && lock.None? && answers == old(answers)
      ensures turns == old(turns) + 1
      ensures creds == old(creds) && idents == old(idents) && SameOwner(old(canonical))
      ensures old(script) == [] ==>
                script == [] && canonical == old(canonical) && display == old(display) && config == old(config)
      ensures Own(actions, p) == old(Own(actions, p)) + [Release(p)]
    {
      Pause(p, verb, [], Finishing(under));
      var before := View();
      lock := None;
      Record(Release(p), before);
    }
  }

  /** A login's own steps re-point the canonical token exactly when it activates. */
  lemma ActivatingIsRepointing(own: seq<Action>, p: Pid, activate: bool, landed: bool)
    requires Repoint(p) !in own
    ensures Repoint(p) in ThenLoggedIn(own, p, activate, landed) <==> activate
  {
    var stashed := ThenStashed(own + [Acquire(p)] + [PlanLogin(p)], p);
    assert Repoint(p) !in stashed;
    if activate {
      assert ThenLoggedIn(own, p, activate, landed)[|stashed|] == Repoint(p);
    }
  }

  lemma PlannedNames(existing: seq<Account>, uuid: Uuid, handle: Option<string>)
    requires !Violates(uuid)
    ensures Rostered(Planned(existing, uuid, handle), uuid)
  {
    assert Planned(existing, uuid, handle)[IndexOf(existing, uuid)].uuid == uuid;
  }
}
