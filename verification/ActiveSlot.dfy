/** Whether a login takes the active slot: it does exactly when its gate said so, the gate
    being read before the lock is taken. */
module ActiveSlot {
  import opened Wrappers
  import opened Roster
  import opened Protocol
  import opened MisKeyedRuns

  /** What the gate is to find out: nobody is displayed, or the account logging in is. */
  predicate GateSays(s: State, uuid: Uuid) {
    s.display.None? || s.display.value == uuid
  }

  /** A login that is past its gate, where the gate answered `activate`. */
  predicate LoginWith(s: State, p: Pid, activate: bool) {
    && p in s.procs && s.procs[p].verb.LoginVerb?
    && var own := Active(s.procs[p].verb.uuid, s.procs[p].verb.harvest);
       match s.procs[p].stage
       case Gated(v) => v == activate
       case Locked(v) => v == activate
       case Holding(_, _, target) => target == if activate then Some(own) else None
       case HalfStashed(_, _, target) => target == if activate then Some(own) else None
       case FullyStashed(_, _, target) => target == if activate then Some(own) else None
       case Repointed(_, active) => activate && active == own
       case Finishing(_) => activate
       case Released(_) => true
       case _ => false
  }

  predicate Restarts(a: Action, p: Pid) {
    Begins(a) && a.p == p
  }

  lemma OwnStepKeepsVerdict(s: State, a: Action, p: Pid, activate: bool)
    requires LoginWith(s, p, activate) && Enabled(s, a) && Actor(a) == Some(p) && !Restarts(a, p)
    ensures var t := Next(s, a);
            && (p in t.procs ==> LoginWith(t, p, activate) && t.procs[p].verb == s.procs[p].verb)
            && (!activate ==> t.canonical == s.canonical && t.display == s.display)
            && (a.Repoint? ==> activate && t.canonical == Some(s.procs[p].verb.harvest))
  {
  }

  lemma StepKeepsVerdict(s: State, a: Action, p: Pid, activate: bool)
    requires p in s.procs ==> LoginWith(s, p, activate)
    requires Enabled(s, a) && !Restarts(a, p)
    ensures p in Next(s, a).procs ==> p in s.procs && LoginWith(Next(s, a), p, activate)
                                      && Next(s, a).procs[p].verb == s.procs[p].verb
  {
    if Actor(a) == Some(p) {
      OwnStepKeepsVerdict(s, a, p, activate);
    } else {
      StepFrame(s, a, p);
    }
  }

  ghost predicate RestartsAt(actions: seq<Action>, p: Pid, j: nat)
    requires j < |actions|
  {
    Restarts(actions[j], p)
  }

  /** The login with this pid reads its gate at `g`, and the pid is not used again up to `k`. */
  ghost predicate OneLogin(s: State, actions: seq<Action>, p: Pid, g: nat, k: nat) {
    && Run(s, actions).Some? && g < k <= |actions| && actions[g].Gate? && actions[g].p == p
    && forall j: nat :: g < j < k ==> !RestartsAt(actions, p, j)
  }

  ghost function LoginAt(s: State, actions: seq<Action>, p: Pid, g: nat): (verb: Verb)
    requires OneLogin(s, actions, p, g, g + 1)
    ensures verb.LoginVerb?
  {
    StepOfRun(s, actions, g);
    StateAt(s, actions, g).procs[p].verb
  }

  /** The gate's answer; a display that cannot be read counts as nobody displayed. */
  ghost function VerdictAt(s: State, actions: seq<Action>, p: Pid, g: nat): bool
    requires OneLogin(s, actions, p, g, g + 1)
  {
    !actions[g].read || GateSays(StateAt(s, actions, g), LoginAt(s, actions, p, g).uuid)
  }

  predicate PastTheRepoint(stage: Stage, activate: bool) {
    stage.Repointed? || stage.Finishing? || (stage.Released? && activate)
  }

  ghost predicate RepointsBetween(actions: seq<Action>, p: Pid, g: nat, k: nat)
    requires k <= |actions|
  {
    exists j: nat :: g < j < k && actions[j] == Repoint(p)
  }

  lemma {:induction false} VerdictKept(s: State, actions: seq<Action>, p: Pid, g: nat, k: nat)
    requires OneLogin(s, actions, p, g, k)
    ensures var t := StateAt(s, actions, k);
            var activate := VerdictAt(s, actions, p, g);
            p in t.procs ==>
              && LoginWith(t, p, activate)
              && t.procs[p].verb == LoginAt(s, actions, p, g)
              && (PastTheRepoint(t.procs[p].stage, activate) ==> RepointsBetween(actions, p, g, k))
  {
    var activate := VerdictAt(s, actions, p, g);
    StepOfRun(s, actions, k - 1);
    if k > g + 1 {
      assert OneLogin(s, actions, p, g, k - 1);
      VerdictKept(s, actions, p, g, k - 1);
      var before, a := StateAt(s, actions, k - 1), actions[k - 1];
      assert !RestartsAt(actions, p, k - 1);
      StepKeepsVerdict(before, a, p, activate);
      RepointMarks(before, a, p, activate);
      if p in Next(before, a).procs && PastTheRepoint(Next(before, a).procs[p].stage, activate) {
        if a == Repoint(p) {
          assert actions[k - 1] == Repoint(p);
        } else {
          assert RepointsBetween(actions, p, g, k - 1);
        }
      }
    }
  }

  lemma RepointMarks(s: State, a: Action, p: Pid, activate: bool)
    requires p in s.procs ==> LoginWith(s, p, activate)
    requires Enabled(s, a) && !Restarts(a, p)
    ensures var t := Next(s, a);
            p in t.procs && PastTheRepoint(t.procs[p].stage, activate) ==>
              p in s.procs && (PastTheRepoint(s.procs[p].stage, activate) || a == Repoint(p))
  {
    if Actor(a) != Some(p) { StepFrame(s, a, p); }
  }

  /** A login whose gate saw a different account displayed changes neither the canonical token
      nor the display, at any of its steps, however the run goes on. */
  lemma ParkedLoginLeavesTheActivePair(s: State, actions: seq<Action>, p: Pid, g: nat, k: nat)
    requires OneLogin(s, actions, p, g, k) && k < |actions| && Actor(actions[k]) == Some(p)
    requires !RestartsAt(actions, p, k) && !VerdictAt(s, actions, p, g)
    ensures StateAt(s, actions, k + 1).canonical == StateAt(s, actions, k).canonical
    ensures StateAt(s, actions, k + 1).display == StateAt(s, actions, k).display
  {
    VerdictKept(s, actions, p, g, k);
    StepOfRun(s, actions, k);
    assert p in StateAt(s, actions, k).procs by {
      assert !Restarts(actions[k], p);
    }
    OwnStepKeepsVerdict(StateAt(s, actions, k), actions[k], p, false);
  }

  /** A login that gets as far as releasing the lock has re-pointed the canonical token
      exactly when its gate told it to, and what it put there is its own harvest. */
  lemma LoginRepointsExactlyWhenGated(s: State, actions: seq<Action>, p: Pid, g: nat, k: nat)
    requires OneLogin(s, actions, p, g, k) && k < |actions| && actions[k] == Release(p)
    ensures RepointsBetween(actions, p, g, k) <==> VerdictAt(s, actions, p, g)
    ensures forall j: nat :: g < j < k && actions[j] == Repoint(p) ==>
              StateAt(s, actions, j + 1).canonical == Some(LoginAt(s, actions, p, g).harvest)
  {
    StepOfRun(s, actions, g);
    StepOfRun(s, actions, k);
    VerdictKept(s, actions, p, g, k);
    forall j: nat | g < j < k && actions[j] == Repoint(p)
      ensures VerdictAt(s, actions, p, g)
      ensures StateAt(s, actions, j + 1).canonical == Some(LoginAt(s, actions, p, g).harvest)
    {
      assert OneLogin(s, actions, p, g, j);
      VerdictKept(s, actions, p, g, j);
      StepOfRun(s, actions, j);
      OwnStepKeepsVerdict(StateAt(s, actions, j), actions[j], p, VerdictAt(s, actions, p, g));
    }
  }

  // --- the gate and the lock ---

  predicate WritesDisplay(a: Action) {
    (a.CoWrite? && a.landed) || a.HealWrite? || a.ClearDisplay?
  }

  ghost predicate WritesDisplayAt(actions: seq<Action>, j: nat)
    requires j < |actions|
  {
    WritesDisplay(actions[j])
  }

  lemma {:induction false} DisplayKept(s: State, actions: seq<Action>, g: nat, k: nat)
    requires Run(s, actions).Some? && g <= k <= |actions|
    requires forall j: nat :: g <= j < k ==> !WritesDisplayAt(actions, j)
    ensures StateAt(s, actions, k).display == StateAt(s, actions, g).display
    decreases k - g
  {
    if g < k {
      DisplayKept(s, actions, g, k - 1);
      StepOfRun(s, actions, k - 1);
      assert !WritesDisplayAt(actions, k - 1);
    }
  }

  /** The login is under the lock, and its verdict is the one the gate would give there. */
  predicate RightAtTheLock(t: State, p: Pid) {
    && p in t.procs && t.procs[p].verb.LoginVerb?
    && t.procs[p].stage == Locked(GateSays(t, t.procs[p].verb.uuid))
  }

  lemma VerdictAtTheLock(s: State, actions: seq<Action>, p: Pid, g: nat, k: nat)
    requires OneLogin(s, actions, p, g, k) && k < |actions| && actions[k] == Acquire(p)
    ensures var t := StateAt(s, actions, k + 1);
            && p in t.procs && t.procs[p].verb == LoginAt(s, actions, p, g)
            && t.procs[p].stage == Locked(VerdictAt(s, actions, p, g))
            && t.display == StateAt(s, actions, k).display
  {
    VerdictKept(s, actions, p, g, k);
    StepOfRun(s, actions, k);
  }

  /** When nothing writes the display between the gate and the lock, the gate's answer is the
      right one under the lock exactly when the gate could read the display, or need not have:
      the one read whose failure is an answer, "take the slot". */
  lemma GateHoldsAtTheLock(s: State, actions: seq<Action>, p: Pid, g: nat, k: nat)
    requires OneLogin(s, actions, p, g, k) && k < |actions| && actions[k] == Acquire(p)
    requires forall j: nat :: g <= j < k ==> !WritesDisplayAt(actions, j)
    ensures RightAtTheLock(StateAt(s, actions, k + 1), p) <==>
            actions[g].read || GateSays(StateAt(s, actions, g), LoginAt(s, actions, p, g).uuid)
  {
    DisplayKept(s, actions, g, k);
    VerdictAtTheLock(s, actions, p, g, k);
  }

  /** What a step that writes the display leaves there, told from the step and its process. */
  function DisplayedBy(t: State, a: Action): Option<Uuid>
    requires Enabled(t, a) && WritesDisplay(a)
  {
    match a
    case CoWrite(q, _) => Some(t.procs[q].stage.active.uuid)
    case HealWrite(q) => Some(t.procs[q].stage.shown)
    case ClearDisplay => None
  }

  /** The display was written last at `w`, between the gate and the lock. */
  ghost predicate LastWriteBetween(actions: seq<Action>, g: nat, w: nat, k: nat) {
    && g < w < k <= |actions| && WritesDisplayAt(actions, w)
    && forall j: nat :: w < j < k ==> !WritesDisplayAt(actions, j)
  }

  /** When something does, the gate's answer is right exactly when what was written last
      would have had it give the same one: "take the slot" when that cleared the display or
      showed this account, "leave it" when that showed another one. */
  lemma GateHoldsExactlyWhen(s: State, actions: seq<Action>, p: Pid, g: nat, w: nat, k: nat)
    requires OneLogin(s, actions, p, g, k) && k < |actions| && actions[k] == Acquire(p)
    requires LastWriteBetween(actions, g, w, k)
    ensures Enabled(StateAt(s, actions, w), actions[w])
    ensures var shown := DisplayedBy(StateAt(s, actions, w), actions[w]);
            RightAtTheLock(StateAt(s, actions, k + 1), p) <==>
              (VerdictAt(s, actions, p, g) <==> shown.None? || shown.value == LoginAt(s, actions, p, g).uuid)
  {
    StepOfRun(s, actions, w);
    assert WritesDisplayAt(actions, w);
    DisplayKept(s, actions, w + 1, k);
    VerdictAtTheLock(s, actions, p, g, k);
  }

  // --- a gate gone stale ---

  function LoginBody(p: Pid): seq<Action> {
    ([Acquire(p)] + [PlanLogin(p)])
    + (([WriteCredential(p)] + [WriteIdentity(p)]) + ([Repoint(p)] + [CoWrite(p, true)] + [Release(p)]))
  }

  /** What an activating login that nothing disturbs does: its harvest is stashed, made
      canonical and displayed, whoever was active. */
  lemma ActivatingLoginAlone(s: State, p: Pid)
    requires p in s.procs && s.procs[p].verb.LoginVerb? && s.procs[p].stage == Gated(true) && s.lock.None?
    requires !Violates(s.procs[p].verb.uuid)
    ensures var verb := s.procs[p].verb;
            var r := Run(s, LoginBody(p));
            && r.Some? && r.value.lock.None?
            && r.value.canonical == Some(verb.harvest) && r.value.display == Some(verb.uuid)
            && r.value.creds == s.creds[verb.uuid := verb.harvest]
  {
    var t := LoginReadsAlone(s, p);
    var u := StashAlone(t, p);
    LoginTail(u, p);
    var tail := [Repoint(p)] + [CoWrite(p, true)] + [Release(p)];
    RunConcat(t, [WriteCredential(p)] + [WriteIdentity(p)], u, tail);
    RunConcat(s, [Acquire(p)] + [PlanLogin(p)], t, ([WriteCredential(p)] + [WriteIdentity(p)]) + tail);
  }

  lemma LoginReadsAlone(s: State, p: Pid) returns (t: State)
    requires p in s.procs && s.procs[p].verb.LoginVerb? && s.procs[p].stage == Gated(true) && s.lock.None?
    ensures Run(s, [Acquire(p)] + [PlanLogin(p)]) == Some(t)
    ensures t == s.(lock := Some(p), procs := t.procs) && p in t.procs && t.procs[p].verb == s.procs[p].verb
    ensures var own := Active(s.procs[p].verb.uuid, s.procs[p].verb.harvest);
            t.procs[p].stage == Holding(own.uuid, own.token, Some(own))
  {
    var s1 := Next(s, Acquire(p));
    t := Next(s1, PlanLogin(p));
    RunTwo(s, Acquire(p), s1, PlanLogin(p));
  }

  lemma LoginTail(s: State, p: Pid)
    requires p in s.procs && s.procs[p].verb.LoginVerb? && s.procs[p].stage.FullyStashed?
    requires s.procs[p].stage.target.Some?
    ensures var active := s.procs[p].stage.target.value;
            var r := Run(s, [Repoint(p)] + [CoWrite(p, true)] + [Release(p)]);
            && r.Some? && r.value.lock.None? && r.value.creds == s.creds
            && r.value.canonical == Some(active.token) && r.value.display == Some(active.uuid)
  {
    var s1 := Next(s, Repoint(p));
    var s2 := Next(s1, CoWrite(p, true));
    RunThree(s, Repoint(p), s1, CoWrite(p, true), s2, Release(p));
  }

  /** A login of the displayed account reads its gate, and then a swap puts another account in
      its place. */
  function StaleGateRun(a: Uuid, b: Uuid, harvest: Token): seq<Action> {
    ([BeginLogin(1, a, harvest, None)] + [Gate(1, true)]) + ([BeginSwap(0, a, b)] + SwapBody(0, true))
  }

  /** The gate has gone wrong by then, and the login goes on to take the slot from the account
      swapped in: token and display. */
  lemma StaleGateTakesTheSlot(s: State, a: Uuid, b: Uuid, harvest: Token)
    requires ReadyToSwap(s, a, b) && harvest.owner == a
    ensures var swapped := Run(s, StaleGateRun(a, b, harvest));
            && swapped.Some? && swapped.value.canonical == Some(s.creds[b]) && swapped.value.display == Some(b)
            && var taken := Run(s, StaleGateRun(a, b, harvest) + LoginBody(1));
               taken.Some? && taken.value.canonical == Some(harvest) && taken.value.display == Some(a)
  {
    var t := LoginGated(s, a, harvest, true);
    SwapFromRest(t, 0, a, b, true);
    var swapped := [BeginSwap(0, a, b)] + SwapBody(0, true);
    var u := Run(t, swapped).value;
    RunConcat(s, [BeginLogin(1, a, harvest, None)] + [Gate(1, true)], t, swapped);
    ActivatingLoginAlone(u, 1);
    RunConcat(s, StaleGateRun(a, b, harvest), u, LoginBody(1));
  }

  function UnreadGateRun(a: Uuid, harvest: Token): seq<Action> {
    ([BeginLogin(1, a, harvest, None)] + [Gate(1, false)]) + LoginBody(1)
  }

  /** One display read that fails, at the gate, is enough: with nobody else acting and another
      account displayed throughout, the login takes token and display. */
  lemma UnreadGateTakesTheSlot(s: State, a: Uuid, b: Uuid, harvest: Token)
    requires AtRest(s) && s.display == Some(b) && a != b && !Violates(a) && harvest.owner == a
    ensures !GateSays(s, a)
    ensures var r := Run(s, UnreadGateRun(a, harvest));
            r.Some? && r.value.canonical == Some(harvest) && r.value.display == Some(a)
  {
    var t := LoginGated(s, a, harvest, false);
    ActivatingLoginAlone(t, 1);
    RunConcat(s, [BeginLogin(1, a, harvest, None)] + [Gate(1, false)], t, LoginBody(1));
  }

  lemma LoginGated(s: State, a: Uuid, harvest: Token, read: bool) returns (t: State)
    requires AtRest(s) && harvest.owner == a && (read ==> s.display == Some(a))
    ensures Run(s, [BeginLogin(1, a, harvest, None)] + [Gate(1, read)]) == Some(t)
    ensures t == s.(procs := t.procs) && t.procs.Keys == {1}
    ensures t.procs[1].verb == LoginVerb(a, harvest, None) && t.procs[1].stage == Gated(true)
  {
    var begin := BeginLogin(1, a, harvest, None);
    var s1 := Next(s, begin);
    t := Next(s1, Gate(1, read));
    RunTwo(s, begin, s1, Gate(1, read));
  }
}
