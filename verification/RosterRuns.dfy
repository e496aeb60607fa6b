/** What a run makes of the roster on disk. A capture or a login parses it once, before the
    lock, and saves its plan once, after the lock: between the two the file is anybody's. */
module RosterRuns {
  import opened Wrappers
  import opened Roster
  import opened Protocol
  import opened MisKeyedRuns
  import opened ActiveSlot

  /** The capture or login with this pid begins at `b`, and the pid is not used again up to `k`. */
  ghost predicate OneVerb(s: State, actions: seq<Action>, p: Pid, b: nat, k: nat) {
    && Run(s, actions).Some? && b < k <= |actions|
    && (actions[b].BeginCapture? || actions[b].BeginLogin?) && actions[b].p == p
    && forall j: nat :: b < j < k ==> !RestartsAt(actions, p, j)
  }

  /** The account the verb is for: the one logging in, or the one a capture last saw displayed. */
  ghost function AccountAt(s: State, actions: seq<Action>, p: Pid, b: nat, k: nat): Option<Uuid>
    requires b < k <= |actions|
  {
    if k == b + 1 then if actions[b].BeginLogin? then Some(actions[b].uuid) else None
    else if actions[k - 1] == ReadIdentity(p) then StateAt(s, actions, k - 1).display
    else AccountAt(s, actions, p, b, k - 1)
  }

  /** How far the verb has come with the account it is for. */
  predicate WorksFor(proc: Proc, account: Option<Uuid>) {
    match proc.stage
    case Parsed => true
    case Gated(_) => true
    case Locked(_) => true
    case SawIdentity(seen) => account == Some(seen)
    case Holding(under, _, _) => account == Some(under)
    case HalfStashed(under, _, _) => account == Some(under) && !Violates(under)
    case FullyStashed(under, _, _) => account == Some(under) && !Violates(under)
    case Repointed(under, _) => account == Some(under) && !Violates(under)
    case Finishing(under) => account == Some(under) && !Violates(under)
    case Released(planned) =>
      && account.Some? && !Violates(account.value)
      && planned == Planned(proc.existing, account.value, HandleOf(proc.verb))
    case _ => false
  }

  /** The verb is the one begun, it still has the roster it parsed, and a login its account. */
  predicate OnTrack(proc: Proc, verb: Verb, existing: seq<Account>, account: Option<Uuid>) {
    && proc.verb == verb && proc.existing == existing && WorksFor(proc, account)
    && (verb.LoginVerb? ==> account == Some(verb.uuid))
  }

  lemma StepOnTrack(s: State, a: Action, p: Pid, account: Option<Uuid>)
    requires Enabled(s, a) && !Restarts(a, p)
    requires p in s.procs ==> !s.procs[p].verb.SwapVerb? && !s.procs[p].verb.HealVerb?
    requires p in s.procs ==> OnTrack(s.procs[p], s.procs[p].verb, s.procs[p].existing, account)
    ensures var t := Next(s, a);
            p in t.procs ==>
              && p in s.procs
              && OnTrack(t.procs[p], s.procs[p].verb, s.procs[p].existing,
                         if a == ReadIdentity(p) then s.display else account)
  {
    if Actor(a) != Some(p) { StepFrame(s, a, p); }
  }

  /** Wherever the verb is, it plans on the roster it found on disk when it began. */
  lemma {:induction false} TrackKept(s: State, actions: seq<Action>, p: Pid, b: nat, k: nat)
    requires OneVerb(s, actions, p, b, k)
    ensures var t := StateAt(s, actions, k);
            p in t.procs ==>
              OnTrack(t.procs[p], VerbBegun(actions[b]), RosterOn(StateAt(s, actions, b).config),
                      AccountAt(s, actions, p, b, k))
  {
    StepOfRun(s, actions, k - 1);
    if k > b + 1 {
      assert OneVerb(s, actions, p, b, k - 1);
      TrackKept(s, actions, p, b, k - 1);
      assert !RestartsAt(actions, p, k - 1);
      StepOnTrack(StateAt(s, actions, k - 1), actions[k - 1], p, AccountAt(s, actions, p, b, k - 1));
    }
  }

  /** A save writes the plan for one account, on the roster that was on disk when the verb
      began. */
  lemma SavesThePlan(s: State, actions: seq<Action>, p: Pid, b: nat, k: nat)
    requires OneVerb(s, actions, p, b, k) && k < |actions| && actions[k] == Save(p)
    ensures var account := AccountAt(s, actions, p, b, k);
            && account.Some? && !Violates(account.value)
            && (actions[b].BeginLogin? ==> account == Some(actions[b].uuid))
            && StateAt(s, actions, k + 1).config ==
                 Some(Planned(RosterOn(StateAt(s, actions, b).config), account.value, HandleOf(VerbBegun(actions[b]))))
  {
    TrackKept(s, actions, p, b, k);
    StepOfRun(s, actions, k);
  }

  ghost predicate SavedAt(actions: seq<Action>, j: nat)
    requires j < |actions|
  {
    actions[j].Save?
  }

  ghost predicate NoSaveBetween(actions: seq<Action>, b: nat, k: nat)
    requires k <= |actions|
  {
    forall j: nat :: b < j < k ==> !SavedAt(actions, j)
  }

  lemma {:induction false} ConfigKept(s: State, actions: seq<Action>, b: nat, k: nat)
    requires Run(s, actions).Some? && b < k <= |actions| && NoSaveBetween(actions, b, k) && !SavedAt(actions, b)
    ensures StateAt(s, actions, k).config == StateAt(s, actions, b).config
  {
    StepOfRun(s, actions, k - 1);
    if k > b + 1 {
      ConfigKept(s, actions, b, k - 1);
      assert !SavedAt(actions, k - 1);
    } else {
      assert !SavedAt(actions, b);
    }
  }

  /** Every row is still there, in place and with its enabled flag, and relabelled only if it
      is the account's own. */
  ghost predicate KeepsRows(before: seq<Account>, after: seq<Account>, account: Uuid) {
    && |before| <= |after| <= |before| + 1
    && forall i :: 0 <= i < |before| ==>
         && after[i].uuid == before[i].uuid && after[i].enabled == before[i].enabled
         && (before[i].uuid != account ==> after[i] == before[i])
  }

  /** With no other save between a verb's begin and its own, no row that is on disk when it
      saves is dropped or moved, and the account it is for is rostered. */
  lemma SaveKeepsEveryRow(s: State, actions: seq<Action>, p: Pid, b: nat, k: nat)
    requires OneVerb(s, actions, p, b, k) && k < |actions| && actions[k] == Save(p)
    requires NoSaveBetween(actions, b, k)
    ensures var before, after := StateAt(s, actions, k).config, StateAt(s, actions, k + 1).config;
            && after.Some? && AccountAt(s, actions, p, b, k).Some?
            && var account := AccountAt(s, actions, p, b, k).value;
               && Rostered(after.value, account)
               && (before.Some? ==> KeepsRows(before.value, after.value, account))
               && (before.None? ==> |after.value| == 1 && after.value[0].uuid == account)
  {
    SavesThePlan(s, actions, p, b, k);
    ConfigKept(s, actions, b, k);
    var account := AccountAt(s, actions, p, b, k).value;
    var before := RosterOn(StateAt(s, actions, b).config);
    var after := StateAt(s, actions, k + 1).config.value;
    assert after[IndexOf(before, account)].uuid == account;
  }

  /** With others saving in between: an account is rostered after the save exactly when it was
      when the verb began, or is the verb's own. So one that somebody else has added since is
      lost. */
  lemma RosteredAfterSaveExactlyWhen(s: State, actions: seq<Action>, p: Pid, b: nat, k: nat, u: Uuid)
    requires OneVerb(s, actions, p, b, k) && k < |actions| && actions[k] == Save(p)
    ensures StateAt(s, actions, k + 1).config.Some?
    ensures Rostered(StateAt(s, actions, k + 1).config.value, u) <==>
              || (StateAt(s, actions, b).config.Some? && Rostered(StateAt(s, actions, b).config.value, u))
              || AccountAt(s, actions, p, b, k) == Some(u)
  {
    SavesThePlan(s, actions, p, b, k);
    var account := AccountAt(s, actions, p, b, k).value;
    PlannedOnlyAdds(RosterOn(StateAt(s, actions, b).config), account, HandleOf(VerbBegun(actions[b])), u);
  }

  // --- a row that is lost ---

  function ParkedReads(p: Pid): seq<Action> {
    [Gate(p, true)] + [Acquire(p)] + [PlanLogin(p)]
  }

  function ParkedBody(p: Pid): seq<Action> {
    ParkedReads(p) + ([WriteCredential(p)] + [WriteIdentity(p)] + [Release(p)])
  }

  /** A login of `b` begins, a capture of the displayed account runs from begin to save, and
      then the login goes on, gate to save. */
  function LostRowRun(b: Uuid, harvest: Token): seq<Action> {
    ([BeginLogin(1, b, harvest, None)] + [BeginCapture(2, None)])
    + ((CaptureBody(2) + [Save(2)]) + (ParkedBody(1) + [Save(1)]))
  }

  lemma GateAndLockAlone(s: State, p: Pid) returns (t: State)
    requires p in s.procs && s.procs[p].verb.LoginVerb? && s.procs[p].stage.Parsed? && s.lock.None?
    requires s.display.Some? && s.display.value != s.procs[p].verb.uuid
    ensures Run(s, [Gate(p, true)] + [Acquire(p)]) == Some(t)
    ensures t == Moved(s, p, Locked(false), s.procs[p].sound).(lock := Some(p))
  {
    var s1 := Next(s, Gate(p, true));
    t := Next(s1, Acquire(p));
    MovedTwice(s, p, Gated(false), s.procs[p].sound, Locked(false), s.procs[p].sound);
    RunTwo(s, Gate(p, true), s1, Acquire(p));
  }

  lemma ParkedReadsAlone(s: State, p: Pid) returns (t: State)
    requires p in s.procs && s.procs[p].verb.LoginVerb? && s.procs[p].stage.Parsed? && s.lock.None?
    requires s.display.Some? && s.display.value != s.procs[p].verb.uuid
    ensures Run(s, ParkedReads(p)) == Some(t)
    ensures var verb := s.procs[p].verb;
            t == Moved(s, p, Holding(verb.uuid, verb.harvest, None), s.procs[p].sound).(lock := Some(p))
  {
    var s2 := GateAndLockAlone(s, p);
    t := Next(s2, PlanLogin(p));
    MovedTwice(s, p, Locked(false), s.procs[p].sound, t.procs[p].stage, s.procs[p].sound);
    RunThen(s, [Gate(p, true)] + [Acquire(p)], s2, PlanLogin(p));
  }

  /** What a login of an account other than the displayed one does, with nothing to disturb
      it: its harvest is stashed, and the canonical token and the display are left alone. */
  lemma ParkedLoginAlone(s: State, p: Pid)
    requires p in s.procs && s.procs[p].verb.LoginVerb? && s.procs[p].stage.Parsed? && s.lock.None?
    requires s.display.Some? && s.display.value != s.procs[p].verb.uuid && !Violates(s.procs[p].verb.uuid)
    ensures var verb := s.procs[p].verb;
            var planned := Planned(s.procs[p].existing, verb.uuid, HandleOf(verb));
            Run(s, ParkedBody(p)) == Some(
              Moved(s, p, Released(planned), s.procs[p].sound)
              .(creds := s.creds[verb.uuid := verb.harvest], idents := s.idents[verb.uuid := verb.uuid]))
  {
    var t := ParkedReadsAlone(s, p);
    var u := StashAndReleaseAlone(t, p);
    MovedTwice(s, p, t.procs[p].stage, t.procs[p].sound, u.procs[p].stage, u.procs[p].sound);
    RunConcat(s, ParkedReads(p), t, [WriteCredential(p)] + [WriteIdentity(p)] + [Release(p)]);
  }

  /** Two verbs parse the same roster. */
  lemma BothBegin(s: State, b: Uuid, harvest: Token) returns (t: State)
    requires AtRest(s) && harvest.owner == b
    ensures Run(s, [BeginLogin(1, b, harvest, None)] + [BeginCapture(2, None)]) == Some(t)
    ensures t == s.(procs := t.procs) && 1 in t.procs && 2 in t.procs
    ensures var existing := RosterOn(s.config);
            && t.procs[1] == Proc(LoginVerb(b, harvest, None), existing, Parsed, true)
            && t.procs[2] == Proc(CaptureVerb(None), existing, Parsed, true)
  {
    var s1 := Next(s, BeginLogin(1, b, harvest, None));
    t := Next(s1, BeginCapture(2, None));
    RunTwo(s, BeginLogin(1, b, harvest, None), s1, BeginCapture(2, None));
  }

  lemma CaptureAndSave(s: State, p: Pid, q: Pid) returns (t: State)
    requires p in s.procs && s.procs[p].verb.CaptureVerb? && s.procs[p].stage.Parsed? && s.lock.None?
    requires s.canonical.Some? && s.display.Some? && !Violates(s.display.value) && p != q && q in s.procs
    ensures Run(s, CaptureBody(p) + [Save(p)]) == Some(t)
    ensures var shown := s.display.value;
            && t.lock.None? && t.display == s.display && q in t.procs && t.procs[q] == s.procs[q]
            && t.creds == s.creds[shown := s.canonical.value] && t.idents == s.idents[shown := shown]
  {
    CaptureAlone(s, p);
    var u := Run(s, CaptureBody(p)).value;
    t := Next(u, Save(p));
    RunThen(s, CaptureBody(p), u, Save(p));
  }

  lemma ParkedLoginAndSave(s: State, p: Pid) returns (t: State)
    requires p in s.procs && s.procs[p].verb.LoginVerb? && s.procs[p].stage.Parsed? && s.lock.None?
    requires s.display.Some? && s.display.value != s.procs[p].verb.uuid && !Violates(s.procs[p].verb.uuid)
    ensures Run(s, ParkedBody(p) + [Save(p)]) == Some(t)
    ensures var verb := s.procs[p].verb;
            && t.config == Some(Planned(s.procs[p].existing, verb.uuid, HandleOf(verb)))
            && t.creds == s.creds[verb.uuid := verb.harvest] && t.idents == s.idents[verb.uuid := verb.uuid]
  {
    ParkedLoginAlone(s, p);
    var u := Run(s, ParkedBody(p)).value;
    t := Next(u, Save(p));
    RunThen(s, ParkedBody(p), u, Save(p));
  }

  /** Both succeed, and the row the capture has saved is gone again: its account is stashed
      and not rostered. */
  lemma OverlappingVerbsLoseARow(s: State, a: Uuid, b: Uuid, harvest: Token)
    requires AtRest(s) && s.canonical.Some? && s.display == Some(a) && a != b && harvest.owner == b
    requires !Violates(a) && !Violates(b) && !Rostered(RosterOn(s.config), a)
    ensures var r := Run(s, LostRowRun(b, harvest));
            && r.Some? && r.value.config.Some?
            && Readable(r.value, a) && !Rostered(r.value.config.value, a)
            && Readable(r.value, b) && Rostered(r.value.config.value, b)
  {
    var begun := BothBegin(s, b, harvest);
    var captured := CaptureAndSave(begun, 2, 1);
    var saved := ParkedLoginAndSave(captured, 1);
    var capture, login := CaptureBody(2) + [Save(2)], ParkedBody(1) + [Save(1)];
    RunConcat(begun, capture, captured, login);
    RunConcat(s, [BeginLogin(1, b, harvest, None)] + [BeginCapture(2, None)], begun, capture + login);
    PlannedOnlyAdds(RosterOn(s.config), b, None, a);
    PlannedOnlyAdds(RosterOn(s.config), b, None, b);
  }

  /** A plan rosters its account and otherwise whoever was rostered. */
  lemma PlannedOnlyAdds(rows: seq<Account>, account: Uuid, handle: Option<string>, u: Uuid)
    requires !Violates(account)
    ensures Rostered(Planned(rows, account, handle), u) <==> Rostered(rows, u) || u == account
  {
    var planned := Planned(rows, account, handle);
    if Rostered(rows, u) || u == account { PlannedRosters(rows, Call(account, handle), u); }
    if Rostered(planned, u) {
      var i :| 0 <= i < |planned| && planned[i].uuid == u;
      assert i < |rows| ==> rows[i].uuid == u;
    }
  }
}
