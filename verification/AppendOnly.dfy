/** What a crash can leave behind. No hypothesis on displays, heals or swaps is needed here:
    a process may stop after any step, and roster saves may overwrite one another. */
module AppendOnly {
  import opened Wrappers
  import opened Roster
  import opened Protocol

  ghost predicate RowsReadable(s: State, rows: seq<Account>) {
    forall i :: 0 <= i < |rows| ==> Readable(s, rows[i].uuid)
  }

  predicate Stashes(stage: Stage) {
    stage.FullyStashed? || stage.Repointed? || stage.Finishing?
  }

  /** Every account the process has parsed, planned or stashed can be read back. */
  ghost predicate ProcBacked(s: State, q: Pid) {
    q in s.procs ==>
      var proc := s.procs[q];
      && RowsReadable(s, proc.existing)
      && (proc.stage.Released? ==> RowsReadable(s, proc.stage.planned))
      && (proc.stage.HalfStashed? ==> proc.stage.under in s.creds)
      && (Stashes(proc.stage) ==> Readable(s, proc.stage.under))
  }

  ghost predicate ConfigBacked(s: State) {
    s.config.Some? ==> RowsReadable(s, s.config.value)
  }

  ghost predicate Backed(s: State) {
    ConfigBacked(s) && forall q: Pid :: ProcBacked(s, q)
  }

  ghost predicate StashGrows(s: State, t: State) {
    s.creds.Keys <= t.creds.Keys && s.idents.Keys <= t.idents.Keys
  }

  lemma StepGrows(s: State, a: Action)
    requires Enabled(s, a)
    ensures StashGrows(s, Next(s, a))
  {
  }

  lemma RowsStayReadable(s: State, t: State, rows: seq<Account>)
    requires StashGrows(s, t) && RowsReadable(s, rows)
    ensures RowsReadable(t, rows)
  {
    forall i | 0 <= i < |rows| ensures Readable(t, rows[i].uuid) {
      assert Readable(s, rows[i].uuid);
      assert rows[i].uuid in s.creds.Keys && rows[i].uuid in s.idents.Keys;
    }
  }

  /** The plan adds no row but the one for the account just stashed. */
  lemma PlannedRowsReadable(s: State, rows: seq<Account>, uuid: Uuid, handle: Option<string>)
    requires RowsReadable(s, rows) && Readable(s, uuid)
    ensures RowsReadable(s, Planned(rows, uuid, handle))
  {
    var planned := Planned(rows, uuid, handle);
    forall i | 0 <= i < |planned| ensures Readable(s, planned[i].uuid) {
      if i < |rows| { assert planned[i].uuid == rows[i].uuid; }
    }
  }

  lemma FrameBacked(s: State, t: State, q: Pid)
    requires ProcBacked(s, q) && StashGrows(s, t)
    requires q in s.procs && q in t.procs && t.procs[q] == s.procs[q]
    ensures ProcBacked(t, q)
  {
    var proc := s.procs[q];
    RowsStayReadable(s, t, proc.existing);
    if proc.stage.Released? { RowsStayReadable(s, t, proc.stage.planned); }
    if Stashes(proc.stage) {
      assert proc.stage.under in s.creds.Keys && proc.stage.under in s.idents.Keys;
    }
    if proc.stage.HalfStashed? {
      assert proc.stage.under in s.creds.Keys;
    }
  }

  lemma OwnStepBacked(s: State, a: Action, q: Pid)
    requires Enabled(s, a) && Actor(a) == Some(q) && Backed(s)
    ensures ProcBacked(Next(s, a), q)
  {
    var t := Next(s, a);
    StepGrows(s, a);
    if Begins(a) {
      RowsStayReadable(s, t, t.procs[q].existing);
    } else if !Ends(s, a) {
      assert ProcBacked(s, q);
      var proc := s.procs[q];
      RowsStayReadable(s, t, proc.existing);
      if a.Release? {
        PlannedRowsReadable(s, proc.existing, proc.stage.under, HandleOf(proc.verb));
        RowsStayReadable(s, t, Planned(proc.existing, proc.stage.under, HandleOf(proc.verb)));
      }
    }
  }

  lemma StepBacked(s: State, a: Action)
    requires Enabled(s, a) && Backed(s)
    ensures Backed(Next(s, a))
  {
    var t := Next(s, a);
    StepGrows(s, a);
    if a.Save? {
      assert ProcBacked(s, a.p);
      RowsStayReadable(s, t, s.procs[a.p].stage.planned);
    } else if s.config.Some? {
      RowsStayReadable(s, t, s.config.value);
    }
    forall q: Pid ensures ProcBacked(t, q) {
      if Actor(a) == Some(q) {
        OwnStepBacked(s, a, q);
      } else {
        StepFrame(s, a, q);
        assert ProcBacked(s, q);
        if q in s.procs { FrameBacked(s, t, q); }
      }
    }
  }

  /** In every state of every run the roster on disk, every roster a process has parsed and
      every roster about to be saved name only accounts whose stash can be read back. */
  lemma {:induction false} RosterNamesOnlyStashedAccounts(s: State, actions: seq<Action>, k: nat)
    requires AtRest(s) && ConfigBacked(s) && Run(s, actions).Some? && k <= |actions|
    ensures Backed(StateAt(s, actions, k))
  {
    if k == 0 {
      EndsOfRun(s, actions);
    } else {
      RosterNamesOnlyStashedAccounts(s, actions, k - 1);
      StepOfRun(s, actions, k - 1);
      StepBacked(StateAt(s, actions, k - 1), actions[k - 1]);
    }
  }

  /** No item of any stash ever disappears. */
  lemma {:induction false} StashNeverShrinks(s: State, actions: seq<Action>, j: nat, k: nat)
    requires Run(s, actions).Some? && j <= k <= |actions|
    ensures StashGrows(StateAt(s, actions, j), StateAt(s, actions, k))
    decreases k - j
  {
    if j < k {
      StashNeverShrinks(s, actions, j, k - 1);
      StepOfRun(s, actions, k - 1);
      StepGrows(StateAt(s, actions, k - 1), actions[k - 1]);
    }
  }

  // --- the re-point ---

  /** What the process has written so far is what is there, and what it means to make active
      is stashed: by itself for a login, before it for a swap to another account. */
  predicate ProcStashed(s: State, q: Pid) {
    q in s.procs ==>
      var proc := s.procs[q];
      var stage := proc.stage;
      && (stage.HalfStashed? || stage.FullyStashed? ==>
            && stage.under in s.creds && s.creds[stage.under] == stage.token
            && (stage.FullyStashed? ==> stage.under in s.idents))
      && (stage.SawIdentity? ==> proc.verb.CaptureVerb?)
      && (stage.Holding? || stage.HalfStashed? || stage.FullyStashed? ==>
            match proc.verb
            case CaptureVerb(_) => stage.target.None?
            case LoginVerb(uuid, harvest, _) =>
              stage.under == uuid && stage.token == harvest
              && (stage.target.Some? ==> stage.target.value == Active(uuid, harvest))
            case SwapVerb(outgoing, incoming) =>
              && stage.under == outgoing && Readable(s, incoming) && stage.target.Some?
              && (stage.Holding? || incoming != outgoing ==> stage.target.value.token == s.creds[incoming])
            case HealVerb => false)
  }

  lemma OwnStepStashed(s: State, a: Action, q: Pid)
    requires Enabled(s, a) && Actor(a) == Some(q) && ProcStashed(s, q)
    ensures ProcStashed(Next(s, a), q)
  {
  }

  lemma StepStashed(s: State, a: Action)
    requires LockHeld(s) && Enabled(s, a) && forall q: Pid :: ProcStashed(s, q)
    ensures forall q: Pid :: ProcStashed(Next(s, a), q)
  {
    forall q: Pid ensures ProcStashed(Next(s, a), q) {
      assert ProcStashed(s, q);
      if Actor(a) == Some(q) {
        OwnStepStashed(s, a, q);
      } else {
        StepFrame(s, a, q);
        assert Lawful(s, q);
        if s.lock == Some(q) { OthersRespectTheLock(s, a, q); }
      }
    }
  }

  lemma {:induction false} StashedThroughout(s: State, actions: seq<Action>, k: nat)
    requires AtRest(s) && Run(s, actions).Some? && k <= |actions|
    ensures forall q: Pid :: ProcStashed(StateAt(s, actions, k), q)
  {
    if k == 0 {
      EndsOfRun(s, actions);
    } else {
      StashedThroughout(s, actions, k - 1);
      LockHeldThroughout(s, actions, k - 1);
      StepOfRun(s, actions, k - 1);
      StepStashed(StateAt(s, actions, k - 1), actions[k - 1]);
    }
  }

  /** Whenever the canonical token is re-pointed the account made active has a readable stash,
      and what was to be kept of the account before is stashed by then. The token it is given
      is the one in that stash, except, exactly, when a swap of an account with itself read a
      token that had drifted from the one its stash held: it stashes the one and goes back to
      the other. */
  lemma RepointIsAlreadyStashed(s: State, actions: seq<Action>, k: nat)
    requires AtRest(s) && Run(s, actions).Some? && k < |actions| && actions[k].Repoint?
    ensures var t := StateAt(s, actions, k);
            var p := actions[k].p;
            && p in t.procs && (t.procs[p].verb.LoginVerb? || t.procs[p].verb.SwapVerb?)
            && var verb := t.procs[p].verb;
               var account := if verb.LoginVerb? then verb.uuid else verb.incoming;
               && Readable(t, account)
               && (verb.SwapVerb? ==> Readable(t, verb.outgoing))
               && t.procs[p].stage.FullyStashed? && t.procs[p].stage.target.Some?
               && (StateAt(s, actions, k + 1).canonical == Some(t.creds[account]) <==>
                     || verb.LoginVerb? || verb.incoming != verb.outgoing
                     || t.procs[p].stage.token == t.procs[p].stage.target.value.token)
               && (verb.LoginVerb? ==> t.creds[account] == verb.harvest)
  {
    StepOfRun(s, actions, k);
    StashedThroughout(s, actions, k);
    assert ProcStashed(StateAt(s, actions, k), actions[k].p);
  }
}
