/** When the stash of an account can come to hold another account's token.

    `StashesStayPairedExactlyWhen` answers for every run, in terms of whose token was read.
    Nobody can see that, so `PairStaysInOrderExactlyWhen` answers again in terms of what can be
    seen, the account made active last: token, display and stashes stay in order as long as,
    and only as long as, no co-write fails over another account's display, no process stops
    between its two writes over one, no heal shows an account that is no longer the active
    one, and no swap writes back a token it read when the account it was told to put away was
    not the active one. */
module Pairing {
  import opened Wrappers
  import opened Protocol

  /** Every stash item belongs to the uuid it is kept under. */
  ghost predicate StashPaired(s: State) {
    && (forall u :: u in s.creds ==> s.creds[u].owner == u)
    && (forall u :: u in s.idents ==> s.idents[u] == u)
  }

  // --- what a process carries ---

  /** What a process is about to stash belongs to the account it stashes it under exactly
      when it was read soundly. */
  predicate CarriesWhatItRead(s: State, q: Pid) {
    q in s.procs ==>
      var proc := s.procs[q];
      && (proc.verb.LoginVerb? ==> proc.sound && proc.verb.harvest.owner == proc.verb.uuid)
      && (proc.stage.SawIdentity? ==>
            && proc.verb.CaptureVerb?
            && (s.canonical.Some? ==> (proc.sound <==> s.canonical.value.owner == proc.stage.seen)))
      && (proc.stage.SwapSaw? ==>
            && proc.verb.SwapVerb?
            && (proc.sound <==> proc.stage.outgoingToken.owner == proc.verb.outgoing))
      && (Carries(proc.stage) ==> (proc.sound <==> proc.stage.token.owner == proc.stage.under))
  }

  predicate Carries(stage: Stage) {
    stage.Holding? || stage.HalfStashed? || stage.FullyStashed?
  }

  ghost predicate PairInv(s: State) {
    LockHeld(s) && forall q: Pid :: CarriesWhatItRead(s, q)
  }

  lemma OwnStepCarries(s: State, a: Action, q: Pid)
    requires Enabled(s, a) && Actor(a) == Some(q) && CarriesWhatItRead(s, q)
    ensures CarriesWhatItRead(Next(s, a), q)
  {
  }

  lemma StepCarries(s: State, a: Action, q: Pid)
    requires LockHeld(s) && Enabled(s, a) && CarriesWhatItRead(s, q)
    ensures CarriesWhatItRead(Next(s, a), q)
  {
    if Actor(a) == Some(q) {
      OwnStepCarries(s, a, q);
    } else {
      StepFrame(s, a, q);
      assert Lawful(s, q);
      if s.lock == Some(q) { OthersRespectTheLock(s, a, q); }
    }
  }

  lemma StepKeepsPairInv(s: State, a: Action)
    requires PairInv(s) && Enabled(s, a)
    ensures PairInv(Next(s, a))
  {
    StepKeepsLock(s, a);
    forall q: Pid ensures CarriesWhatItRead(Next(s, a), q) {
      StepCarries(s, a, q);
    }
  }

  lemma {:induction false} PairInvThroughout(s: State, actions: seq<Action>, k: nat)
    requires AtRest(s) && Run(s, actions).Some? && k <= |actions|
    ensures PairInv(StateAt(s, actions, k))
  {
    if k == 0 {
      EndsOfRun(s, actions);
    } else {
      PairInvThroughout(s, actions, k - 1);
      StepOfRun(s, actions, k - 1);
      StepKeepsPairInv(StateAt(s, actions, k - 1), actions[k - 1]);
    }
  }

  // --- the stash ---

  /** The step writes a credential that its process did not read soundly. */
  predicate MisKeys(s: State, a: Action) {
    a.WriteCredential? && a.p in s.procs && !s.procs[a.p].sound
  }

  ghost predicate MisKeysAt(s: State, actions: seq<Action>, k: nat)
    requires k < |actions|
  {
    MisKeys(StateAt(s, actions, k), actions[k])
  }

  lemma StepKeepsPairedExactlyWhen(s: State, a: Action)
    requires PairInv(s) && StashPaired(s) && Enabled(s, a)
    ensures StashPaired(Next(s, a)) <==> !MisKeys(s, a)
  {
    var t := Next(s, a);
    if a.WriteCredential? {
      assert CarriesWhatItRead(s, a.p);
      var stage := s.procs[a.p].stage;
      assert t.creds[stage.under] == stage.token;
      assert forall u :: u in t.creds ==> u == stage.under || u in s.creds;
    }
  }

  /** In every run from a machine at rest with every stash paired, whatever is interleaved,
      refused, failed or stopped, every stash is paired in every state exactly when no step
      writes a credential that was not read soundly. */
  lemma StashesStayPairedExactlyWhen(s: State, actions: seq<Action>)
    requires AtRest(s) && StashPaired(s) && Run(s, actions).Some?
    ensures (forall k: nat :: k <= |actions| ==> StashPaired(StateAt(s, actions, k)))
       <==> (forall k: nat :: k < |actions| ==> !MisKeysAt(s, actions, k))
  {
    if forall k: nat :: k < |actions| ==> !MisKeysAt(s, actions, k) {
      forall k: nat | k <= |actions| ensures StashPaired(StateAt(s, actions, k)) {
        PairedUpTo(s, actions, k);
      }
    }
    if forall k: nat :: k <= |actions| ==> StashPaired(StateAt(s, actions, k)) {
      forall k: nat | k < |actions| ensures !MisKeysAt(s, actions, k) {
        PairInvThroughout(s, actions, k);
        StepOfRun(s, actions, k);
        assert StashPaired(StateAt(s, actions, k + 1));
        StepKeepsPairedExactlyWhen(StateAt(s, actions, k), actions[k]);
      }
    }
  }

  lemma {:induction false} PairedUpTo(s: State, actions: seq<Action>, k: nat)
    requires AtRest(s) && StashPaired(s) && Run(s, actions).Some? && k <= |actions|
    requires forall j: nat :: j < k ==> !MisKeysAt(s, actions, j)
    ensures StashPaired(StateAt(s, actions, k))
  {
    if k == 0 {
      EndsOfRun(s, actions);
    } else {
      PairedUpTo(s, actions, k - 1);
      PairInvThroughout(s, actions, k - 1);
      StepOfRun(s, actions, k - 1);
      assert !MisKeysAt(s, actions, k - 1);
      StepKeepsPairedExactlyWhen(StateAt(s, actions, k - 1), actions[k - 1]);
    }
  }

  // --- the pair ---

  /** The lock holder has written the token and not yet tried the display. */
  predicate InWindow(s: State) {
    s.lock.Some? && s.lock.value in s.procs && s.procs[s.lock.value].stage.Repointed?
  }

  /** Outside the window the token and the display agree; inside it the token is that of the
      account whose display is about to be written. */
  predicate Settled(s: State) {
    if InWindow(s)
    then s.canonical.Some? ==> s.canonical.value.owner == s.procs[s.lock.value].stage.active.uuid
    else Coherent(s)
  }

  /** The steps that leave a token and a display that disagree, outside the window: a co-write
      that fails over a display that names another account, a stop in its place, and a heal
      for an account that the token no longer belongs to. */
  predicate Tears(s: State, a: Action) {
    && s.canonical.Some?
    && match a
       case CoWrite(_, landed) => !landed && !Coherent(s)
       case Stop(p) => p in s.procs && s.procs[p].stage.Repointed? && !Coherent(s)
       case HealWrite(p) =>
         !InWindow(s) && p in s.procs && s.procs[p].stage.Healing?
         && s.canonical.value.owner != s.procs[p].stage.shown
       case _ => false
  }

  /** Captures and logins read soundly, and what is about to be made active is paired. */
  predicate AimsTrue(s: State, q: Pid) {
    q in s.procs ==>
      var proc := s.procs[q];
      && (!proc.verb.SwapVerb? ==> proc.sound)
      && (Carries(proc.stage) && proc.stage.target.Some? ==>
            proc.stage.target.value.token.owner == proc.stage.target.value.uuid)
      && (proc.stage.Repointed? ==> proc.stage.active.token.owner == proc.stage.active.uuid)
  }

  ghost predicate InOrder(s: State) {
    PairInv(s) && StashPaired(s) && Settled(s) && forall q: Pid :: AimsTrue(s, q)
  }

  lemma StepAims(s: State, a: Action, q: Pid)
    requires InOrder(s) && Enabled(s, a)
    ensures AimsTrue(Next(s, a), q)
  {
    assert Lawful(s, q) && AimsTrue(s, q) && CarriesWhatItRead(s, q);
    if Actor(a) != Some(q) { StepFrame(s, a, q); }
  }

  lemma StepSettlesExactlyWhen(s: State, a: Action)
    requires InOrder(s) && Enabled(s, a)
    ensures Settled(Next(s, a)) <==> !Tears(s, a)
  {
    StepKeepsLock(s, a);
    assert Actor(a).Some? ==>
        Lawful(s, Actor(a).value) && AimsTrue(s, Actor(a).value) && Lawful(Next(s, a), Actor(a).value);
    if s.lock.Some? {
      assert Lawful(s, s.lock.value);
      if Actor(a) != s.lock { OthersRespectTheLock(s, a, s.lock.value); }
    }
  }

  lemma StepStaysInOrder(s: State, a: Action)
    requires InOrder(s) && Enabled(s, a) && Settled(Next(s, a)) && StashPaired(Next(s, a))
    ensures InOrder(Next(s, a))
  {
    StepKeepsPairInv(s, a);
    forall q: Pid ensures AimsTrue(Next(s, a), q) {
      StepAims(s, a, q);
    }
  }

  /** Token and display agree, and every stash is paired. */
  ghost predicate GoodAt(s: State, actions: seq<Action>, k: nat)
    requires k <= |actions|
  {
    Settled(StateAt(s, actions, k)) && StashPaired(StateAt(s, actions, k))
  }

  lemma {:induction false} InOrderUpTo(s: State, actions: seq<Action>, k: nat)
    requires AtRest(s) && Run(s, actions).Some? && k <= |actions|
    requires forall j: nat :: j <= k ==> GoodAt(s, actions, j)
    ensures InOrder(StateAt(s, actions, k))
  {
    if k == 0 {
      EndsOfRun(s, actions);
      assert GoodAt(s, actions, 0);
    } else {
      InOrderUpTo(s, actions, k - 1);
      StepOfRun(s, actions, k - 1);
      assert GoodAt(s, actions, k);
      StepStaysInOrder(StateAt(s, actions, k - 1), actions[k - 1]);
    }
  }

  // --- the active account ---

  /** The account that a step makes active. */
  predicate MakesActive(s: State, a: Action, u: Uuid) {
    && a.Repoint? && a.p in s.procs && s.procs[a.p].stage.FullyStashed?
    && s.procs[a.p].stage.target.Some? && s.procs[a.p].stage.target.value.uuid == u
  }

  /** The account made active last: the target of the last re-point, or the one that was active
      to begin with. */
  ghost function ActiveAt(s: State, actions: seq<Action>, k: nat): Option<Uuid>
    requires k <= |actions|
  {
    if k == 0 then (if s.canonical.Some? then Some(s.canonical.value.owner) else None)
    else
      var t, a := StateAt(s, actions, k - 1), actions[k - 1];
      if a.Repoint? && a.p in t.procs && t.procs[a.p].stage.FullyStashed? && t.procs[a.p].stage.target.Some?
      then Some(t.procs[a.p].stage.target.value.uuid)
      else ActiveAt(s, actions, k - 1)
  }

  ghost predicate RepointsAt(actions: seq<Action>, j: nat)
    requires j < |actions|
  {
    actions[j].Repoint?
  }

  lemma {:induction false} ActiveIsTheLastTarget(s: State, actions: seq<Action>, w: nat, k: nat, u: Uuid)
    requires Run(s, actions).Some? && w < k <= |actions|
    requires MakesActive(StateAt(s, actions, w), actions[w], u)
    requires forall i: nat :: w < i < k ==> !RepointsAt(actions, i)
    ensures ActiveAt(s, actions, k) == Some(u)
    decreases k - w
  {
    if w + 1 < k {
      assert !RepointsAt(actions, k - 1);
      ActiveIsTheLastTarget(s, actions, w, k - 1, u);
    }
  }

  /** The account active to begin with is the one that can be resolved then. */
  lemma ActiveToBeginWith(s: State, actions: seq<Action>, u: Uuid)
    requires StashPaired(s) && Coherent(s) && Resolves(s, u)
    ensures ActiveAt(s, actions, 0) == Some(u)
  {
  }

  /** Only a re-point changes whose the token is. */
  lemma OwnerAfter(s: State, a: Action)
    requires InOrder(s) && Enabled(s, a) && Next(s, a).canonical.Some?
    ensures var owner := Next(s, a).canonical.value.owner;
            if a.Repoint? then MakesActive(s, a, owner) else s.canonical.Some? && s.canonical.value.owner == owner
  {
    if a.Repoint? { assert AimsTrue(s, a.p); }
  }

  /** As long as everything is in order, the token is that of the account made active last. */
  lemma {:induction false} TokenIsTheActiveAccounts(s: State, actions: seq<Action>, k: nat)
    requires AtRest(s) && Run(s, actions).Some? && k <= |actions|
    requires forall j: nat :: j <= k ==> GoodAt(s, actions, j)
    ensures var t := StateAt(s, actions, k);
            t.canonical.Some? ==> ActiveAt(s, actions, k) == Some(t.canonical.value.owner)
  {
    if k == 0 {
      EndsOfRun(s, actions);
    } else {
      TokenIsTheActiveAccounts(s, actions, k - 1);
      InOrderUpTo(s, actions, k - 1);
      StepOfRun(s, actions, k - 1);
      if StateAt(s, actions, k).canonical.Some? { OwnerAfter(StateAt(s, actions, k - 1), actions[k - 1]); }
    }
  }

  /** The account a swap was told to put away is the one the token it reads belongs to. */
  predicate RightlyResolved(s: State, a: Action) {
    a.ReadOutgoing? && a.p in s.procs && s.procs[a.p].verb.SwapVerb? && s.canonical.Some?
    && s.canonical.value.owner == s.procs[a.p].verb.outgoing
  }

  /** It is the account made active last, which anybody who keeps count can tell. */
  ghost predicate CurrentAt(s: State, actions: seq<Action>, k: nat)
    requires k < |actions|
  {
    var t, a := StateAt(s, actions, k), actions[k];
    a.ReadOutgoing? && a.p in t.procs && t.procs[a.p].verb.SwapVerb?
    && ActiveAt(s, actions, k) == Some(t.procs[a.p].verb.outgoing)
  }

  /** A swap is told right exactly when the account it was told is the one made active last. */
  lemma ResolvedExactlyWhenActive(s: State, actions: seq<Action>, k: nat)
    requires AtRest(s) && Run(s, actions).Some? && k < |actions| && actions[k].ReadOutgoing?
    requires forall j: nat :: j <= k ==> GoodAt(s, actions, j)
    ensures RightlyResolved(StateAt(s, actions, k), actions[k]) <==> CurrentAt(s, actions, k)
  {
    TokenIsTheActiveAccounts(s, actions, k);
    StepOfRun(s, actions, k);
  }

  /** The same, by the last re-point before the read: right exactly when its target is the
      account the swap was told. */
  lemma ResolvedExactlyWhenLastTarget(s: State, actions: seq<Action>, w: nat, k: nat, u: Uuid)
    requires AtRest(s) && Run(s, actions).Some? && w < k < |actions| && actions[k].ReadOutgoing?
    requires forall j: nat :: j <= k ==> GoodAt(s, actions, j)
    requires MakesActive(StateAt(s, actions, w), actions[w], u)
    requires forall i: nat :: w < i < k ==> !RepointsAt(actions, i)
    ensures var t := StateAt(s, actions, k);
            && actions[k].p in t.procs && t.procs[actions[k].p].verb.SwapVerb?
            && (RightlyResolved(t, actions[k]) <==> t.procs[actions[k].p].verb.outgoing == u)
  {
    ResolvedExactlyWhenActive(s, actions, k);
    ActiveIsTheLastTarget(s, actions, w, k, u);
    StepOfRun(s, actions, k);
  }

  /** The same, by the stashes, when one of them holds the token. */
  lemma ResolvedExactlyWhenStashed(s: State, outgoing: Uuid, holder: Uuid)
    requires StashPaired(s) && s.canonical.Some? && outgoing in s.creds
    requires holder in s.creds && s.creds[holder] == s.canonical.value
    ensures s.canonical.value.owner == outgoing <==> s.creds[outgoing] == s.canonical.value
  {
  }

  // --- what can be seen ---

  /** The steps that tear token and display apart, by what can be seen: the active account. */
  ghost predicate TornAt(s: State, actions: seq<Action>, k: nat)
    requires k < |actions|
  {
    var t, active := StateAt(s, actions, k), ActiveAt(s, actions, k);
    && t.canonical.Some?
    && match actions[k]
       case CoWrite(_, landed) => !landed && t.display.Some? && t.display != active
       case Stop(p) => p in t.procs && t.procs[p].stage.Repointed? && t.display.Some? && t.display != active
       case HealWrite(p) =>
         !InWindow(t) && p in t.procs && t.procs[p].stage.Healing? && active != Some(t.procs[p].stage.shown)
       case _ => false
  }

  /** The last token a process read for a swap was read when the account it was told to put
      away was not the active one. */
  ghost predicate ReadStale(s: State, actions: seq<Action>, p: Pid, k: nat)
    requires k <= |actions|
  {
    k != 0 &&
    if actions[k - 1] == ReadOutgoing(p) then !CurrentAt(s, actions, k - 1)
    else ReadStale(s, actions, p, k - 1)
  }

  /** A swap writes such a token back. */
  ghost predicate StaleWriteAt(s: State, actions: seq<Action>, k: nat)
    requires k < |actions|
  {
    var t, a := StateAt(s, actions, k), actions[k];
    a.WriteCredential? && a.p in t.procs && t.procs[a.p].verb.SwapVerb? && ReadStale(s, actions, a.p, k)
  }

  predicate HasRead(proc: Proc) {
    proc.verb.SwapVerb? && (proc.stage.SwapSaw? || Carries(proc.stage))
  }

  lemma OwnStepKeepsSound(s: State, a: Action, p: Pid)
    requires Enabled(s, a) && p in Next(s, a).procs && HasRead(Next(s, a).procs[p]) && a != ReadOutgoing(p)
    requires LockHeld(s) && CarriesWhatItRead(s, p)
    ensures p in s.procs && HasRead(s.procs[p]) && Next(s, a).procs[p].sound == s.procs[p].sound
  {
    if Actor(a) != Some(p) { StepFrame(s, a, p); }
  }

  /** A swap has read soundly exactly when it has not read stale. */
  lemma {:induction false} SoundIsNotStale(s: State, actions: seq<Action>, p: Pid, k: nat)
    requires AtRest(s) && Run(s, actions).Some? && k <= |actions|
    requires forall j: nat :: j <= k ==> GoodAt(s, actions, j)
    ensures var t := StateAt(s, actions, k);
            p in t.procs && HasRead(t.procs[p]) ==> (t.procs[p].sound <==> !ReadStale(s, actions, p, k))
  {
    if k == 0 {
      EndsOfRun(s, actions);
    } else {
      SoundIsNotStale(s, actions, p, k - 1);
      InOrderUpTo(s, actions, k - 1);
      StepOfRun(s, actions, k - 1);
      var before, a := StateAt(s, actions, k - 1), actions[k - 1];
      if a == ReadOutgoing(p) {
        ResolvedExactlyWhenActive(s, actions, k - 1);
      } else if p in Next(before, a).procs && HasRead(Next(before, a).procs[p]) {
        assert CarriesWhatItRead(before, p);
        OwnStepKeepsSound(before, a, p);
      }
    }
  }

  /** One step further: things stay in order exactly when the step neither tears nor writes
      back what was read stale. */
  lemma StepStaysGoodExactlyWhen(s: State, actions: seq<Action>, k: nat)
    requires AtRest(s) && Run(s, actions).Some? && k < |actions|
    requires forall j: nat :: j <= k ==> GoodAt(s, actions, j)
    ensures GoodAt(s, actions, k + 1) <==> !TornAt(s, actions, k) && !StaleWriteAt(s, actions, k)
  {
    InOrderUpTo(s, actions, k);
    StepOfRun(s, actions, k);
    StepSettlesExactlyWhen(StateAt(s, actions, k), actions[k]);
    StepKeepsPairedExactlyWhen(StateAt(s, actions, k), actions[k]);
    TornIsTearing(s, actions, k);
    StaleWriteIsMisKeying(s, actions, k);
  }

  lemma TornIsTearing(s: State, actions: seq<Action>, k: nat)
    requires AtRest(s) && Run(s, actions).Some? && k < |actions|
    requires forall j: nat :: j <= k ==> GoodAt(s, actions, j)
    ensures TornAt(s, actions, k) <==> Tears(StateAt(s, actions, k), actions[k])
  {
    TokenIsTheActiveAccounts(s, actions, k);
  }

  lemma StaleWriteIsMisKeying(s: State, actions: seq<Action>, k: nat)
    requires AtRest(s) && Run(s, actions).Some? && k < |actions|
    requires forall j: nat :: j <= k ==> GoodAt(s, actions, j)
    ensures StaleWriteAt(s, actions, k) <==> MisKeys(StateAt(s, actions, k), actions[k])
  {
    if actions[k].WriteCredential? {
      InOrderUpTo(s, actions, k);
      StepOfRun(s, actions, k);
      SoundIsNotStale(s, actions, actions[k].p, k);
      assert AimsTrue(StateAt(s, actions, k), actions[k].p);
    }
  }

  /** In every run from a machine at rest in order, whatever is interleaved, refused, failed or
      stopped, and whatever the swaps were told: token and display agree outside the window
      and every stash is paired, in every state, exactly when no step tears the pair and no
      swap writes back a token that it read when another account than the one it was told to
      put away had been made active last. */
  lemma PairStaysInOrderExactlyWhen(s: State, actions: seq<Action>)
    requires AtRest(s) && StashPaired(s) && Coherent(s) && Run(s, actions).Some?
    ensures (forall k: nat :: k <= |actions| ==> GoodAt(s, actions, k))
       <==> (forall k: nat :: k < |actions| ==> !TornAt(s, actions, k) && !StaleWriteAt(s, actions, k))
  {
    if forall k: nat :: k < |actions| ==> !TornAt(s, actions, k) && !StaleWriteAt(s, actions, k) {
      GoodUpTo(s, actions, |actions|);
    }
    if forall k: nat :: k <= |actions| ==> GoodAt(s, actions, k) {
      forall k: nat | k < |actions| ensures !TornAt(s, actions, k) && !StaleWriteAt(s, actions, k) {
        assert GoodAt(s, actions, k + 1);
        StepStaysGoodExactlyWhen(s, actions, k);
      }
    }
  }

  lemma {:induction false} GoodUpTo(s: State, actions: seq<Action>, k: nat)
    requires AtRest(s) && StashPaired(s) && Coherent(s) && Run(s, actions).Some? && k <= |actions|
    requires forall j: nat :: j < k ==> !TornAt(s, actions, j) && !StaleWriteAt(s, actions, j)
    ensures forall j: nat :: j <= k ==> GoodAt(s, actions, j)
  {
    if k == 0 {
      EndsOfRun(s, actions);
      assert GoodAt(s, actions, 0);
    } else {
      GoodUpTo(s, actions, k - 1);
      assert !TornAt(s, actions, k - 1) && !StaleWriteAt(s, actions, k - 1);
      StepStaysGoodExactlyWhen(s, actions, k - 1);
    }
  }

  // --- resolving the outgoing account ---

  /** What `resolve_account_for` may answer: an account whose readable stash holds the
      canonical token, or the displayed one, when there is none or it could not be read. */
  predicate Resolves(s: State, u: Uuid) {
    s.canonical.Some? && ((Readable(s, u) && s.creds[u] == s.canonical.value) || s.display == Some(u))
  }

  /** The outgoing account was resolved at `j`, outside any write window, and nothing has made
      an account active since. */
  ghost predicate ResolvedFrom(s: State, actions: seq<Action>, j: nat, k: nat)
    requires j <= k < |actions|
  {
    var t, a := StateAt(s, actions, k), actions[k];
    && a.ReadOutgoing? && a.p in t.procs && t.procs[a.p].verb.SwapVerb?
    && Resolves(StateAt(s, actions, j), t.procs[a.p].verb.outgoing) && !InWindow(StateAt(s, actions, j))
    && forall i: nat :: j <= i < k ==> !RepointsAt(actions, i)
  }

  ghost predicate FreshAt(s: State, actions: seq<Action>, k: nat)
    requires k < |actions|
  {
    exists j: nat :: j <= k && ResolvedFrom(s, actions, j, k)
  }

  lemma {:induction false} ActiveKept(s: State, actions: seq<Action>, j: nat, k: nat)
    requires Run(s, actions).Some? && j <= k <= |actions|
    requires forall i: nat :: j <= i < k ==> !RepointsAt(actions, i)
    ensures ActiveAt(s, actions, k) == ActiveAt(s, actions, j)
    decreases k - j
  {
    if j < k {
      ActiveKept(s, actions, j, k - 1);
      assert !RepointsAt(actions, k - 1);
    }
  }

  /** An account resolved while things are in order, with nothing made active since, is the
      active one. */
  lemma FreshIsCurrent(s: State, actions: seq<Action>, k: nat)
    requires AtRest(s) && Run(s, actions).Some? && k < |actions| && FreshAt(s, actions, k)
    requires forall j: nat :: j <= k ==> GoodAt(s, actions, j)
    ensures CurrentAt(s, actions, k)
  {
    var j: nat :| j <= k && ResolvedFrom(s, actions, j, k);
    ActiveKept(s, actions, j, k);
    assert GoodAt(s, actions, j);
    TokenIsTheActiveAccounts(s, actions, j);
  }

  /** Every swap was told an account resolved afresh. */
  ghost predicate SwapsFresh(s: State, actions: seq<Action>) {
    forall k: nat :: k < |actions| && ReadsAt(actions, k) ==> FreshAt(s, actions, k)
  }

  ghost predicate ReadsAt(actions: seq<Action>, k: nat)
    requires k < |actions|
  {
    actions[k].ReadOutgoing?
  }

  lemma {:induction false} FreshSwapsReadNothingStale(s: State, actions: seq<Action>, p: Pid, k: nat)
    requires AtRest(s) && Run(s, actions).Some? && k <= |actions| && SwapsFresh(s, actions)
    requires forall j: nat :: j < k ==> GoodAt(s, actions, j)
    ensures !ReadStale(s, actions, p, k)
  {
    if k != 0 {
      FreshSwapsReadNothingStale(s, actions, p, k - 1);
      if actions[k - 1] == ReadOutgoing(p) {
        assert ReadsAt(actions, k - 1);
        FreshIsCurrent(s, actions, k - 1);
      }
    }
  }

  lemma {:induction false} FreshAndUntornIsGood(s: State, actions: seq<Action>, k: nat)
    requires AtRest(s) && StashPaired(s) && Coherent(s) && Run(s, actions).Some? && k <= |actions|
    requires SwapsFresh(s, actions) && forall j: nat :: j < k ==> !TornAt(s, actions, j)
    ensures forall j: nat :: j <= k ==> GoodAt(s, actions, j)
  {
    if k == 0 {
      EndsOfRun(s, actions);
      assert GoodAt(s, actions, 0);
    } else {
      FreshAndUntornIsGood(s, actions, k - 1);
      assert !TornAt(s, actions, k - 1);
      if actions[k - 1].WriteCredential? {
        FreshSwapsReadNothingStale(s, actions, actions[k - 1].p, k - 1);
      }
      StepStaysGoodExactlyWhen(s, actions, k - 1);
    }
  }

  /** When every swap resolves its outgoing account afresh, with nothing made active between
      the resolution and the read under the lock: things stay in order exactly when no step
      tears the pair; and then the pair is coherent whenever the lock is free. */
  lemma FreshSwapsStayInOrderExactlyWhen(s: State, actions: seq<Action>)
    requires AtRest(s) && StashPaired(s) && Coherent(s) && Run(s, actions).Some? && SwapsFresh(s, actions)
    ensures (forall k: nat :: k <= |actions| ==> GoodAt(s, actions, k))
       <==> (forall k: nat :: k < |actions| ==> !TornAt(s, actions, k))
    ensures (forall k: nat :: k < |actions| ==> !TornAt(s, actions, k)) ==>
              forall k: nat :: k <= |actions| && StateAt(s, actions, k).lock.None? ==> Coherent(StateAt(s, actions, k))
  {
    PairStaysInOrderExactlyWhen(s, actions);
    if forall k: nat :: k < |actions| ==> !TornAt(s, actions, k) {
      FreshAndUntornIsGood(s, actions, |actions|);
      forall k: nat | k <= |actions| && StateAt(s, actions, k).lock.None? ensures Coherent(StateAt(s, actions, k)) {
        assert GoodAt(s, actions, k);
      }
    }
  }
}
