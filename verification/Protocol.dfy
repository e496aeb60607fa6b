/** The credential protocol of src/capture.rs and src/swap.rs, with the display heal of
    src/canary.rs: any number of captures, logins, swaps and heals over one canonical token,
    one display, one stash and one roster file.

    Every step is one read or one write. Between any two steps of a process the others may
    take theirs, Claude Code may refresh or scrub the token it owns or clear the display, and
    any process may stop for good, which frees the swap lock if it holds it. */
module Protocol {
  import opened Wrappers
  import opened Roster

  type Pid = nat
  type Uuid = string

  /** A token with the account it belongs to. The owner is known to the model alone: no step
      looks at it. */
  datatype Token = Token(owner: Uuid, serial: nat)

  /** What a login or a swap is about to make active. */
  datatype Active = Active(uuid: Uuid, token: Token)

  datatype Verb =
    | CaptureVerb(captureHandle: Option<string>)
    | LoginVerb(uuid: Uuid, harvest: Token, loginHandle: Option<string>)
    | SwapVerb(outgoing: Uuid, incoming: Uuid)   // the outgoing account is resolved before the lock
    | HealVerb

  datatype Stage =
    | Parsed                                     // the roster has been read
    | Gated(activate: bool)                      // a login has read its gate
    | Locked(activating: bool)                   // from here on the swap lock is held
    | SawIdentity(seen: Uuid)                    // a capture has read the display
    | SwapSaw(outgoingToken: Token)              // a swap has read the canonical token
    | Holding(under: Uuid, token: Token, target: Option<Active>)
    | HalfStashed(under: Uuid, token: Token, target: Option<Active>)
    | FullyStashed(under: Uuid, token: Token, target: Option<Active>)
    | Repointed(under: Uuid, active: Active)     // the canonical token is written
    | Finishing(under: Uuid)                     // to here
    | Released(planned: seq<Account>)            // the roster is still to be saved
    | HealSaw(current: Token)                    // a heal has read the canonical token
    | Healing(shown: Uuid)                       // and has found the stash that holds it

  /** A process. `sound` records whether what it is going to stash was right when it was read:
      for a capture, that the pair was coherent at the identity read; for a swap, that the
      canonical token was the outgoing account's. No step looks at it. */
  datatype Proc = Proc(verb: Verb, existing: seq<Account>, stage: Stage, sound: bool)

  datatype State = State(
    lock: Option<Pid>,
    canonical: Option<Token>,
    display: Option<Uuid>,
    creds: map<Uuid, Token>,            // the credential item of each stash
    idents: map<Uuid, Uuid>,            // the identity item of each stash
    config: Option<seq<Account>>,       // the roster on disk
    procs: map<Pid, Proc>)

  datatype Action =
    | BeginCapture(p: Pid, captureHandle: Option<string>)
    | BeginLogin(p: Pid, uuid: Uuid, harvest: Token, loginHandle: Option<string>)
    | BeginSwap(p: Pid, outgoing: Uuid, incoming: Uuid)
    | BeginHeal(p: Pid)
    | Gate(p: Pid, read: bool)                   // `read` says whether the display could be read
    | Acquire(p: Pid)
    | Refuse(p: Pid)
    | ReadIdentity(p: Pid)
    | ReadToken(p: Pid)
    | PlanLogin(p: Pid)
    | ReadOutgoing(p: Pid)
    | ReadStashes(p: Pid)
    | WriteCredential(p: Pid)
    | WriteIdentity(p: Pid)
    | Repoint(p: Pid)
    | CoWrite(p: Pid, landed: bool)
    | Release(p: Pid)
    | Save(p: Pid)
    | HealRead(p: Pid)
    | HealMatch(p: Pid, u: Uuid)
    | HealWrite(p: Pid)
    | Stop(p: Pid)
    | RefreshInPlace(refreshed: Token)
    | ScrubToken
    | ClearDisplay

  /** The token is the displayed account's, when there are both. */
  predicate Coherent(s: State) {
    s.canonical.Some? && s.display.Some? ==> s.canonical.value.owner == s.display.value
  }

  /** Both items of the stash are there, so that it reads back. */
  predicate Readable(s: State, u: Uuid) {
    u in s.creds && u in s.idents
  }

  predicate HoldsLock(stage: Stage) {
    !stage.Parsed? && !stage.Gated? && !stage.Released? && !stage.HealSaw? && !stage.Healing?
  }

  predicate WantsLock(proc: Proc) {
    match proc.verb
    case CaptureVerb(_) => proc.stage.Parsed?
    case LoginVerb(_, _, _) => proc.stage.Gated?
    case SwapVerb(_, _) => proc.stage.Parsed?
    case HealVerb => false
  }

  function HandleOf(verb: Verb): Option<string> {
    match verb
    case CaptureVerb(h) => h
    case LoginVerb(_, _, h) => h
    case SwapVerb(_, _) => None
    case HealVerb => None
  }

  /** A swap reads everything before it writes anything, and refuses a canonical token that is
      not the outgoing account's stashed one and is the incoming account's. */
  predicate SwapMayGoOn(s: State, current: Token, outgoing: Uuid, incoming: Uuid) {
    && Readable(s, outgoing) && Readable(s, incoming)
    && (current == s.creds[outgoing] || current != s.creds[incoming])
  }

  predicate Enabled(s: State, a: Action) {
    match a
    case BeginCapture(p, _) => p !in s.procs
    case BeginLogin(p, uuid, harvest, _) => p !in s.procs && harvest.owner == uuid
    case BeginSwap(p, _, _) => p !in s.procs
    case BeginHeal(p) => p !in s.procs
    case Gate(p, _) => p in s.procs && s.procs[p].verb.LoginVerb? && s.procs[p].stage.Parsed?
    case Acquire(p) => p in s.procs && WantsLock(s.procs[p]) && s.lock.None?
    case Refuse(p) => p in s.procs && WantsLock(s.procs[p]) && s.lock.Some?
    case ReadIdentity(p) =>
      p in s.procs && s.procs[p].verb.CaptureVerb? && s.procs[p].stage.Locked? && s.display.Some?
    case ReadToken(p) => p in s.procs && s.procs[p].stage.SawIdentity? && s.canonical.Some?
    case PlanLogin(p) => p in s.procs && s.procs[p].verb.LoginVerb? && s.procs[p].stage.Locked?
    case ReadOutgoing(p) =>
      p in s.procs && s.procs[p].verb.SwapVerb? && s.procs[p].stage.Locked? && s.canonical.Some?
    case ReadStashes(p) =>
      && p in s.procs && s.procs[p].verb.SwapVerb? && s.procs[p].stage.SwapSaw?
      && SwapMayGoOn(s, s.procs[p].stage.outgoingToken, s.procs[p].verb.outgoing, s.procs[p].verb.incoming)
    case WriteCredential(p) =>
      && p in s.procs && s.procs[p].stage.Holding?
      && (s.procs[p].verb.SwapVerb? || !Violates(s.procs[p].stage.under))
    case WriteIdentity(p) => p in s.procs && s.procs[p].stage.HalfStashed?
    case Repoint(p) => p in s.procs && s.procs[p].stage.FullyStashed? && s.procs[p].stage.target.Some?
    case CoWrite(p, _) => p in s.procs && s.procs[p].stage.Repointed?
    case Release(p) =>
      && p in s.procs
      && (s.procs[p].stage.Finishing? || (s.procs[p].stage.FullyStashed? && s.procs[p].stage.target.None?))
    case Save(p) => p in s.procs && s.procs[p].stage.Released?
    case HealRead(p) => p in s.procs && s.procs[p].verb.HealVerb? && s.procs[p].stage.Parsed? && s.canonical.Some?
    case HealMatch(p, u) =>
      && p in s.procs && s.procs[p].stage.HealSaw?
      && Readable(s, u) && s.creds[u] == s.procs[p].stage.current
    case HealWrite(p) => p in s.procs && s.procs[p].stage.Healing?
    case Stop(p) => p in s.procs
    case RefreshInPlace(t) => s.canonical.Some? && t.owner == s.canonical.value.owner
    case ScrubToken => true
    case ClearDisplay => true
  }

  /** The process whose step it is; Claude Code's steps are nobody's. */
  function Actor(a: Action): Option<Pid> {
    if a.RefreshInPlace? || a.ScrubToken? || a.ClearDisplay? then None else Some(a.p)
  }

  // --- what a step does to each part of the state ---

  function LockAfter(s: State, a: Action): Option<Pid> {
    if a.Acquire? then Some(a.p)
    else if a.Release? || (a.Stop? && s.lock == Some(a.p)) then None
    else s.lock
  }

  function CanonicalAfter(s: State, a: Action): Option<Token>
    requires Enabled(s, a)
  {
    if a.Repoint? then Some(s.procs[a.p].stage.target.value.token)
    else if a.RefreshInPlace? then Some(a.refreshed)
    else if a.ScrubToken? then None
    else s.canonical
  }

  function DisplayAfter(s: State, a: Action): Option<Uuid>
    requires Enabled(s, a)
  {
    if a.CoWrite? && a.landed then Some(s.procs[a.p].stage.active.uuid)
    else if a.HealWrite? then Some(s.procs[a.p].stage.shown)
    else if a.ClearDisplay? then None
    else s.display
  }

  function CredsAfter(s: State, a: Action): map<Uuid, Token>
    requires Enabled(s, a)
  {
    if a.WriteCredential? then s.creds[s.procs[a.p].stage.under := s.procs[a.p].stage.token] else s.creds
  }

  /** A swap writes back the identity it read; a capture or a login writes its own. */
  function IdentsAfter(s: State, a: Action): map<Uuid, Uuid>
    requires Enabled(s, a)
  {
    if a.WriteIdentity? then
      var u := s.procs[a.p].stage.under;
      s.idents[u := if s.procs[a.p].verb.SwapVerb? && u in s.idents then s.idents[u] else u]
    else s.idents
  }

  function ConfigAfter(s: State, a: Action): Option<seq<Account>>
    requires Enabled(s, a)
  {
    if a.Save? then Some(s.procs[a.p].stage.planned) else s.config
  }

  predicate Begins(a: Action) {
    a.BeginCapture? || a.BeginLogin? || a.BeginSwap? || a.BeginHeal?
  }

  function VerbBegun(a: Action): Verb
    requires Begins(a)
  {
    match a
    case BeginCapture(_, h) => CaptureVerb(h)
    case BeginLogin(_, u, t, h) => LoginVerb(u, t, h)
    case BeginSwap(_, o, i) => SwapVerb(o, i)
    case BeginHeal(_) => HealVerb
  }

  /** The process is gone after the step; a swap has no roster to save. */
  predicate Ends(s: State, a: Action)
    requires Enabled(s, a)
  {
    a.Refuse? || a.Save? || a.HealWrite? || a.Stop? || (a.Release? && s.procs[a.p].verb.SwapVerb?)
  }

  predicate Advances(a: Action) {
    || a.Gate? || a.Acquire? || a.ReadIdentity? || a.ReadToken? || a.PlanLogin?
    || a.ReadOutgoing? || a.ReadStashes?
    || a.WriteCredential? || a.WriteIdentity? || a.Repoint? || a.CoWrite? || a.Release?
    || a.HealRead? || a.HealMatch?
  }

  /** Where a process that goes on goes to. */
  function StageAfter(s: State, a: Action): Stage
    requires Enabled(s, a) && Advances(a)
  {
    var proc := s.procs[a.p];
    var stage := proc.stage;
    match a
    case Gate(_, read) => Gated(!read || s.display.None? || s.display.value == proc.verb.uuid)
    case Acquire(_) => Locked(stage.Gated? && stage.activate)
    case ReadIdentity(_) => SawIdentity(s.display.value)
    case ReadToken(_) => Holding(stage.seen, s.canonical.value, None)
    case PlanLogin(_) =>
      var active := Active(proc.verb.uuid, proc.verb.harvest);
      Holding(active.uuid, active.token, if stage.activating then Some(active) else None)
    case ReadOutgoing(_) => SwapSaw(s.canonical.value)
    case ReadStashes(_) =>
      var incoming := proc.verb.incoming;
      Holding(proc.verb.outgoing, stage.outgoingToken, Some(Active(s.idents[incoming], s.creds[incoming])))
    case WriteCredential(_) => HalfStashed(stage.under, stage.token, stage.target)
    case WriteIdentity(_) => FullyStashed(stage.under, stage.token, stage.target)
    case Repoint(_) => Repointed(stage.under, stage.target.value)
    case CoWrite(_, _) => Finishing(stage.under)
    case Release(_) => Released(Planned(proc.existing, stage.under, HandleOf(proc.verb)))
    case HealRead(_) => HealSaw(s.canonical.value)
    case HealMatch(_, u) => Healing(s.idents[u])
  }

  function SoundAfter(s: State, a: Action): bool
    requires Enabled(s, a) && Advances(a)
  {
    if a.ReadIdentity? then Coherent(s)
    else if a.ReadOutgoing? then s.canonical.value.owner == s.procs[a.p].verb.outgoing
    else s.procs[a.p].sound
  }

  function ProcsAfter(s: State, a: Action): map<Pid, Proc>
    requires Enabled(s, a)
  {
    if Actor(a).None? then s.procs
    else if Begins(a) then s.procs[a.p := Proc(VerbBegun(a), RosterRead(s, a), Parsed, true)]
    else if Ends(s, a) then s.procs - {a.p}
    else s.procs[a.p := s.procs[a.p].(stage := StageAfter(s, a), sound := SoundAfter(s, a))]
  }

  /** A capture and a login parse the roster first. */
  function RosterRead(s: State, a: Action): seq<Account> {
    if a.BeginCapture? || a.BeginLogin? then RosterOn(s.config) else []
  }

  /** The roster as `load_existing` parses it: an absent file is an empty one. */
  function RosterOn(config: Option<seq<Account>>): seq<Account> {
    match config
    case Some(roster) => roster
    case None => []
  }

  function Next(s: State, a: Action): State
    requires Enabled(s, a)
  {
    State(LockAfter(s, a), CanonicalAfter(s, a), DisplayAfter(s, a), CredsAfter(s, a), IdentsAfter(s, a),
          ConfigAfter(s, a), ProcsAfter(s, a))
  }

  /** What nobody can be kept from: Claude Code refreshes its token in place, for the same
      account, scrubs it, and clears the display; and any process stops, wherever it is,
      which gives up its lock and leaves everything else as it stands. */
  lemma NobodyIsKeptFrom(s: State, p: Pid, t: Token)
    ensures Enabled(s, ScrubToken) && Next(s, ScrubToken) == s.(canonical := None)
    ensures Enabled(s, ClearDisplay) && Next(s, ClearDisplay) == s.(display := None)
    ensures Enabled(s, RefreshInPlace(t)) <==> s.canonical.Some? && s.canonical.value.owner == t.owner
    ensures Enabled(s, RefreshInPlace(t)) ==> Next(s, RefreshInPlace(t)) == s.(canonical := Some(t))
    ensures Enabled(s, Stop(p)) <==> p in s.procs
    ensures p in s.procs ==>
              Next(s, Stop(p)) == s.(lock := if s.lock == Some(p) then None else s.lock, procs := s.procs - {p})
  {
  }

  // --- runs ---

  /** The state after the actions, or `None` if one of them could not happen. */
  ghost function Run(s: State, actions: seq<Action>): Option<State> {
    if actions == [] then Some(s)
    else
      var last := actions[|actions| - 1];
      match Run(s, actions[..|actions| - 1])
      case Some(t) => if Enabled(t, last) then Some(Next(t, last)) else None
      case None => None
  }

  /** The state after the first `k` actions of a run. */
  ghost function StateAt(s: State, actions: seq<Action>, k: nat): State
    requires k <= |actions|
  {
    match Run(s, actions[..k])
    case Some(t) => t
    case None => s
  }

  lemma {:induction false} PrefixRuns(s: State, actions: seq<Action>, k: nat)
    requires Run(s, actions).Some? && k <= |actions|
    ensures Run(s, actions[..k]).Some?
    decreases |actions| - k
  {
    if k == |actions| {
      assert actions[..k] == actions;
    } else {
      PrefixRuns(s, actions, k + 1);
      assert actions[..k + 1][..k] == actions[..k];
    }
  }

  /** Each action of a run happens in the state before it and leads to the state after it. */
  lemma StepOfRun(s: State, actions: seq<Action>, k: nat)
    requires Run(s, actions).Some? && k < |actions|
    ensures Enabled(StateAt(s, actions, k), actions[k])
    ensures StateAt(s, actions, k + 1) == Next(StateAt(s, actions, k), actions[k])
  {
    PrefixRuns(s, actions, k);
    PrefixRuns(s, actions, k + 1);
    assert actions[..k + 1][..k] == actions[..k];
  }

  lemma EndsOfRun(s: State, actions: seq<Action>)
    requires Run(s, actions).Some?
    ensures StateAt(s, actions, 0) == s
    ensures Run(s, actions) == Some(StateAt(s, actions, |actions|))
  {
    assert actions[..|actions|] == actions;
  }

  // --- the lock ---

  /** The process holds the lock exactly when it is at a locked stage. */
  predicate Lawful(s: State, q: Pid) {
    s.lock == Some(q) <==> q in s.procs && HoldsLock(s.procs[q].stage)
  }

  ghost predicate LockHeld(s: State) {
    forall q: Pid :: Lawful(s, q)
  }

  /** A machine on which nothing runs. */
  ghost predicate AtRest(s: State) {
    s.lock == None && s.procs == map[]
  }

  /** The other processes are not touched. */
  lemma StepFrame(s: State, a: Action, q: Pid)
    requires Enabled(s, a) && Actor(a) != Some(q)
    ensures var t := Next(s, a);
            (q in t.procs <==> q in s.procs) && (q in s.procs ==> t.procs[q] == s.procs[q])
  {
  }

  lemma StepKeepsLawful(s: State, a: Action, q: Pid)
    requires Enabled(s, a) && Lawful(s, q) && (Actor(a).Some? ==> Lawful(s, Actor(a).value))
    ensures Lawful(Next(s, a), q)
  {
    if Actor(a) != Some(q) { StepFrame(s, a, q); }
  }

  lemma StepKeepsLock(s: State, a: Action)
    requires LockHeld(s) && Enabled(s, a)
    ensures LockHeld(Next(s, a))
  {
    assert Actor(a).Some? ==> Lawful(s, Actor(a).value);
    forall q: Pid ensures Lawful(Next(s, a), q) {
      StepKeepsLawful(s, a, q);
    }
  }

  lemma {:induction false} LockHeldThroughout(s: State, actions: seq<Action>, k: nat)
    requires LockHeld(s) && Run(s, actions).Some? && k <= |actions|
    ensures LockHeld(StateAt(s, actions, k))
  {
    if k == 0 {
      EndsOfRun(s, actions);
    } else {
      LockHeldThroughout(s, actions, k - 1);
      StepOfRun(s, actions, k - 1);
      StepKeepsLock(StateAt(s, actions, k - 1), actions[k - 1]);
    }
  }

  /** While a process holds the lock none of the other verbs here writes a stash or the active
      token, except Claude Code refreshing or scrubbing the token; and none writes the display,
      except Claude Code clearing it and a heal, which takes no lock. The daemon's re-stash of
      a token it saw change (src/daemon/canonical.rs:401-422) takes no lock either and writes a
      stash: it is not one of the verbs here. */
  lemma OthersRespectTheLock(s: State, a: Action, p: Pid)
    requires LockHeld(s) && s.lock == Some(p) && Enabled(s, a) && Actor(a) != Some(p)
    ensures var t := Next(s, a);
            && t.lock == Some(p) && p in t.procs && t.procs[p] == s.procs[p]
            && t.creds == s.creds && t.idents == s.idents
            && (t.canonical == s.canonical || a.RefreshInPlace? || a.ScrubToken?)
            && (t.display == s.display || a.ClearDisplay? || a.HealWrite?)
  {
    assert Lawful(s, p);
    assert Actor(a).Some? ==> Lawful(s, Actor(a).value);
    StepFrame(s, a, p);
  }

  /** A contended acquire is a refusal, and it reads and writes nothing. */
  lemma ContendedAcquireIsANoOp(s: State, p: Pid, a: Action)
    requires LockHeld(s) && p in s.procs && WantsLock(s.procs[p]) && s.lock.Some?
    requires Enabled(s, a) && Actor(a) == Some(p)
    ensures Next(s, a) == s.(procs := s.procs - {p})
  {
    assert Lawful(s, p);
  }
}
