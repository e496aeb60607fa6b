/** Runs in which a stash ends up with another account's token: one for each way in which the
    pairing theorem says it can. Each is given for every machine at rest, every pair of
    accounts and every token, and none of them stops a process or fails a stash write. And
    what the guard of the swap does about it, exactly. */
module MisKeyedRuns {
  import opened Wrappers
  import opened Roster
  import opened Protocol
  import opened Pairing

  lemma RunThen(s: State, actions: seq<Action>, t: State, a: Action)
    requires Run(s, actions) == Some(t) && Enabled(t, a)
    ensures Run(s, actions + [a]) == Some(Next(t, a))
  {
    assert (actions + [a])[..|actions|] == actions;
  }

  lemma {:induction false} RunConcat(s: State, first: seq<Action>, t: State, second: seq<Action>)
    requires Run(s, first) == Some(t)
    ensures Run(s, first + second) == Run(t, second)
  {
    if second == [] {
      assert first + second == first;
    } else {
      var n := |second| - 1;
      RunConcat(s, first, t, second[..n]);
      assert (first + second)[..|first| + n] == first + second[..n];
    }
  }

  lemma RunOne(s: State, a: Action)
    requires Enabled(s, a)
    ensures Run(s, [a]) == Some(Next(s, a))
  {
    assert [a][..0] == [];
  }

  lemma RunTwo(s: State, x: Action, t: State, y: Action)
    requires Enabled(s, x) && t == Next(s, x) && Enabled(t, y)
    ensures Run(s, [x] + [y]) == Some(Next(t, y))
  {
    RunOne(s, x);
    RunThen(s, [x], t, y);
  }

  lemma RunThree(s: State, x: Action, t: State, y: Action, u: State, z: Action)
    requires Enabled(s, x) && t == Next(s, x) && Enabled(t, y) && u == Next(t, y) && Enabled(u, z)
    ensures Run(s, [x] + [y] + [z]) == Some(Next(u, z))
  {
    RunTwo(s, x, t, y);
    RunThen(s, [x] + [y], u, z);
  }

  // --- one verb, undisturbed ---

  function SwapBody(p: Pid, landed: bool): seq<Action> {
    SwapReads(p) + (SwapReStash(p) + ([Repoint(p)] + [CoWrite(p, landed)] + [Release(p)]))
  }

  function SwapReads(p: Pid): seq<Action> {
    [Acquire(p)] + [ReadOutgoing(p)] + [ReadStashes(p)]
  }

  function SwapReStash(p: Pid): seq<Action> {
    [WriteCredential(p)] + [WriteIdentity(p)]
  }

  function CaptureReads(p: Pid): seq<Action> {
    [Acquire(p)] + [ReadIdentity(p)] + [ReadToken(p)]
  }

  function CaptureBody(p: Pid): seq<Action> {
    CaptureReads(p) + ([WriteCredential(p)] + [WriteIdentity(p)] + [Release(p)])
  }

  /** The state with the process at another stage. */
  function Moved(s: State, p: Pid, stage: Stage, sound: bool): State
    requires p in s.procs
  {
    s.(procs := s.procs[p := s.procs[p].(stage := stage, sound := sound)])
  }

  lemma MovedTwice(s: State, p: Pid, first: Stage, b: bool, second: Stage, c: bool)
    requires p in s.procs
    ensures Moved(Moved(s, p, first, b), p, second, c) == Moved(s, p, second, c)
  {
    assert s.procs[p := s.procs[p].(stage := first, sound := b)][p := s.procs[p].(stage := second, sound := c)]
        == s.procs[p := s.procs[p].(stage := second, sound := c)];
  }

  lemma AcquireAlone(s: State, p: Pid) returns (t: State)
    requires p in s.procs && !s.procs[p].verb.LoginVerb? && WantsLock(s.procs[p]) && s.lock.None?
    ensures Enabled(s, Acquire(p)) && t == Next(s, Acquire(p))
    ensures t == Moved(s, p, Locked(false), s.procs[p].sound).(lock := Some(p))
  {
    t := Next(s, Acquire(p));
  }

  lemma OutgoingReadAlone(s: State, p: Pid) returns (t: State)
    requires p in s.procs && s.procs[p].verb.SwapVerb? && s.procs[p].stage.Parsed? && s.lock.None?
    requires s.canonical.Some?
    ensures Run(s, [Acquire(p)] + [ReadOutgoing(p)]) == Some(t)
    ensures t == Moved(s, p, SwapSaw(s.canonical.value), s.canonical.value.owner == s.procs[p].verb.outgoing)
                 .(lock := Some(p))
    ensures var verb := s.procs[p].verb;
            Enabled(t, ReadStashes(p)) <==> SwapMayGoOn(s, s.canonical.value, verb.outgoing, verb.incoming)
  {
    var s1 := AcquireAlone(s, p);
    t := Next(s1, ReadOutgoing(p));
    MovedTwice(s, p, Locked(false), s.procs[p].sound, t.procs[p].stage, t.procs[p].sound);
    RunTwo(s, Acquire(p), s1, ReadOutgoing(p));
  }

  lemma SwapReadsAlone(s: State, p: Pid) returns (t: State)
    requires p in s.procs && s.procs[p].verb.SwapVerb? && s.procs[p].stage.Parsed? && s.lock.None?
    requires s.canonical.Some?
    requires SwapMayGoOn(s, s.canonical.value, s.procs[p].verb.outgoing, s.procs[p].verb.incoming)
    ensures Run(s, SwapReads(p)) == Some(t)
    ensures var outgoing, incoming := s.procs[p].verb.outgoing, s.procs[p].verb.incoming;
            var target := Some(Active(s.idents[incoming], s.creds[incoming]));
            t == Moved(s, p, Holding(outgoing, s.canonical.value, target), s.canonical.value.owner == outgoing)
                 .(lock := Some(p))
  {
    var s1 := OutgoingReadAlone(s, p);
    t := Next(s1, ReadStashes(p));
    MovedTwice(s, p, s1.procs[p].stage, s1.procs[p].sound, t.procs[p].stage, t.procs[p].sound);
    RunThen(s, [Acquire(p)] + [ReadOutgoing(p)], s1, ReadStashes(p));
  }

  lemma SwapReStashAlone(s: State, p: Pid) returns (t: State)
    requires p in s.procs && s.procs[p].verb.SwapVerb? && s.procs[p].stage.Holding?
    requires s.procs[p].stage.under in s.idents
    ensures Run(s, SwapReStash(p)) == Some(t)
    ensures var stage := s.procs[p].stage;
            t == Moved(s, p, FullyStashed(stage.under, stage.token, stage.target), s.procs[p].sound)
                 .(creds := s.creds[stage.under := stage.token])
  {
    var stage, sound := s.procs[p].stage, s.procs[p].sound;
    var s1 := Next(s, WriteCredential(p));
    t := Next(s1, WriteIdentity(p));
    RunTwo(s, WriteCredential(p), s1, WriteIdentity(p));
    assert s.idents[stage.under := s.idents[stage.under]] == s.idents;
    MovedTwice(s, p, HalfStashed(stage.under, stage.token, stage.target), sound,
               FullyStashed(stage.under, stage.token, stage.target), sound);
  }

  lemma SwapTail(s: State, p: Pid, landed: bool)
    requires p in s.procs && s.procs[p].verb.SwapVerb? && s.procs[p].stage.FullyStashed?
    requires s.procs[p].stage.target.Some?
    ensures var active := s.procs[p].stage.target.value;
            Run(s, [Repoint(p)] + [CoWrite(p, landed)] + [Release(p)]) ==
              Some(State(None, Some(active.token), if landed then Some(active.uuid) else s.display,
                         s.creds, s.idents, s.config, s.procs - {p}))
  {
    var active, under := s.procs[p].stage.target.value, s.procs[p].stage.under;
    var s1 := Moved(s, p, Repointed(under, active), s.procs[p].sound).(canonical := Some(active.token));
    assert Next(s, Repoint(p)) == s1;
    var s2 := Moved(s, p, Finishing(under), s.procs[p].sound)
              .(canonical := Some(active.token), display := if landed then Some(active.uuid) else s.display);
    assert Next(s1, CoWrite(p, landed)).procs == s2.procs;
    assert Next(s2, Release(p)).procs == s.procs - {p};
    RunThree(s, Repoint(p), s1, CoWrite(p, landed), s2, Release(p));
  }

  /** What a swap that nothing disturbs does: the canonical token goes under the outgoing
      account, the incoming account's becomes canonical, and its identity is displayed. */
  lemma SwapAlone(s: State, p: Pid, landed: bool)
    requires p in s.procs && s.procs[p].verb.SwapVerb? && s.procs[p].stage.Parsed? && s.lock.None?
    requires s.canonical.Some?
    requires SwapMayGoOn(s, s.canonical.value, s.procs[p].verb.outgoing, s.procs[p].verb.incoming)
    ensures var outgoing, incoming := s.procs[p].verb.outgoing, s.procs[p].verb.incoming;
            Run(s, SwapBody(p, landed)) == Some(
              State(None, Some(s.creds[incoming]),
                    if landed then Some(s.idents[incoming]) else s.display,
                    s.creds[outgoing := s.canonical.value], s.idents, s.config, s.procs - {p}))
  {
    var read := SwapReadsAlone(s, p);
    var stashed := SwapReStashAlone(read, p);
    SwapTail(stashed, p, landed);
    assert stashed.procs - {p} == s.procs - {p};
    var tail := [Repoint(p)] + [CoWrite(p, landed)] + [Release(p)];
    RunConcat(read, SwapReStash(p), stashed, tail);
    RunConcat(s, SwapReads(p), read, SwapReStash(p) + tail);
  }

  lemma CaptureReadsAlone(s: State, p: Pid) returns (t: State)
    requires p in s.procs && s.procs[p].verb.CaptureVerb? && s.procs[p].stage.Parsed? && s.lock.None?
    requires s.canonical.Some? && s.display.Some?
    ensures Run(s, CaptureReads(p)) == Some(t)
    ensures t == Moved(s, p, Holding(s.display.value, s.canonical.value, None), Coherent(s)).(lock := Some(p))
  {
    var s1 := AcquireAlone(s, p);
    var s2 := Next(s1, ReadIdentity(p));
    MovedTwice(s, p, Locked(false), s.procs[p].sound, SawIdentity(s.display.value), Coherent(s));
    t := Next(s2, ReadToken(p));
    MovedTwice(s, p, SawIdentity(s.display.value), Coherent(s),
               Holding(s.display.value, s.canonical.value, None), Coherent(s));
    RunThree(s, Acquire(p), s1, ReadIdentity(p), s2, ReadToken(p));
  }

  /** The two stash writes of a capture or a login. */
  lemma StashAlone(s: State, p: Pid) returns (t: State)
    requires p in s.procs && !s.procs[p].verb.SwapVerb? && s.procs[p].stage.Holding?
    requires !Violates(s.procs[p].stage.under)
    ensures Run(s, [WriteCredential(p)] + [WriteIdentity(p)]) == Some(t)
    ensures var stage := s.procs[p].stage;
            t == Moved(s, p, FullyStashed(stage.under, stage.token, stage.target), s.procs[p].sound)
                 .(creds := s.creds[stage.under := stage.token], idents := s.idents[stage.under := stage.under])
  {
    var stage, sound := s.procs[p].stage, s.procs[p].sound;
    var s1 := Next(s, WriteCredential(p));
    t := Next(s1, WriteIdentity(p));
    MovedTwice(s, p, HalfStashed(stage.under, stage.token, stage.target), sound, t.procs[p].stage, sound);
    RunTwo(s, WriteCredential(p), s1, WriteIdentity(p));
  }

  /** And the release after them, when nothing is to be made active. */
  lemma StashAndReleaseAlone(s: State, p: Pid) returns (t: State)
    requires p in s.procs && !s.procs[p].verb.SwapVerb? && s.procs[p].stage.Holding?
    requires s.procs[p].stage.target.None? && !Violates(s.procs[p].stage.under)
    ensures Run(s, [WriteCredential(p)] + [WriteIdentity(p)] + [Release(p)]) == Some(t)
    ensures var under := s.procs[p].stage.under;
            t == Moved(s, p, Released(Planned(s.procs[p].existing, under, HandleOf(s.procs[p].verb))), s.procs[p].sound)
                 .(lock := None, creds := s.creds[under := s.procs[p].stage.token], idents := s.idents[under := under])
  {
    var u := StashAlone(s, p);
    t := Next(u, Release(p));
    MovedTwice(s, p, u.procs[p].stage, u.procs[p].sound, t.procs[p].stage, t.procs[p].sound);
    RunThen(s, [WriteCredential(p)] + [WriteIdentity(p)], u, Release(p));
  }

  /** What a capture that nothing disturbs does: the canonical token goes under the account
      on display, whoever it belongs to, and the roster that it parsed is to be saved with
      that account in it. */
  lemma CaptureAlone(s: State, p: Pid)
    requires p in s.procs && s.procs[p].verb.CaptureVerb? && s.procs[p].stage.Parsed? && s.lock.None?
    requires s.canonical.Some? && s.display.Some? && !Violates(s.display.value)
    ensures var shown := s.display.value;
            var planned := Planned(s.procs[p].existing, shown, HandleOf(s.procs[p].verb));
            Run(s, CaptureBody(p)) == Some(
              Moved(s, p, Released(planned), Coherent(s))
              .(creds := s.creds[shown := s.canonical.value], idents := s.idents[shown := shown]))
  {
    var t := CaptureReadsAlone(s, p);
    var u := StashAndReleaseAlone(t, p);
    MovedTwice(s, p, t.procs[p].stage, t.procs[p].sound, u.procs[p].stage, u.procs[p].sound);
    RunConcat(s, CaptureReads(p), t, [WriteCredential(p)] + [WriteIdentity(p)] + [Release(p)]);
  }

  lemma CaptureFromRest(s: State, p: Pid)
    requires s.lock.None? && p !in s.procs
    requires s.canonical.Some? && s.display.Some? && !Violates(s.display.value)
    ensures var r := Run(s, [BeginCapture(p, None)] + CaptureBody(p));
            r.Some? && r.value.creds == s.creds[s.display.value := s.canonical.value]
  {
    var s1 := Next(s, BeginCapture(p, None));
    RunOne(s, BeginCapture(p, None));
    CaptureAlone(s1, p);
    RunConcat(s, [BeginCapture(p, None)], s1, CaptureBody(p));
  }

  lemma SwapFromRest(s: State, p: Pid, outgoing: Uuid, incoming: Uuid, landed: bool)
    requires s.lock.None? && p !in s.procs && s.canonical.Some?
    requires SwapMayGoOn(s, s.canonical.value, outgoing, incoming)
    ensures Run(s, [BeginSwap(p, outgoing, incoming)] + SwapBody(p, landed)) == Some(
              State(None, Some(s.creds[incoming]),
                    if landed then Some(s.idents[incoming]) else s.display,
                    s.creds[outgoing := s.canonical.value], s.idents, s.config, s.procs))
  {
    var begin := BeginSwap(p, outgoing, incoming);
    var s1 := Next(s, begin);
    RunOne(s, begin);
    SwapAlone(s1, p, landed);
    assert s1.procs - {p} == s.procs;
    RunConcat(s, [begin], s1, SwapBody(p, landed));
  }

  // --- the three ways ---

  /** A machine at rest in good order, with account `a` active and `b` stashed. */
  ghost predicate ReadyToSwap(s: State, a: Uuid, b: Uuid) {
    && AtRest(s) && StashPaired(s) && a != b && !Violates(a)
    && Readable(s, a) && Readable(s, b)
    && s.display == Some(a) && s.canonical == Some(s.creds[a])
  }

  /** The stash of `a` holds a token of `b`. */
  predicate MisKeyed(s: State, a: Uuid, b: Uuid) {
    a in s.creds && s.creds[a].owner == b
  }

  function FailedCoWriteRun(a: Uuid, b: Uuid): seq<Action> {
    ([BeginSwap(0, a, b)] + SwapBody(0, false)) + ([BeginCapture(1, None)] + CaptureBody(1))
  }

  /** A swap whose display write fails, and then a capture: the incoming account's token is
      stashed under the outgoing account. Nothing here is concurrent. */
  lemma FailedCoWriteMisKeys(s: State, a: Uuid, b: Uuid)
    requires ReadyToSwap(s, a, b)
    ensures var r := Run(s, FailedCoWriteRun(a, b));
            r.Some? && MisKeyed(r.value, a, b)
  {
    SwapFromRest(s, 0, a, b, false);
    var t := Run(s, [BeginSwap(0, a, b)] + SwapBody(0, false)).value;
    CaptureFromRest(t, 1);
    RunConcat(s, [BeginSwap(0, a, b)] + SwapBody(0, false), t, [BeginCapture(1, None)] + CaptureBody(1));
    assert t.creds[b] == s.creds[b];
  }

  function HealReads(a: Uuid): seq<Action> {
    [BeginHeal(2)] + [HealRead(2)] + [HealMatch(2, a)]
  }

  function StaleHealRun(a: Uuid, b: Uuid): seq<Action> {
    HealReads(a) + (([BeginSwap(0, a, b)] + SwapBody(0, true))
      + ([HealWrite(2)] + ([BeginCapture(1, None)] + CaptureBody(1))))
  }

  /** A heal takes no lock: one that read the token before a swap, and writes the display
      after it, undoes the swap's display, and the next capture mis-keys. Every display write
      lands. */
  lemma StaleHealMisKeys(s: State, a: Uuid, b: Uuid)
    requires ReadyToSwap(s, a, b)
    ensures var r := Run(s, StaleHealRun(a, b));
            r.Some? && MisKeyed(r.value, a, b)
  {
    var t := HealBegun(s, a);
    SwapFromRest(t, 0, a, b, true);
    var u := Run(t, [BeginSwap(0, a, b)] + SwapBody(0, true)).value;
    var v := Next(u, HealWrite(2));
    RunOne(u, HealWrite(2));
    CaptureFromRest(v, 1);
    var last := [BeginCapture(1, None)] + CaptureBody(1);
    RunConcat(u, [HealWrite(2)], v, last);
    RunConcat(t, [BeginSwap(0, a, b)] + SwapBody(0, true), u, [HealWrite(2)] + last);
    RunConcat(s, HealReads(a), t,
              ([BeginSwap(0, a, b)] + SwapBody(0, true)) + ([HealWrite(2)] + last));
    assert v.canonical == Some(s.creds[b]) && v.display == Some(a);
  }

  lemma HealBegun(s: State, a: Uuid) returns (t: State)
    requires AtRest(s) && Readable(s, a) && s.canonical == Some(s.creds[a])
    ensures Run(s, HealReads(a)) == Some(t)
    ensures t == s.(procs := t.procs) && t.procs.Keys == {2} && t.procs[2].stage == Healing(s.idents[a])
  {
    var s1 := Next(s, BeginHeal(2));
    var s2 := HealReadAlone(s1, 2);
    t := Next(s2, HealMatch(2, a));
    RunThree(s, BeginHeal(2), s1, HealRead(2), s2, HealMatch(2, a));
  }

  lemma HealReadAlone(s: State, p: Pid) returns (t: State)
    requires p in s.procs && s.procs[p].verb.HealVerb? && s.procs[p].stage.Parsed? && s.canonical.Some?
    ensures Enabled(s, HealRead(p)) && t == Next(s, HealRead(p))
    ensures t == Moved(s, p, HealSaw(s.canonical.value), s.procs[p].sound)
  {
    t := Next(s, HealRead(p));
  }

  function StaleSwapRun(a: Uuid, b: Uuid, c: Uuid): seq<Action> {
    [BeginSwap(1, a, c)] + (([BeginSwap(0, a, b)] + SwapBody(0, true)) + SwapBody(1, true))
  }

  /** Two swaps away from the same account, to different ones, both of which resolved the
      outgoing account before either took the lock: the second stashes the first one's
      incoming token under it. The guard does not refuse it, for the token is not the second
      one's incoming token. */
  lemma StaleSwapMisKeys(s: State, a: Uuid, b: Uuid, c: Uuid)
    requires ReadyToSwap(s, a, b) && Readable(s, c) && c != a && c != b
    ensures var r := Run(s, StaleSwapRun(a, b, c));
            r.Some? && MisKeyed(r.value, a, b)
  {
    var begin := BeginSwap(1, a, c);
    var t := Next(s, begin);
    RunOne(s, begin);
    SwapFromRest(t, 0, a, b, true);
    var u := Run(t, [BeginSwap(0, a, b)] + SwapBody(0, true)).value;
    assert u.creds[c].owner == c && u.canonical.value.owner == b;
    SwapAlone(u, 1, true);
    RunConcat(t, [BeginSwap(0, a, b)] + SwapBody(0, true), u, SwapBody(1, true));
    RunConcat(s, [begin], t, ([BeginSwap(0, a, b)] + SwapBody(0, true)) + SwapBody(1, true));
  }

  // --- the guard ---

  /** What the guard decides, while the stashes are paired: a swap told right is never refused,
      and one told wrong is refused exactly when the token is byte for byte the incoming
      account's stashed one. */
  lemma GuardRefusesExactlyWhen(s: State, current: Token, outgoing: Uuid, incoming: Uuid)
    requires StashPaired(s) && Readable(s, outgoing) && Readable(s, incoming)
    ensures !SwapMayGoOn(s, current, outgoing, incoming) <==>
            current.owner != outgoing && current == s.creds[incoming]
  {
  }

  /** A swap from `a` to `b` in full, while another one for the same two waits, and then
      Claude Code refreshing the token. */
  function RepeatedSwapRun(a: Uuid, b: Uuid, newer: Token): seq<Action> {
    [BeginSwap(1, a, b)] + (([BeginSwap(0, a, b)] + SwapBody(0, true)) + [RefreshInPlace(newer)])
  }

  lemma RepeatedSwapWaits(s: State, a: Uuid, b: Uuid, newer: Token) returns (t: State)
    requires ReadyToSwap(s, a, b) && newer.owner == b
    ensures Run(s, RepeatedSwapRun(a, b, newer)) == Some(t)
    ensures t.lock.None? && 1 in t.procs && t.procs[1].verb == SwapVerb(a, b) && t.procs[1].stage.Parsed?
    ensures t.canonical == Some(newer) && t.creds == s.creds && t.idents == s.idents
  {
    var begin := BeginSwap(1, a, b);
    var s1 := Next(s, begin);
    RunOne(s, begin);
    SwapFromRest(s1, 0, a, b, true);
    var swapped := [BeginSwap(0, a, b)] + SwapBody(0, true);
    var u := Run(s1, swapped).value;
    t := Next(u, RefreshInPlace(newer));
    RunThen(s1, swapped, u, RefreshInPlace(newer));
    RunConcat(s, [begin], s1, swapped + [RefreshInPlace(newer)]);
    assert s.creds[a := s.creds[a]] == s.creds;
  }

  /** The same swap asked for twice, both told before either took the lock: the second one is
      refused exactly when the token has not been refreshed since the first. */
  lemma RepeatedSwapRefusedExactlyWhen(s: State, a: Uuid, b: Uuid, newer: Token)
    requires ReadyToSwap(s, a, b) && newer.owner == b
    ensures var r := Run(s, RepeatedSwapRun(a, b, newer) + ([Acquire(1)] + [ReadOutgoing(1)]));
            r.Some? && (!Enabled(r.value, ReadStashes(1)) <==> newer == s.creds[b])
  {
    var t := RepeatedSwapWaits(s, a, b, newer);
    var read := OutgoingReadAlone(t, 1);
    GuardRefusesExactlyWhen(t, newer, a, b);
    RunConcat(s, RepeatedSwapRun(a, b, newer), t, [Acquire(1)] + [ReadOutgoing(1)]);
  }

  /** When it has been, the second swap stashes the refreshed token of `b` under `a`. */
  lemma RefreshedRepeatMisKeys(s: State, a: Uuid, b: Uuid, newer: Token)
    requires ReadyToSwap(s, a, b) && newer.owner == b && newer != s.creds[b]
    ensures var r := Run(s, RepeatedSwapRun(a, b, newer) + SwapBody(1, true));
            r.Some? && MisKeyed(r.value, a, b)
  {
    var t := RepeatedSwapWaits(s, a, b, newer);
    SwapAlone(t, 1, true);
    RunConcat(s, RepeatedSwapRun(a, b, newer), t, SwapBody(1, true));
  }

  /** A swap of an account with itself stashes the token it finds and makes the one that the
      stash held before canonical. The canonical token is a stashed one afterwards exactly
      when it had not drifted from its stash. */
  lemma SelfSwapGoesBack(s: State, a: Uuid, landed: bool)
    requires AtRest(s) && StashPaired(s) && Readable(s, a) && s.canonical.Some? && s.canonical.value.owner == a
    ensures var r := Run(s, [BeginSwap(0, a, a)] + SwapBody(0, landed));
            && r.Some? && StashPaired(r.value)
            && r.value.canonical == Some(s.creds[a])
            && ((exists u :: Readable(r.value, u) && r.value.creds[u] == r.value.canonical.value)
                <==> s.canonical.value == s.creds[a])
  {
    SwapFromRest(s, 0, a, a, landed);
    var t := Run(s, [BeginSwap(0, a, a)] + SwapBody(0, landed)).value;
    assert t.creds == s.creds[a := s.canonical.value] && t.idents == s.idents;
    if u :| Readable(t, u) && t.creds[u] == t.canonical.value {
      assert u == a;
    }
    if s.canonical.value == s.creds[a] {
      assert Readable(t, a) && t.creds[a] == t.canonical.value;
    }
  }
}
