# A verified model of credential rotation

This project models, in Dafny, the parts of the program that move Claude Code credentials
between accounts, and the decision procedures around them, and proves what they promise.

- **The credential protocol.** `Protocol` is a step system over one canonical token, one
  displayed identity, the stash (two items an account), the roster on disk and the swap lock.
  Any number of captures, logins, swaps and display heals run in it, one read or one write at
  a time. Claude Code may refresh or scrub its token and clear the display between any two
  steps, and a process may stop after any step, which stands for a crash as well as for an
  error return. `Pairing` says exactly when a stash can come to hold another account's token,
  in terms that can be observed: the account made active last. `MisKeyedRuns` shows the runs
  in which it does, and what the swap's guard makes of them, `AppendOnly` says what a crash
  can leave behind, `ActiveSlot` says when a login takes the active slot, and `RosterRuns` what
  the saves of overlapping verbs make of the roster on disk. `Machine` holds the verbs
  themselves, statement by statement, each proved to be a run of the protocol under every
  interference and every read and write failure; so everything proved about runs holds of
  them. And each is proved to succeed exactly when it should, and what it leaves is given,
  when nobody interferes and nothing fails.
- **The canary and the resolvers** (`Canary`), over the state file (`ClaudeState`) and the
  roster (`Roster`).
- **The Windows control pipe.** `PipeAccounting` is the step system of its instance
  accounting, `ControlListener` the listener's methods proved to be runs of it, `PipeClient`
  the client's retries.
- **The isolated login** (`IsolatedLogin`): an arbitrary child, an arbitrary failure or
  cancellation at every await, and teardown.
- **Decision procedures.** The severity manifest (`Manifest`, `Projection`), the rank
  comparator and its canary (`FaultRanks`), the owner-only DACL (`FilePolicy`, SDDL as in
  [MS-DTYP] section 2.5.1), the framing vocabulary (`Framing`), the hex codec (`Hex`) and the
  sleep-inclusive clock (`Clock`). `Text` and `Wrappers` are shared helpers.

Tokens carry their owner in the model so that mis-keying can be stated; no step looks at it.
I/O, the operating system and the other processes enter as answers and scripts that the
contracts quantify over.

## Where the code and its documentation part

- `src/swap.rs:1064-1070` says that a swap which waited for the lock proceeds on fresh state.
  The outgoing account is not fresh: its caller resolves it before the lock is taken. As long
  as the stashes are paired, the guard of `src/swap.rs:850-854` never refuses a swap that was
  told right, and refuses one that was told wrong exactly when the token is the incoming
  account's stashed one (`MisKeyedRuns.GuardRefusesExactlyWhen`). So two swaps away from one
  account to different ones stash the first one's incoming token under it
  (`MisKeyedRuns.StaleSwapMisKeys`); and of two identical ones the second is refused exactly
  as long as Claude Code has not refreshed the token in between
  (`MisKeyedRuns.RepeatedSwapRefusedExactlyWhen`), and mis-keys when it has
  (`MisKeyedRuns.RefreshedRepeatMisKeys`). A swap is told right exactly when the account it
  was told is the one made active last (`Pairing.ResolvedExactlyWhenActive`).
- `src/capture.rs:248-255` makes the two reads of a capture one atomic pair. That holds with
  respect to swaps, which take the lock; the display heal of `src/canary.rs:267-291` takes no
  lock (`MisKeyedRuns.StaleHealMisKeys`). A capture does not heal a display that a failed
  co-write left behind either (`MisKeyedRuns.FailedCoWriteMisKeys`).
- The gate of a login is read before the lock, and a display that cannot be read counts as
  nobody displayed (`src/capture.rs:991-999`). With no display write in between, its answer is
  right under the lock exactly when the read succeeded or the answer is "take the slot" anyway
  (`ActiveSlot.GateHoldsAtTheLock`), and otherwise exactly when the last write would have had
  it answer the same (`ActiveSlot.GateHoldsExactlyWhen`). So a login takes the slot of another
  account when a swap comes in between (`ActiveSlot.StaleGateTakesTheSlot`), and when that one
  read fails although nothing else happens at all (`ActiveSlot.UnreadGateTakesTheSlot`).
- A roster save is never smaller than the roster its verb has read, as `src/capture.rs:140-141`
  says; it may be smaller than the one on disk. An account is rostered after a save exactly
  when it was when the verb began, or is the verb's own (`RosterRuns.RosteredAfterSaveExactlyWhen`):
  `src/capture.rs:946-952` admits as much for a `config set` in between, and two of these verbs
  do it to each other (`RosterRuns.OverlappingVerbsLoseARow`).
- The manifest's self-check does not notice a group that names a fault twice, and such a group
  lets one arbitration go missing (`Manifest.RepeatedMemberHidesAMissingEdge`).
- With one token under two stashes the heal may rewrite a display that already matched
  (`Canary.RightDisplayIsLeftAlone` says exactly when).

## Model

| member | source | states |
|---|---|---|
| Protocol.StepKeepsLock | src/swap.rs:1022-1059 | in every step of every verb, the process at a locked stage is the one that holds the swap lock, and the only one |
| Protocol.OthersRespectTheLock | src/capture.rs:246-258 | while a process holds the lock no other capture, login, swap or heal changes a stash, and the token and the display change only by Claude Code's own refresh, scrub or clear, or by an unlocked heal; the daemon's unlocked re-stash is not among the verbs |
| Protocol.ContendedAcquireIsANoOp | src/capture.rs:892-898 | a verb that wants a lock somebody holds can only give up, and giving up changes nothing |
| Protocol.NobodyIsKeptFrom | src/active.rs:7-18 | in every state Claude Code may refresh the token for its own account, scrub it or clear the display, and any process may stop, giving up its lock and nothing else |
| Pairing.StashesStayPairedExactlyWhen | src/capture.rs:246-258 | from any start with paired stashes, over every interleaving, with refusals, failures and stops: every stash holds its own account's token in every state if and only if no step writes a credential whose owner, known to the model alone, was not the account it is written under when it was read |
| Pairing.StepKeepsPairedExactlyWhen | src/stash.rs:206-232 | the one step that can unpair a stash, and exactly when it does |
| Pairing.PairStaysInOrderExactlyWhen | src/capture.rs:1985-1998 | the same in what can be observed, for every run from a coherent start and whatever the swaps were told: token and display agree outside a holder's write window and every stash is paired, in every state, if and only if no co-write fails over another account's display, no process stops inside the window over one, no heal shows an account that is not the active one, and no swap writes back a token that it read when another account than the one it was told had been made active last |
| Pairing.FreshSwapsStayInOrderExactlyWhen | src/active.rs:43-57 | when every swap resolves its outgoing account outside a write window with nothing made active before its read, the first three are the exact condition, and then the pair is coherent whenever the lock is free |
| Pairing.ResolvedExactlyWhenActive | src/swap.rs:814-818 | a swap is told right if and only if the account it was told is the one made active last |
| Pairing.ResolvedExactlyWhenLastTarget | src/swap.rs:814-818 | with a re-point before the read: if and only if the account it was told is that re-point's target |
| Pairing.ResolvedExactlyWhenStashed | src/active.rs:43-57 | when some stash holds the token: if and only if the outgoing account's does |
| Pairing.ActiveToBeginWith | src/active.rs:43-57 | the account active at the start of a run is the one the resolver names then |
| Pairing.TokenIsTheActiveAccounts | src/swap.rs:869-876 | as long as everything is in order, the canonical token is that of the account made active last |
| Pairing.StepSettlesExactlyWhen | src/capture.rs:836-843 | the steps that tear the pair apart, exactly |
| Pairing.FreshIsCurrent | src/active.rs:43-57 | an outgoing account resolved in order, with nothing made active since, is the active one |
| MisKeyedRuns.SwapAlone | src/swap.rs:803-889 | what an undisturbed swap does to the whole state |
| MisKeyedRuns.CaptureAlone | src/capture.rs:246-258 | what an undisturbed capture does to the whole state: the canonical token is stashed under whoever is displayed, and the roster it parsed is to be saved with that account |
| MisKeyedRuns.FailedCoWriteMisKeys | src/capture.rs:842 | from any machine in order: a swap whose display write fails, then a capture, leave the incoming account's token under the outgoing one |
| MisKeyedRuns.StaleHealMisKeys | src/canary.rs:267-291 | a heal that read before a swap and writes after it makes the next capture mis-key, although every write lands |
| MisKeyedRuns.StaleSwapMisKeys | src/swap.rs:850-854 | two swaps away from one account, resolved before either locked, mis-key past the guard |
| MisKeyedRuns.GuardRefusesExactlyWhen | src/swap.rs:850-854 | while the stashes are paired the guard refuses a swap if and only if the token is not the outgoing account's and is the incoming account's stashed one |
| MisKeyedRuns.RepeatedSwapRefusedExactlyWhen | src/swap.rs:850-854 | of two identical swaps, both told before either locked, the second is refused if and only if the token has not been refreshed since the first |
| MisKeyedRuns.RefreshedRepeatMisKeys | src/swap.rs:841-846 | when it has, the second one stashes the incoming account's refreshed token under the outgoing one |
| MisKeyedRuns.SelfSwapGoesBack | src/swap.rs:814-876 | a swap of an account with itself, which the code documents as the way to adopt an imported credential, makes the token canonical that its stash held before; that one is still stashed if and only if the token had not drifted |
| AppendOnly.RosterNamesOnlyStashedAccounts | src/capture.rs:583-585 | in every state of every run, with stops anywhere and lost roster updates: every account named by the roster on disk, by a roster some process has parsed, or by one about to be saved, has a stash that can be read back |
| AppendOnly.StashNeverShrinks | src/capture.rs:945-950 | no stash item ever disappears in a run |
| AppendOnly.RepointIsAlreadyStashed | src/capture.rs:825-843 | whatever a login makes canonical is its harvest; the account made active has a readable stash and the outgoing one is stashed by then; and the new canonical token is the one in that stash, except exactly when a swap of an account with itself read a token that had drifted |
| AppendOnly.PlannedRowsReadable | src/capture.rs:635-685 | planning adds no account but the one just stashed |
| RosterRuns.SavesThePlan | src/capture.rs:98-138 | in every run a save writes the plan for one account, the one logging in or the one the capture saw displayed, on the roster that was on disk when the verb began |
| RosterRuns.SaveKeepsEveryRow | src/capture.rs:138-142 | with no other save between a verb's begin and its own, every row on disk is still there after it, in place and with its enabled flag, relabelled only if it is the verb's own account, which is rostered then |
| RosterRuns.RosteredAfterSaveExactlyWhen | src/capture.rs:946-952 | with any saves in between: an account is rostered after the save if and only if it was when the verb began, or is the verb's own |
| RosterRuns.OverlappingVerbsLoseARow | src/capture.rs:946-952 | a capture that begins and saves inside a login: both succeed, and the captured account is stashed and not rostered |
| RosterRuns.ParkedLoginAlone | src/capture.rs:825-869 | what an undisturbed login of an account other than the displayed one does to the whole state: stash and plan, not the active pair |
| ActiveSlot.ParkedLoginLeavesTheActivePair | src/capture.rs:836-843 | a login whose gate saw another account displayed changes neither the canonical token nor the display at any of its steps |
| ActiveSlot.LoginRepointsExactlyWhenGated | src/capture.rs:908-913 | a login that releases the lock has re-pointed the canonical token if and only if its gate said so, and to its own harvest |
| ActiveSlot.GateHoldsAtTheLock | src/capture.rs:986-999 | when nothing writes the display between gate and lock, the gate's answer is right under the lock if and only if the gate could read the display or would have answered "take the slot" |
| ActiveSlot.GateHoldsExactlyWhen | src/capture.rs:986-999 | when something does, the answer, that of a failed read included, is right if and only if the last such write, which clears the display or shows some account, would have had it answer the same |
| ActiveSlot.UnreadGateTakesTheSlot | src/capture.rs:991-999 | with another account displayed throughout and nobody else acting, a gate read that fails has the login take token and display |
| ActiveSlot.ActivatingLoginAlone | src/capture.rs:825-843 | what an undisturbed activating login does: its harvest is stashed, canonical and displayed, whoever was active |
| ActiveSlot.StaleGateTakesTheSlot | src/capture.rs:986-995 | a login gated before a swap takes token and display back from the account swapped in |
| Machine.Machine.TakeStep | src/capture.rs:246-252 | a step of anybody else keeps the run, and leaves a lock holder's own progress and the stash alone |
| Machine.Machine.Others | src/capture.rs:246-252 | at each point where a verb can be interrupted the others take the next batch of steps, each that can happen; every verb says how many such points it has |
| Machine.Machine.TakeLock | src/swap.rs:1022-1059 | the lock is polled for as long as the verb may wait, two hundred times; a free lock is always taken; a refusal is the verb's only step, with the lock held, and while nobody else acts nothing at all changes |
| Machine.Machine.StashWrite | src/stash.rs:206-232 | both items land, credential first, or the verb stops after none or one of them |
| Machine.Machine.MakeActive | src/capture.rs:836-843 | the canonical write must succeed, the display write after it need not, and each lands when it does not fail |
| Machine.Machine.CaptureLocked | src/capture.rs:234-258 | under any interference and failure it is a run of the protocol; refused the lock it does nothing else; when it succeeds its own steps are exactly lock, identity, token, both stash items, release, and the report is the planned roster with the stashed pair; undisturbed it succeeds exactly when the lock is free, an account with an accepted uuid is displayed and there is a token, and otherwise says which of these failed |
| Machine.Machine.RunCapture | src/capture.rs:546-609 | the pair it is given is stashed, readable, under the uuid of the identity, and only then is the plan handed back |
| Machine.Machine.Capture | src/capture.rs:98-148 | a capture that succeeds has saved, after the release, exactly the roster planned from the one on disk when it began, an absent file being an empty one, and that roster names the account; and the same exact condition for success, with the stash, the token and the display it leaves |
| Machine.Machine.RunLogin | src/capture.rs:775-869 | stash before canonical before display, and the last two only when it is to activate; when no write fails it succeeds exactly for an accepted uuid |
| Machine.Machine.RunLoginLocked | src/capture.rs:879-899 | the same under the lock; a contended lock changes nothing; undisturbed it succeeds exactly when the lock is free and the uuid is accepted, and then stash, token and display are given |
| Machine.Machine.ReconcileLogin | src/capture.rs:965-1037 | it activates exactly when the display could not be read at its start or showed nobody or the same account; on success the planned roster is saved; a revived account is signalled exactly when it was not activated, a new one never; and the same exact condition for success |
| Machine.Machine.Login | src/capture.rs:286-318 | what is planned on is the roster on disk before the isolated login, and the account counts as revived exactly when that one names it |
| Machine.Machine.ReadGate | src/capture.rs:991-999 | the gate's answer, with the read that fails |
| Machine.ActivatingIsRepointing | src/capture.rs:924-926 | a login's own steps re-point the token exactly when it activates, so that each revive leaves quarantine by exactly one way |
| Machine.Machine.SwapLocked | src/swap.rs:1072-1093 | its own steps are exactly lock, token read, stash reads, both stash items, token, display, release; every refusal comes before the first write; afterwards the token it read is the outgoing account's stashed one, the incoming account's stash is what it installed, and both the canonical token and what the confirming read found, where there is one, are still that account's; undisturbed it succeeds exactly when the lock is free, there is a token, both stashes can be read and the guard lets it pass, and then the whole state is given |
| Machine.Machine.Reread | src/swap.rs:878-881 | the confirming read finds what the canonical item holds at that point or fails; the report calls the swap confirmed exactly when it found the installed token |
| Machine.Machine.SwapFrom | src/swap.rs:819-889 | the same from the stash reads on, with the token read before them: unless a write fails it succeeds if and only if both stashes are readable and the guard lets it pass, whatever the others do meanwhile |
| Machine.Machine.ReadBothStashes | src/swap.rs:819-858 | an unreadable stash and the guard's refusal are told apart, exactly; the guard refuses only a token that is the incoming account's stashed one and not the outgoing's |
| Canary.ReconcileDisplay | src/canary.rs:267-291 | the display is rewritten exactly when the first account whose stash holds the token is not the displayed one, and it fails exactly when that write does |
| Canary.ResolveAccountFor | src/active.rs:43-57 | the loop names the first row whose own stash can be read and holds the token, whatever is displayed, and asks the display only when there is none |
| Canary.TokenOutranksDisplay | src/active.rs:43-57 | for every roster, stash, state file and token: exactly that row, else the row on display, else none |
| Canary.DisplayResolvesExactlyWhen | src/active.rs:68-73 | the display names exactly the first row of the account that the state file shows, and none when it cannot be read, has no identity or shows nobody rostered |
| Canary.Run | src/canary.rs:304-378 | without two good keychain answers nothing is written; with them the verdict is the one its declarative meaning allows over the healed display |
| Canary.OneVerdict | src/canary.rs:341-377 | the declarative meaning of the verdicts allows at most one of them, drift naming the displayed row and the least other matching one |
| Canary.DriftExactlyWhen | src/canary.rs:334-365 | drift is reported if and only if a due heal failed and the displayed account's stash does not hold the token |
| Canary.SecondRunIsIdle | src/canary.rs:334-365 | after a heal that did not fail, a second run writes nothing and gives the same verdict |
| Canary.ResolversAgreeAfterHeal | src/active.rs:43-73 | then both resolvers agree for every roster and token, and the verdict is good exactly when some readable stash holds the token |
| Canary.HealedDisplay | src/canary.rs:277-291 | after a heal that did not fail the display names the first matching row |
| Canary.RightDisplayIsLeftAlone | src/canary.rs:277-291 | a display that already matches is rewritten if and only if an earlier row holds the same token |
| ClaudeState.StateFile.WriteOauthAccount | src/claude_state.rs:168-193 | the write succeeds exactly on a JSON object whose replacement lands; every error leaves the file untouched and says which it was |
| ClaudeState.ReadAfterWrite | src/claude_state.rs:134-193 | reading back gives the identity written, other top-level keys are unchanged, and writing it again changes nothing |
| ClaudeState.LastWriterWins | src/claude_state.rs:168-193 | of two writes only the last one shows |
| ClaudeState.ReadSucceedsExactlyWhen | src/claude_state.rs:108-150 | reading gives an identity exactly when the file is an object whose identity block is that object with that account uuid, a string that is not blank |
| ClaudeState.ReadFailsWith | src/claude_state.rs:108-150 | the errors tell an absent, an unreadable and a malformed file, a missing identity block and a missing uuid apart |
| Roster.LiveRoster.PlanCapture | src/capture.rs:635-685 | the plan updates or appends one row in place, says "refreshed" exactly when the account was rostered already, and refuses exactly a malformed uuid, leaving the roster alone |
| Roster.AcceptedExactlyWhen | src/config/validate.rs:533-549 | the accepted uuids, by length and character |
| Roster.RosterIsAFold | src/capture.rs:635-685 | over every sequence of accepted and rejected plans: uuids stay unique, rows stay where they are, no enabled flag changes, labels are the last provided, else the prior, else the uuid, and the rows that join are exactly the accepted accounts |
| Roster.PlannedRowIsFound | src/capture.rs:587-594 | the lookup by stash name finds the row just planned, with its final label |
| Roster.StashNameInjective | src/config.rs:390-392 | two accounts never share a stash name |
| Roster.ProvidedExactlyWhenNotBlank | src/capture.rs:656 | a label counts as given exactly when it is not all whitespace |
| Roster.ProvidedIsTrimmed | src/capture.rs:656 | and what is taken is exactly what stands between the whitespace around it |
| PipeAccounting.HandlesAreConserved | src/control_transport.rs:747-764 | over every run after a bind, open handles are the idle one, the pending one and the live streams, each counted once, and idle and pending are never both occupied |
| PipeAccounting.CancelRestoresTheInstance | src/control_transport.rs:708-726 | an accept cancelled while it waits leaves exactly the instance it took, whatever streams ended meanwhile |
| PipeAccounting.CancelClosesNothing | src/control_transport.rs:717-726 | from any suspension a cancellation closes no handle |
| PipeAccounting.NameReleasedExactlyWhen | src/control_transport.rs:848-872 | the handle count is zero if and only if a completed accept's refill was refused, no create has succeeded since, and every stream then live has been dropped |
| PipeAccounting.DeafExactlySince | src/control_transport.rs:848-859 | nothing listens exactly since such a refill |
| PipeAccounting.FailedConnectKeepsAnInstance | src/control_transport.rs:888-927 | a failed connect leaves an instance however the operating system answers and however the accept ends |
| ControlListener.Listener.Accept | src/control_transport.rs:874-945 | for every script of answers, cancellations and ended streams it is a run of the accounting with nothing left pending; it hands out a stream if and only if a client connected, and that is the instance it waited on; a failed connect and a refused create are errors and a dropped future is neither; what it leaves listening is given in each case; and no stream is dropped but those that ended |
| ControlListener.Listener.WaitForInstance | src/control_transport.rs:792-816 | the first create that is not retried decides: a busy one is always retried unless the future is dropped, a refused one surfaces, and one that succeeds is the instance taken out |
| ControlListener.Listener.FailedConnect | src/control_transport.rs:888-927 | a replacement that can be made is parked at once; otherwise the failed instance is, after a pause |
| ControlListener.Listener.Claim | src/control_transport.rs:928-944 | the instance under the guard becomes the stream, and one refill is tried |
| ControlListener.Listener.DropGuard | src/control_transport.rs:717-726 | dropping the guard puts back what it still holds |
| PipeClient.Connect | src/control_transport.rs:1155-1181 | the result is that of the first attempt that is not busy within the budget; saturation is reported exactly when an attempt is busy with the budget spent, and no unverified client is handed out |
| IsolatedLogin.Sandbox.Capture | src/login.rs:273-306 | whatever the child leaves and wherever it fails or is cancelled: without a terminal nothing changes; once armed, teardown has run; a harvest is the isolated item and the isolated identity, with the shared item the same at both checks, and never comes from the seed alone; an alarm is raised exactly when the shared item moved; a harvest comes out exactly when no step fails or is dropped and the child has left both; and every other ending is told apart |
| IsolatedLogin.Sandbox.RunLogin | src/login.rs:209-264 | what each result says about the two hashes, the isolated item and the isolated state file, and the result itself by what each step comes to |
| IsolatedLogin.LoginComesTo | src/login.rs:209-264 | exactly when each result comes out: a harvest when the seed is written, no await is dropped, every one succeeds, the shared item is as before and the child has left a credential and an identity |
| IsolatedLogin.Sandbox.Teardown | src/isolated_spawn.rs:534-550 | the item is gone exactly when it was absent or a delete succeeded, the directory when its removal succeeded and else as it was or emptied, cancelled or not; and an item that survives an undisturbed teardown has survived four deletes |
| IsolatedLogin.FinishesExactlyWhen | src/isolated_spawn.rs:534-550 | a teardown is not cancelled exactly when each delete fails and is slept on until one succeeds or three have been tried |
| IsolatedLogin.Sandbox.DropSession | src/isolated_spawn.rs:552-561 | a dropped session makes one delete and one removal |
| IsolatedLogin.Sandbox.CreateIsolatedDir | src/paths.rs:358-394 | a link is refused and left alone, a stale directory replaced; what stands there after the creation is looked at again and refused when it is no directory or somebody else's; and it succeeds exactly when none of this stops it |
| IsolatedLogin.SeedHasNoIdentity | src/login.rs:178-189 | the onboarding seed reads as no identity |
| IsolatedLogin.SeedOnboards | src/login.rs:178-189 | and has the child onboarded, in a directory that is trusted |
| Manifest.InternallyConsistent | src/cross_surface.rs:298-490 | the self-check passes exactly on manifests that meet the declarative conditions |
| Manifest.CheckExpiryCases | src/cross_surface.rs:426-490 | the loops accept exactly cases that walk all four states, with known bands, an unknown expiry having none and the gap for a cell |
| Manifest.AcceptedIsCompleteExactlyWhen | src/cross_surface.rs:344-403 | for every accepted manifest: its edges are exactly the rank-directed pairs that are not mutually exclusive if and only if no exclusive group names a fault twice |
| Manifest.AcceptedEdgesAreSound | src/cross_surface.rs:344-403 | each edge points down the ranks, is not exclusive and is listed once |
| Manifest.RepeatedMemberHidesAMissingEdge | src/cross_surface.rs:344-403 | an accepted manifest with an arbitration missing |
| Manifest.CountPairs | src/cross_surface.rs:495-497 | n distinct names make n(n-1)/2 unordered pairs |
| Manifest.UnorderedForgetsOrder | src/cross_surface.rs:499-505 | the pair forgets the order of its names and nothing else |
| Projection.Project | src/cross_surface.rs:277-290 | it is refused exactly when a fault present is not ranked |
| Projection.ProjectionIsTheRankedPresence | src/cross_surface.rs:277-290 | for an accepted manifest it is in rank order with the original numbers and names exactly the faults present, once each |
| Projection.SilentAgainstProjection | src/cross_surface.rs:277-290 | a surface compared with it is silent exactly when it reports the faults present, in order, at their bands |
| FaultRanks.RankDivergences | src/cross_surface.rs:538-601 | the loop computes the reference report |
| FaultRanks.ReportsExactlyTheDisagreements | src/cross_surface.rs:538-601 | every finding is a real disagreement and every disagreement is found |
| FaultRanks.SilentExactlyWhenConforming | src/cross_surface.rs:538-601 | no findings if and only if the observation is not empty and equals the expectation in length, id and band at every position |
| FaultRanks.AnyChangeIsCaught | src/cross_surface.rs:621-670 | against a met expectation every other observation is reported |
| FaultRanks.MutationsCaughtExactlyWhen | src/cross_surface.rs:621-670 | when each of the four corruptions applies, changes the observation and is caught |
| FaultRanks.InversionSwapsTheEnds | src/cross_surface.rs:624-633 | the inversion swaps the first and the last fault and nothing else |
| FaultRanks.FlipReddensTheFirst | src/cross_surface.rs:636-644 | the flip turns the first fault that is not red into a red one and nothing else |
| FaultRanks.DropAndDuplicateTheMiddle | src/cross_surface.rs:647-668 | the other two take away or double the fault in the middle |
| FaultRanks.AssertCanary | src/cross_surface.rs:679-715 | the canary passes exactly on a conforming observation with two faults whose first and last differ and one that is not red |
| FaultRanks.DistinctIdsArmTheCanary | src/cross_surface.rs:679-715 | distinct ids are enough for that |
| FilePolicy.OwnerOnlyDaclDefect | src/file_policy.rs:352-404 | the scan reports the reference defect, and none exactly on printed policies |
| FilePolicy.ReaderBlamesTheFirst | src/file_policy.rs:352-404 | on printed records the defect is that of the first entry that is not allowed, by position: too few fields, inherited when its flags contain "ID" anywhere, or else its trustee; before that a missing protection, and with no entries their absence |
| FilePolicy.UnclosedIsReported | src/file_policy.rs:366-369 | an entry that is not closed, after entries that are allowed, is reported as that |
| FilePolicy.NoDaclExactlyWhen | src/file_policy.rs:353-355 | text that does not start as a DACL, and no other, is reported as none |
| FilePolicy.ReaderDecidesThePolicy | src/file_policy.rs:352-404 | for every string: no defect if and only if it is the printed form of records that are protected, not empty, have no "ID" anywhere in their second field, and in their sixth name only owners, their aliases and the floor |
| FilePolicy.ReaderOnPrinted | src/file_policy.rs:352-404 | on every printed list of records the reader reports the first defect of the records |
| FilePolicy.AliasStandsForItsAccount | src/file_policy.rs:317-329 | an alias stands for exactly the relative accounts 500 and 501 |
| FilePolicy.WriterPrintsItsRecords | src/file_policy.rs:279-285 | the writer prints its three records |
| FilePolicy.WrittenReadsBackClean | src/file_policy.rs:279-285 | everything it writes for a delimiter-free account reads back clean |
| FilePolicy.RenderedTrustee | src/file_policy.rs:352-404 | for every list of owners: a rendering that names one of them, or one by its alias, reads back clean, and any other trustee is reported by position and name |
| Framing.WordsOf | src/framing_vocabulary.rs:401-421 | the iterator loop computes the words |
| Framing.InsertedRunChangesNothing | src/framing_vocabulary.rs:401-421 | a terminated escape run outside any other changes no word, even mid-word |
| Framing.PlainAppend | src/framing_vocabulary.rs:401-421 | what dropping escape runs does to a concatenation, open run included |
| Framing.WordsAcrossSpace | src/framing_vocabulary.rs:401-421 | the words of two texts with a space between, when no run is open |
| Framing.WordsInReadingOrder | src/framing_vocabulary.rs:401-421 | the words are the maximal runs of letters and digits, lowercased, each once, in the order in which they stand |
| Framing.WordsAreTheMaximalRuns | src/framing_vocabulary.rs:401-421 | something is a word exactly when some maximal run spells it |
| Framing.LoweringFoldsCase | src/framing_vocabulary.rs:401-421 | lowering keeps the place in the alphabet and changes nothing but capitals |
| Framing.AlphaNumericExactlyWhen | src/framing_vocabulary.rs:401-421 | what counts as a letter or a digit |
| Framing.WordsAreAFixedPoint | src/framing_vocabulary.rs:401-421 | tokenizing the joined words gives them back, for every text |
| Framing.ScanReports | src/framing_vocabulary.rs:373-392 | what a scan reports, for tokens and for phrases |
| Framing.PhrasePresentExactlyWhen | src/framing_vocabulary.rs:426-431 | a phrase is present exactly when its parts, cut at its spaces, stand in a row |
| Framing.ScanOfDerivedList | src/framing_vocabulary.rs:319-325 | scanning a derived list is scanning the whole one and dropping the exempt hits, in order |
| Framing.AudiencesDifferOnlyInExemptions | src/framing_vocabulary.rs:356-362 | each audience's first hit is the first hit of the whole scan that is not exempt for it |
| Clock.ReadOrder | src/contract.rs:163-181 | reading the sleep-inclusive counter first never over-counts and falls short by at most the awake time between the reads; the other order over-counts by exactly that |
| Clock.NeverSleptAddsNothing | src/contract.rs:241-256 | nothing is added on a host that has not slept |
| Clock.DegradesToUptime | src/contract.rs:241-277 | a counter that cannot be read and an instant that cannot be represented leave the bare uptime reading |
| Clock.ReadingIsBootTime | src/contract.rs:241-277 | on Linux a reading is the boot-epoch time of its middle sample within its own skew |
| Clock.MachReadingIsBootTime | src/contract.rs:163-181 | on macOS too, with two nanoseconds of rounding, until the count of nanoseconds saturates |
| Clock.GapIsElapsedTime | src/contract.rs:241-277 | on Linux the gap between two readings is the elapsed time, sleep included, within the skews |
| Clock.MachGapIsElapsedTime | src/contract.rs:259-277 | on macOS too, with three nanoseconds of rounding |
| Clock.TicksAreFloored | src/contract.rs:141-148 | the conversion is the exact ratio rounded down, saturating, with a product that fits 128 bits |
| Clock.TicksAreMonotone | src/contract.rs:141-148 | more ticks never convert to less time |
| Clock.MachNeverOverCounts | src/contract.rs:163-181 | the macOS arm inherits both bounds through the conversion: never more than the sleep, and short of it by at most the awake ticks between the reads and one nanosecond of rounding |
| Hex.Encode | src/hex.rs:20-28 | the loop computes the reference encoding |
| Hex.Decode | src/hex.rs:32-43 | the loop computes the reference decoding, refusals included |
| Hex.DecodeUndoesEncode | src/hex.rs:20-43 | decoding undoes encoding for every byte sequence |
| Hex.DecodeAccepts | src/hex.rs:32-43 | decoding succeeds exactly on even-length text of hex digits |
| Hex.EncodeOfDecodedIsLowercase | src/hex.rs:20-43 | encoding what was decoded gives the text back, lowercased |

## Left out

- Pairing.StashesStayPairedExactlyWhen: its condition speaks of a token's owner, which no program can see; `Pairing.PairStaysInOrderExactlyWhen` is the one to check against, and starts from a coherent pair.
- Protocol.OthersRespectTheLock: holds of the modelled verbs; the daemon's re-stash writes a stash without the lock (`src/daemon/canonical.rs:401-422`).
- Machine.Machine.TakeLock: time passes by one retry interval a poll, and not otherwise.
- Machine.Machine.SwapLocked: the two stashes are read at one point, since no modelled verb writes a stash while the lock is held.
- Machine.Machine.ReconcileLogin: the two notifications to the daemon are the fact that they are sent, not what the daemon does with them.
- IsolatedLogin.Sandbox.Teardown: a failed directory removal has removed the state file or nothing.
- Other writers of the protocol's state: the daemon's re-stash of a refreshed or re-authenticated active account (`src/daemon/canonical.rs:401-422`), the isolated refresh of a parked stash, the keep-warm promotion and the adopt-target recovery are not steps of the model, nor is a login made inside Claude Code itself.
- The `remove` verb, which deletes stashes and would break the append-only results.
- The config-write lock, the witness gate and the other blocks of the config: the roster is the whole config here.
- A config file that does not parse: the verb ends there, before its first step.
- The uuids of roster, display and stash are compared as strings; that a parsed roster has unique uuids is a hypothesis where it is needed.
- JSON text, key order and SHA-256: documents are JSON values, and the hash of the isolated login is injective.
- The wording of reports, violations, defects and confirmations: each is a datatype with the values the wording quotes.
- The access-rights mask of an access-control entry, which the reader does not look at either.
- The path from a directory to its pipe name, the owner check of the pipe server and the security attributes of its instances.
- The daemon loop, swap arithmetic, online liveness probe, landing, version and duration parsers: small tables or comparisons.
- Real I/O: keychain, files, processes, sockets and clocks are answers that the contracts quantify over.
